/**
 * The parsed manifest: an element tree with a tag, attributes keyed by
 * qualified name ("android:exported") and element children in document order,
 * together with the file system the task reads and writes.
 */
module ManifestTree {

  type Path = string

  datatype Element = Element(tag: string, attrs: map<string, string>, children: seq<Element>)

  /** The files on disk: a path is present exactly when the file exists, mapped to its parsed content. */
  type Disk = map<Path, Element>

  /** The attribute the task adds; the QName lookup and the string-key store both mean this key. */
  const ExportedKey: string := "android:exported"

  /** The children of an element, every one of them an element (`nodeList`). */
  function NodeList(e: Element): seq<Element>
  {
    e.children
  }

  /** Whether some element of `kids` has tag `tag`, searched front to back like Kotlin's `any`. */
  function HasChildTagged(kids: seq<Element>, tag: string): (r: bool)
    ensures r <==> exists i :: 0 <= i < |kids| && kids[i].tag == tag
  {
    if kids == [] then false
    else kids[0].tag == tag || HasChildTagged(kids[1..], tag)
  }

  /** Whether `v` equals one of `values`, searched front to back. */
  function AnyEquals(values: seq<string>, v: string): (r: bool)
    ensures r <==> v in values
  {
    if values == [] then false
    else values[0] == v || AnyEquals(values[1..], v)
  }

  /**
   * `anyTag`: the attribute `key` is present and its value is one of `values`;
   * an absent attribute gives false whatever `values` holds.
   */
  function AnyTag(e: Element, key: string, values: seq<string>): (r: bool)
    ensures r <==> key in e.attrs && e.attrs[key] in values
    ensures key !in e.attrs ==> !r
    ensures values == [] ==> !r
  {
    if key in e.attrs then AnyEquals(values, e.attrs[key]) else false
  }
}
