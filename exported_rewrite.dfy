/**
 * The rewrite `exportedManifest` applies to one manifest: select the component
 * children of the application node that lack `android:exported`, give each the
 * value "true" or "false", and write the file only when something was selected.
 */
module ExportedRewrite {

  import opened ManifestTree
  import opened Results

  /** What aborts processing: the exceptions of `exportedManifest` and an unset lateinit field. */
  datatype Error =
    | FileMissing(path: Path)
    | NoApplicationNode(path: Path)
    | Uninitialized(property: string)

  /** A processed file: the disk afterwards, and whether the file was written. */
  datatype FileStep = FileStep(disk: Disk, written: bool)

  predicate IsComponent(e: Element)
  {
    e.tag == "activity" || e.tag == "receiver" || e.tag == "service"
  }

  /** A node the selection pass keeps: a component without an exported attribute. */
  predicate IsCandidate(e: Element)
  {
    IsComponent(e) && ExportedKey !in e.attrs
  }

  /**
   * The positions, among `kids`, of the nodes the selection pass keeps, in
   * document order. Positions stand for the node references the source collects.
   */
  function CandidatePositions(kids: seq<Element>): (r: seq<nat>)
    ensures forall k :: 0 <= k < |r| ==> r[k] < |kids| && IsCandidate(kids[r[k]])
    ensures forall j, k :: 0 <= j < k < |r| ==> r[j] < r[k]
    ensures forall i :: 0 <= i < |kids| ==> (i in r <==> IsCandidate(kids[i]))
    decreases |kids|
  {
    if kids == [] then []
    else
      var n := |kids| - 1;
      CandidatePositions(kids[..n]) + (if IsCandidate(kids[n]) then [n] else [])
  }

  /** Whether some `intent-filter` among `kids` has at least one `action` child. */
  function HasActionFilter(kids: seq<Element>): (r: bool)
    ensures r <==> exists i :: 0 <= i < |kids| && kids[i].tag == "intent-filter"
                              && HasChildTagged(NodeList(kids[i]), "action")
  {
    if kids == [] then false
    else (kids[0].tag == "intent-filter" && HasChildTagged(NodeList(kids[0]), "action"))
         || HasActionFilter(kids[1..])
  }

  /** The value a selected node receives. */
  function ExportedValue(e: Element): (v: string)
    ensures v == "true" || v == "false"
    ensures v == "true" <==>
      exists i, j :: 0 <= i < |e.children| && e.children[i].tag == "intent-filter"
                     && 0 <= j < |e.children[i].children| && e.children[i].children[j].tag == "action"
  {
    if HasActionFilter(NodeList(e)) then "true" else "false"
  }

  /** A selected node after the update pass has stored its exported value. */
  function Mark(e: Element): (m: Element)
    ensures m.tag == e.tag && m.children == e.children
    ensures m.attrs.Keys == e.attrs.Keys + {ExportedKey}
    ensures forall key :: key in e.attrs && key != ExportedKey ==> m.attrs[key] == e.attrs[key]
    ensures m.attrs[ExportedKey] == ExportedValue(e)
  {
    e.(attrs := e.attrs[ExportedKey := ExportedValue(e)])
  }

  /**
   * The application node's children after the update pass: each candidate gains
   * exactly one attribute, `android:exported`, and every other child is untouched.
   */
  function RewriteChildren(kids: seq<Element>): (r: seq<Element>)
    ensures |r| == |kids|
    ensures forall i :: 0 <= i < |kids| && !IsCandidate(kids[i]) ==> r[i] == kids[i]
    ensures forall i :: 0 <= i < |kids| ==> r[i].tag == kids[i].tag && r[i].children == kids[i].children
    ensures forall i :: 0 <= i < |kids| && IsCandidate(kids[i]) ==>
      && r[i].attrs.Keys == kids[i].attrs.Keys + {ExportedKey}
      && (forall key :: key in kids[i].attrs ==> r[i].attrs[key] == kids[i].attrs[key])
      && r[i].attrs[ExportedKey] == ExportedValue(kids[i])
  {
    seq(|kids|, i requires 0 <= i < |kids| => if IsCandidate(kids[i]) then Mark(kids[i]) else kids[i])
  }

  /** The document after the update pass; the application node is the root's first child. */
  function RewriteDocument(root: Element): Element
    requires |root.children| > 0
  {
    var app := root.children[0];
    root.(children := root.children[0 := app.(children := RewriteChildren(app.children))])
  }

  predicate NoCandidate(kids: seq<Element>)
  {
    forall i :: 0 <= i < |kids| ==> !IsCandidate(kids[i])
  }

  /** A document whose application node has no candidate left: a pass over it writes nothing. */
  predicate Settled(root: Element)
  {
    |root.children| > 0 && NoCandidate(root.children[0].children)
  }

  /**
   * What `exportedManifest` does to one file, as a function of the disk. The file
   * is skipped when the selection is empty, that is, when the document is settled.
   */
  function ProcessFile(disk: Disk, path: Path): (r: Result<FileStep, Error>)
    ensures r.Failure? ==> r.error == FileMissing(path) || r.error == NoApplicationNode(path)
    ensures r.Success? ==> r.value.disk.Keys == disk.Keys
    ensures r.Success? && !r.value.written ==> r.value.disk == disk
  {
    if path !in disk then Failure(FileMissing(path))
    else if |disk[path].children| == 0 then Failure(NoApplicationNode(path))
    else if Settled(disk[path]) then Success(FileStep(disk, false))
    else Success(FileStep(disk[path := RewriteDocument(disk[path])], true))
  }

  /** Children none of which is a candidate give an empty selection. */
  lemma {:induction false} NoCandidateNoPositions(kids: seq<Element>)
    requires NoCandidate(kids)
    ensures CandidatePositions(kids) == []
    decreases |kids|
  {
    if kids != [] {
      NoCandidateNoPositions(kids[..|kids| - 1]);
    }
  }

  /** After the update pass no child of the application node is a candidate any more. */
  lemma RewriteLeavesNoCandidate(kids: seq<Element>)
    ensures CandidatePositions(RewriteChildren(kids)) == []
    ensures forall i :: 0 <= i < |kids| && IsComponent(kids[i]) ==> ExportedKey in RewriteChildren(kids)[i].attrs
  {
    NoCandidateNoPositions(RewriteChildren(kids));
  }

  /**
   * The rewrite changes only the application node's candidate children: the root's
   * tag and attributes, its other children and the application node's own tag and
   * attributes are as before, and the new attribute values are "true" or "false".
   */
  lemma RewriteDocumentFrame(root: Element)
    requires |root.children| > 0
    ensures var r := RewriteDocument(root);
      && r.tag == root.tag && r.attrs == root.attrs
      && |r.children| == |root.children|
      && r.children[1..] == root.children[1..]
      && r.children[0].tag == root.children[0].tag
      && r.children[0].attrs == root.children[0].attrs
      && r.children[0].children == RewriteChildren(root.children[0].children)
      && Settled(r)
  {
    RewriteLeavesNoCandidate(root.children[0].children);
  }

  /** `exportedManifest`'s outcome: which errors, when the file is written, and what changes on disk. */
  lemma ProcessFileOutcome(disk: Disk, path: Path)
    ensures path !in disk <==> ProcessFile(disk, path) == Failure(FileMissing(path))
    ensures (path in disk && |disk[path].children| == 0) <==> ProcessFile(disk, path) == Failure(NoApplicationNode(path))
    ensures ProcessFile(disk, path).Success? <==> path in disk && |disk[path].children| > 0
    ensures ProcessFile(disk, path).Success? ==>
      var s := ProcessFile(disk, path).value;
      && path in disk && |disk[path].children| > 0
      && (s.written <==> !Settled(disk[path]))
      && (!s.written ==> s.disk == disk)
      && (s.written ==> s.disk == disk[path := RewriteDocument(disk[path])])
      && s.disk.Keys == disk.Keys
      && (forall p :: p in disk && p != path ==> s.disk[p] == disk[p])
      && Settled(s.disk[path])
  {
    if path in disk && |disk[path].children| > 0 && !Settled(disk[path]) {
      RewriteDocumentFrame(disk[path]);
    }
  }

  /** A second pass over a file finds no candidate and leaves the disk as it is. */
  lemma ProcessFileIdempotent(disk: Disk, path: Path)
    requires ProcessFile(disk, path).Success?
    ensures var d := ProcessFile(disk, path).value.disk;
      ProcessFile(d, path) == Success(FileStep(d, false))
  {
    ProcessFileOutcome(disk, path);
  }

  /**
   * Any action child counts, whatever its name: an activity whose only intent
   * filter declares `android.intent.action.VIEW` is exported as "true".
   */
  lemma AnyActionExportsTrue()
    ensures var action := Element("action", map["android:name" := "android.intent.action.VIEW"], []);
      var filter := Element("intent-filter", map[], [action]);
      var activity := Element("activity", map["android:name" := ".Detail"], [filter]);
      var root := Element("manifest", map[], [Element("application", map[], [activity])]);
      var disk := map["AndroidManifest.xml" := root];
      ProcessFile(disk, "AndroidManifest.xml").Success?
      && ProcessFile(disk, "AndroidManifest.xml").value.written
      && ProcessFile(disk, "AndroidManifest.xml").value.disk["AndroidManifest.xml"].children[0].children[0].attrs[ExportedKey] == "true"
  {
    var action := Element("action", map["android:name" := "android.intent.action.VIEW"], []);
    var filter := Element("intent-filter", map[], [action]);
    var activity := Element("activity", map["android:name" := ".Detail"], [filter]);
    var root := Element("manifest", map[], [Element("application", map[], [activity])]);
    assert IsCandidate(root.children[0].children[0]);
    assert HasChildTagged(NodeList(filter), "action");
  }

  /**
   * The application node is whatever element comes first under the root: when a
   * `uses-permission` precedes `application`, the activity is not selected and the
   * file is not written.
   */
  lemma FirstChildTakenAsApplication()
    ensures var activity := Element("activity", map["android:name" := ".Main"], []);
      var root := Element("manifest", map[], [Element("uses-permission", map[], []),
                                               Element("application", map[], [activity])]);
      var disk := map["AndroidManifest.xml" := root];
      ProcessFile(disk, "AndroidManifest.xml") == Success(FileStep(disk, false))
  {
  }
}
