# manifest-exported-plugin: the `android:exported` rewrite

This project models the task `AddExportMainManifestTask` of a Gradle plugin
for Android 12. Android 12 requires every component with an intent filter to
declare `android:exported`. For each manifest it is given, the task:

1. takes the root's first child as the application node;
2. selects the direct children tagged `activity`, `receiver` or `service` that have
   no `android:exported` attribute;
3. gives each selected node `android:exported="true"` when one of its
   `intent-filter` children has an `action` child, and `"false"` otherwise;
4. writes the file back only when something was selected.

The main manifest is processed only when the extension's `enableMainManifest` is
set. The dependency manifests come after it, in the iteration order of their set.

The model has three modules:

- `ManifestTree` (`manifest_tree.dfy`) holds the parsed document.
  - An element has a tag, a map of attributes keyed by qualified name, and a sequence of child elements.
  - The file system is a map from path to parsed document. A path is present exactly when the file exists.
  - `NodeList` is the source's `nodeList`: the children of an element, taken as elements.
  - `AnyTag` is the source's `anyTag`.
- `ExportedRewrite` (`exported_rewrite.dfy`) holds the rewrite of one file.
  - The selection pass, the value rule and the update pass are functions.
  - `ProcessFile` is the whole of `exportedManifest` as a function of the disk.
  - The lemmas state which nodes change, to what value, and that a second pass writes nothing.
- `ExportedTask` (`exported_task.dfy`) holds the task class.
  - The class has three lateinit fields and their setters.
  - `ExportedManifest` selects, skips or updates, and is proved equal to `ProcessFile`. Its update pass, `MarkSelected`, is a loop over the selected positions.
  - `Action` is the run over the main manifest and the dependency manifests. It is proved equal to the function `RunTask`, and lemmas about `RunTask` give the order of calls, what is written and idempotence.

A thrown exception ends the run, and files written before it stay written. The
model records this as the `failure` field of a `Run`. The exceptions modelled are:

- a missing file (`FileMissing`);
- a root without children, where `children()[0]` fails (`NoApplicationNode`);
- a read of a lateinit field that was never set (`Uninitialized`). Kotlin raises this only when `action` reaches the field, so `mainManifest` is read only when enabled, and `manifests` only after the main manifest was processed.

## Behaviour worth noting

- A missing manifest throws and ends the run; files written before it stay written.
- The value rule reads tags only. Any `action` child inside an `intent-filter` makes the value `"true"`, whatever the action's name; the task's own code never reads `actionRules` (`ExportedRewrite.AnyActionExportsTrue` shows this for `android.intent.action.VIEW`).
- Selection does not look at intent filters. A component without one is selected and gets `"false"`.
- A component that already carries `android:exported` is never selected, so its value is never overwritten, whatever it is.
- With `enableMainManifest` unset, the main manifest is simply not processed; the dependency manifests are processed all the same.
- The application node is the root's first child, whatever its tag. When `uses-permission` comes first, nothing is selected (`ExportedRewrite.FirstChildTakenAsApplication`).

Idempotence is stated as "no candidate remains" (`Settled`). A value that was
already present before a pass stays as it was, and it need not be `"true"` or
`"false"`. Only the values the pass adds are `"true"` or `"false"`.

## Model

| member | source | states |
|---|---|---|
| `ManifestTree.AnyTag` | exported-plugin/src/main/java/com/xiachufang/manifest/exported/AddExportMainManifestTask.kt:94-99 | true exactly when attribute `key` is present and its value equals one of `values`; false when the attribute is absent or `values` is empty |
| `ManifestTree.AnyEquals` | exported-plugin/src/main/java/com/xiachufang/manifest/exported/AddExportMainManifestTask.kt:96-98 | the front-to-back `any` over `values` is membership of the value |
| `ManifestTree.HasChildTagged` | exported-plugin/src/main/java/com/xiachufang/manifest/exported/AddExportMainManifestTask.kt:81-83 | the inner `any` is true exactly when some child has the given tag |
| `ExportedRewrite.CandidatePositions` | exported-plugin/src/main/java/com/xiachufang/manifest/exported/AddExportMainManifestTask.kt:65-73 | the selection: increasing, in-range positions; a position is selected exactly when `IsCandidate` holds for its child, the filter test at lines 67-70: tag `activity`, `receiver` or `service`, and no `android:exported` |
| `ExportedRewrite.NoCandidateNoPositions` | exported-plugin/src/main/java/com/xiachufang/manifest/exported/AddExportMainManifestTask.kt:65-77 | children with no candidate give an empty selection, which is the branch that skips the file |
| `ExportedRewrite.HasActionFilter` | exported-plugin/src/main/java/com/xiachufang/manifest/exported/AddExportMainManifestTask.kt:80-84 | the nested `any` is true exactly when some `intent-filter` child has an `action` child |
| `ExportedRewrite.ExportedValue` | exported-plugin/src/main/java/com/xiachufang/manifest/exported/AddExportMainManifestTask.kt:80-85 | the stored value is `"true"` or `"false"`, and it is `"true"` exactly when an `intent-filter` child holds an `action` child; no intent filter gives `"false"`; the children are read through `NodeList` (`nodeList`, line 92), which is the identity on element children |
| `ExportedRewrite.Mark` | exported-plugin/src/main/java/com/xiachufang/manifest/exported/AddExportMainManifestTask.kt:85 | the store: tag and children unchanged; `android:exported` added to the attribute keys with the value `ExportedValue` of the node; every other attribute keeps its value |
| `ExportedRewrite.RewriteChildren` | exported-plugin/src/main/java/com/xiachufang/manifest/exported/AddExportMainManifestTask.kt:78-86 | after the update pass, non-candidates are identical; every child keeps its tag and children; a candidate keeps every attribute and gains exactly `android:exported` with its value |
| `ExportedRewrite.RewriteLeavesNoCandidate` | exported-plugin/src/main/java/com/xiachufang/manifest/exported/AddExportMainManifestTask.kt:65-86 | after the pass, every component child of the application node has `android:exported`, so the selection is empty |
| `ExportedRewrite.RewriteDocumentFrame` | exported-plugin/src/main/java/com/xiachufang/manifest/exported/AddExportMainManifestTask.kt:62-86 | the root's tag, its attributes and its children after the first are unchanged; the application node keeps its tag and attributes; only its children are rewritten; the result is settled |
| `ExportedRewrite.ProcessFile` | exported-plugin/src/main/java/com/xiachufang/manifest/exported/AddExportMainManifestTask.kt:55-90 | `exportedManifest` on the disk: the only exceptions are `FileMissing` and `NoApplicationNode` for this path; no file appears or disappears; a pass that writes nothing leaves the disk as it is (the exact conditions are in `ProcessFileOutcome`) |
| `ExportedRewrite.ProcessFileOutcome` | exported-plugin/src/main/java/com/xiachufang/manifest/exported/AddExportMainManifestTask.kt:55-90 | missing file if and only if `FileMissing`; a root without child if and only if `NoApplicationNode`; success exactly when the file exists and its root has a child; on success the file is written exactly when a candidate existed, otherwise the disk is unchanged; only that file changes, and it ends settled |
| `ExportedRewrite.ProcessFileIdempotent` | exported-plugin/src/main/java/com/xiachufang/manifest/exported/AddExportMainManifestTask.kt:65-86 | a second pass over a processed file writes nothing and leaves the disk as it is |
| `ExportedRewrite.AnyActionExportsTrue` | exported-plugin/src/main/java/com/xiachufang/manifest/exported/AddExportMainManifestTask.kt:80-85 | an activity whose filter declares only a VIEW action is written with `"true"` |
| `ExportedRewrite.FirstChildTakenAsApplication` | exported-plugin/src/main/java/com/xiachufang/manifest/exported/AddExportMainManifestTask.kt:62 | with `uses-permission` before `application`, nothing is selected and the file is not written |
| `ExportedTask.VisitAllAfterFailure` | exported-plugin/src/main/java/com/xiachufang/manifest/exported/AddExportMainManifestTask.kt:49-51 | after an exception, no further file is processed |
| `ExportedTask.VisitStepOrder` | exported-plugin/src/main/java/com/xiachufang/manifest/exported/AddExportMainManifestTask.kt:49-51 | one call appends its file to the visited list, and an exception it raises names that file |
| `ExportedTask.VisitStepFrame` | exported-plugin/src/main/java/com/xiachufang/manifest/exported/AddExportMainManifestTask.kt:55-90 | one call changes at most its own file, and only when it writes it; a settled file is visited without any change |
| `ExportedTask.VisitAllOrder` | exported-plugin/src/main/java/com/xiachufang/manifest/exported/AddExportMainManifestTask.kt:49-51 | files are processed in list order; the visited files are a prefix of the list, and all of it when no exception was raised |
| `ExportedTask.VisitAllFailure` | exported-plugin/src/main/java/com/xiachufang/manifest/exported/AddExportMainManifestTask.kt:49-51 | an exception ends the loop, and it names the last file visited |
| `ExportedTask.VisitAllFrame` | exported-plugin/src/main/java/com/xiachufang/manifest/exported/AddExportMainManifestTask.kt:49-51 | every written file was visited; the set of files is unchanged; an unwritten file keeps its content |
| `ExportedTask.VisitAllSucceeds` | exported-plugin/src/main/java/com/xiachufang/manifest/exported/AddExportMainManifestTask.kt:49-51 | when every listed file exists and has a root with a child, no exception is raised, even for a file listed twice |
| `ExportedTask.VisitAllSettles` | exported-plugin/src/main/java/com/xiachufang/manifest/exported/AddExportMainManifestTask.kt:49-51 | after a run without an exception, every visited file has no candidate left |
| `ExportedTask.VisitAllSettledWritesNothing` | exported-plugin/src/main/java/com/xiachufang/manifest/exported/AddExportMainManifestTask.kt:71-77 | processing files that have no candidate visits each one and writes none |
| `ExportedTask.RunTask` | exported-plugin/src/main/java/com/xiachufang/manifest/exported/AddExportMainManifestTask.kt:44-53 | `action` reads `extArg` first, so an unset `extArg` fails before any file is read or written; with the main manifest enabled, an unset `mainManifest` fails before any file is visited; an unset `manifests` fails before any file is visited when the main manifest is disabled, and otherwise only after the main manifest was processed, which may already have written it: the run then has visited exactly the main manifest, keeps its disk and writes, and fails with `Uninitialized("manifests")` exactly when that call raised nothing |
| `ExportedTask.RunTaskSchedule` | exported-plugin/src/main/java/com/xiachufang/manifest/exported/AddExportMainManifestTask.kt:44-53 | with every field set, `action` is the per-file calls on the main manifest (when enabled) followed by the dependency manifests, from an empty run |
| `ExportedTask.RunTaskOrder` | exported-plugin/src/main/java/com/xiachufang/manifest/exported/AddExportMainManifestTask.kt:44-53 | `action` visits the main manifest first, and only when enabled; then every dependency manifest in order; it stops at the first exception, which names the failing file |
| `ExportedTask.RunTaskSucceeds` | exported-plugin/src/main/java/com/xiachufang/manifest/exported/AddExportMainManifestTask.kt:44-53 | with every field set and every scheduled file existing with a root that has a child, `action` raises no exception and visits its whole schedule |
| `ExportedTask.RunTaskFrame` | exported-plugin/src/main/java/com/xiachufang/manifest/exported/AddExportMainManifestTask.kt:44-53 | only visited files are written; every other file keeps its content; a disabled main manifest that is not also a dependency stays untouched |
| `ExportedTask.RunTaskIdempotent` | exported-plugin/src/main/java/com/xiachufang/manifest/exported/AddExportMainManifestTask.kt:44-53 | a second run on the disk a successful run left visits the same files, writes none and changes nothing |
| `ExportedTask.AddExportMainManifestTask.constructor` | exported-plugin/src/main/java/com/xiachufang/manifest/exported/AddExportMainManifestTask.kt:18-24 | a new task has all three lateinit fields unset |
| `ExportedTask.AddExportMainManifestTask.SetManifests` | exported-plugin/src/main/java/com/xiachufang/manifest/exported/AddExportMainManifestTask.kt:31-33 | sets `manifests` and leaves the other fields unchanged |
| `ExportedTask.AddExportMainManifestTask.SetMainManifest` | exported-plugin/src/main/java/com/xiachufang/manifest/exported/AddExportMainManifestTask.kt:35-37 | sets `mainManifest` and leaves the other fields unchanged |
| `ExportedTask.AddExportMainManifestTask.SetExtArg` | exported-plugin/src/main/java/com/xiachufang/manifest/exported/AddExportMainManifestTask.kt:39-41 | sets `extArg` and leaves the other fields unchanged |
| `ExportedTask.AddExportMainManifestTask.ExportedManifest` | exported-plugin/src/main/java/com/xiachufang/manifest/exported/AddExportMainManifestTask.kt:55-90 | the selection, the empty-selection skip and the update loop compute `ProcessFile`; a missing file is `FileMissing`; a root without child is `NoApplicationNode`; the file is written exactly when it was not settled |
| `ExportedTask.AddExportMainManifestTask.MarkSelected` | exported-plugin/src/main/java/com/xiachufang/manifest/exported/AddExportMainManifestTask.kt:78-86 | the update loop over the selected positions, in order, yields exactly `RewriteChildren` of the application node's children |
| `ExportedTask.AddExportMainManifestTask.Action` | exported-plugin/src/main/java/com/xiachufang/manifest/exported/AddExportMainManifestTask.kt:44-53 | the run equals `RunTask` on the task's fields, so the order, frame and idempotence lemmas above apply to it |

## Left out

- XML parsing and serialisation (`XmlParser().parse`, `XmlUtil.serialize`, `PrintWriter`) are not modelled. The disk holds parsed trees, and a write stores the updated tree. Malformed XML and I/O errors during writing are not modelled.
- The QName lookup `attribute(qExportedKey)` and the string-key store `attributes()["android:exported"]` are one attribute name here. They coincide once the tree is serialised and read back. `qAndroidKey` is never used by the task.
- The casts `as Node` are not modelled: every child is an element. A first child of the root that is text, and would raise a cast error, is not modelled either.
- Node identity and aliasing are not modelled. The source mutates the selected node objects in place. The model replaces the application node's children by position, which gives the same tree because each selected node occurs once.
- Logging (`println`, and `extArg.toLog`, whose definition is not part of this model) is treated as output only and is left out.
- The set of dependency manifests is modelled as a sequence in its iteration order.
- `ExportedPlugin.kt` (Gradle wiring, variant discovery, `capitalized`) is not part of this model. It is build-system plumbing, and its `capitalized` helper depends on locale-dependent Unicode title-casing.
- `RulesListBean.kt` and the `actionRules` and `logOutPath` fields of `ExportedExtension.kt` are not part of this model. `actionRules` is read nowhere in the task's code. `logOutPath` matters only to `toLog`, that is to logging, which is left out. Only `enableMainManifest` is modelled.
- `ManifestTree.AnyTag` is modelled although nothing in the task calls it.
