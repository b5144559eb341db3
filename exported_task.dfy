/**
 * The Gradle task: three late-initialised fields set by the plugin, the per-file
 * rewrite `exportedManifest`, and `action`, which runs the main manifest (when
 * enabled) and then every dependency manifest.
 */
module ExportedTask {

  import opened ManifestTree
  import opened Results
  import opened ExportedRewrite

  /** The part of the plugin's extension the task reads; `actionRules` is never read by the task, and `logOutPath` matters only to logging, which is not modelled. */
  datatype ExportedExtension = ExportedExtension(enableMainManifest: bool)

  /**
   * The state of a run: the disk, the files `exportedManifest` was called on in
   * order, the files written in order, and the exception that ended the run, if any.
   */
  datatype Run = Run(disk: Disk, visited: seq<Path>, written: seq<Path>, failure: Option<Error>)

  function Start(disk: Disk): Run
  {
    Run(disk, [], [], None)
  }

  /** The run after a call of `exportedManifest` on `path` returned `r`. */
  function Record(run: Run, path: Path, r: Result<FileStep, Error>): Run
  {
    match r
    case Failure(e) => run.(visited := run.visited + [path], failure := Some(e))
    case Success(s) =>
      run.(disk := s.disk, visited := run.visited + [path],
           written := run.written + (if s.written then [path] else []))
  }

  /** One call of `exportedManifest`; once an exception was thrown nothing more happens. */
  function Visit(run: Run, path: Path): Run
  {
    if run.failure.Some? then run else Record(run, path, ProcessFile(run.disk, path))
  }

  /** The calls on `paths`, in order. */
  function VisitAll(run: Run, paths: seq<Path>): Run
    decreases |paths|
  {
    if paths == [] then run else VisitAll(Visit(run, paths[0]), paths[1..])
  }

  /** The order in which `action` hands files to `exportedManifest`. */
  function Schedule(enableMain: bool, main: Path, manifests: seq<Path>): seq<Path>
  {
    (if enableMain then [main] else []) + manifests
  }

  /**
   * What `action` does, as a function of the task's fields and the disk. Kotlin
   * throws when an unset lateinit field is read, so each field fails only when
   * `action` reaches it: `extArg` first, `mainManifest` only when enabled, and
   * `manifests` after the main manifest was processed.
   */
  function RunTask(ext: Option<ExportedExtension>, main: Option<Path>, manifests: Option<seq<Path>>,
                   disk: Disk): (r: Run)
    ensures ext.None? ==> r == Run(disk, [], [], Some(Uninitialized("extArg")))
    ensures ext.Some? && ext.value.enableMainManifest && main.None? ==>
      r.failure == Some(Uninitialized("mainManifest")) && r.visited == [] && r.disk == disk
    ensures ext.Some? && !ext.value.enableMainManifest && manifests.None? ==>
      r == Run(disk, [], [], Some(Uninitialized("manifests")))
    ensures ext.Some? && ext.value.enableMainManifest && main.Some? && manifests.None? ==>
      var m := Visit(Start(disk), main.value);
      && r.visited == [main.value] && r.disk == m.disk && r.written == m.written
      && r.failure.Some?
      && (r.failure == Some(Uninitialized("manifests")) <==> ProcessFile(disk, main.value).Success?)
  {
    var start := Start(disk);
    if ext.None? then start.(failure := Some(Uninitialized("extArg")))
    else
      var afterMain :=
        if !ext.value.enableMainManifest then start
        else if main.None? then start.(failure := Some(Uninitialized("mainManifest")))
        else Visit(start, main.value);
      if afterMain.failure.Some? then afterMain
      else if manifests.None? then afterMain.(failure := Some(Uninitialized("manifests")))
      else VisitAll(afterMain, manifests.value)
  }

  /** An error raised while processing `path`. */
  predicate FailedAt(e: Error, path: Path)
  {
    (e.FileMissing? || e.NoApplicationNode?) && e.path == path
  }

  /** Once a run has failed, further calls change nothing. */
  lemma {:induction false} VisitAllAfterFailure(run: Run, paths: seq<Path>)
    requires run.failure.Some?
    ensures VisitAll(run, paths) == run
    decreases |paths|
  {
    if paths != [] {
      VisitAllAfterFailure(run, paths[1..]);
    }
  }

  /** One call appends its file to the visited list; an exception names that file. */
  lemma VisitStepOrder(run: Run, path: Path)
    requires run.failure.None?
    ensures var n := Visit(run, path);
      && n.visited == run.visited + [path]
      && (n.failure.Some? ==> FailedAt(n.failure.value, path))
  {
  }

  /** One call can change only its own file, and only when it writes it. */
  lemma VisitStepFrame(run: Run, path: Path)
    requires run.failure.None?
    ensures var n := Visit(run, path);
      && n.disk.Keys == run.disk.Keys
      && (n.written == run.written || n.written == run.written + [path])
      && (n.written == run.written ==> n.disk == run.disk)
      && (forall p :: p in run.disk && p != path ==> n.disk[p] == run.disk[p])
      && (path in run.disk && Settled(run.disk[path]) ==> n == run.(visited := run.visited + [path]))
  {
    ProcessFileOutcome(run.disk, path);
  }

  /**
   * Calls happen in list order: the visited files are a prefix of `paths`, all of
   * it when nothing failed.
   */
  lemma {:induction false} VisitAllOrder(run: Run, paths: seq<Path>)
    requires run.failure.None?
    ensures var r := VisitAll(run, paths);
      && |run.visited| <= |r.visited| <= |run.visited| + |paths|
      && r.visited == run.visited + paths[..|r.visited| - |run.visited|]
      && (r.failure.None? ==> r.visited == run.visited + paths)
    decreases |paths|
  {
    if paths != [] {
      var next := Visit(run, paths[0]);
      VisitStepOrder(run, paths[0]);
      if next.failure.Some? {
        VisitAllAfterFailure(next, paths[1..]);
      } else {
        var rest := paths[1..];
        VisitAllOrder(next, rest);
        var r := VisitAll(next, rest);
        var m := |r.visited| - |next.visited|;
        assert [paths[0]] + rest[..m] == paths[..m + 1];
      }
    }
  }

  /** A run stops at the first exception, which names the last file visited. */
  lemma {:induction false} VisitAllFailure(run: Run, paths: seq<Path>)
    requires run.failure.None?
    ensures var r := VisitAll(run, paths);
      r.failure.Some? ==> |r.visited| > |run.visited| && FailedAt(r.failure.value, r.visited[|r.visited| - 1])
    decreases |paths|
  {
    if paths != [] {
      var next := Visit(run, paths[0]);
      VisitStepOrder(run, paths[0]);
      if next.failure.Some? {
        VisitAllAfterFailure(next, paths[1..]);
      } else {
        VisitAllFailure(next, paths[1..]);
      }
    }
  }

  /** Every file written was visited, and a file never written keeps its content. */
  lemma {:induction false} VisitAllFrame(run: Run, paths: seq<Path>)
    requires run.failure.None?
    requires forall p :: p in run.written ==> p in run.visited
    ensures var r := VisitAll(run, paths);
      && (forall p :: p in r.written ==> p in r.visited)
      && (forall p :: p in run.written ==> p in r.written)
      && r.disk.Keys == run.disk.Keys
      && (forall p :: p in run.disk && p !in r.written ==> r.disk[p] == run.disk[p])
    decreases |paths|
  {
    if paths != [] {
      var next := Visit(run, paths[0]);
      VisitStepOrder(run, paths[0]);
      VisitStepFrame(run, paths[0]);
      if next.failure.Some? {
        VisitAllAfterFailure(next, paths[1..]);
      } else {
        VisitAllFrame(next, paths[1..]);
      }
    }
  }

  /** A file that exists and whose root has a child: `exportedManifest` does not throw on it. */
  predicate Processable(disk: Disk, path: Path)
  {
    path in disk && |disk[path].children| > 0
  }

  /**
   * Calls on files that all exist and all have an application node raise no
   * exception, even when a file occurs more than once.
   */
  lemma {:induction false} VisitAllSucceeds(run: Run, paths: seq<Path>)
    requires run.failure.None?
    requires forall p :: p in paths ==> Processable(run.disk, p)
    ensures VisitAll(run, paths).failure.None?
    decreases |paths|
  {
    if paths != [] {
      assert paths[0] in paths;
      var next := Visit(run, paths[0]);
      ProcessFileOutcome(run.disk, paths[0]);
      VisitStepFrame(run, paths[0]);
      forall p | p in paths[1..]
        ensures Processable(next.disk, p)
      {
        assert p in paths;
      }
      VisitAllSucceeds(next, paths[1..]);
    }
  }

  /**
   * After a successful run every visited file has no candidate left, so a later
   * pass over it writes nothing.
   */
  lemma {:induction false} VisitAllSettles(run: Run, paths: seq<Path>)
    requires run.failure.None?
    requires forall p :: p in run.visited ==> p in run.disk && Settled(run.disk[p])
    ensures var r := VisitAll(run, paths);
      r.failure.None? ==> forall p :: p in r.visited ==> p in r.disk && Settled(r.disk[p])
    decreases |paths|
  {
    if paths != [] {
      var next := Visit(run, paths[0]);
      ProcessFileOutcome(run.disk, paths[0]);
      if next.failure.Some? {
        VisitAllAfterFailure(next, paths[1..]);
      } else {
        VisitAllSettles(next, paths[1..]);
      }
    }
  }

  /** Calls on files that are all settled visit them and write nothing. */
  lemma {:induction false} VisitAllSettledWritesNothing(run: Run, paths: seq<Path>)
    requires run.failure.None?
    requires forall p :: p in paths ==> p in run.disk && Settled(run.disk[p])
    ensures VisitAll(run, paths) == run.(visited := run.visited + paths)
    decreases |paths|
  {
    if paths != [] {
      assert paths[0] in paths;
      VisitStepFrame(run, paths[0]);
      var next := run.(visited := run.visited + [paths[0]]);
      VisitAllSettledWritesNothing(next, paths[1..]);
      assert next.visited + paths[1..] == run.visited + paths;
    }
  }

  /** With every field set, `action` is the calls on its schedule, from an empty run. */
  lemma RunTaskSchedule(ext: ExportedExtension, main: Path, manifests: seq<Path>, disk: Disk)
    ensures RunTask(Some(ext), Some(main), Some(manifests), disk)
         == VisitAll(Start(disk), Schedule(ext.enableMainManifest, main, manifests))
  {
    var order := Schedule(ext.enableMainManifest, main, manifests);
    if ext.enableMainManifest {
      assert order[0] == main && order[1..] == manifests;
      var afterMain := Visit(Start(disk), main);
      if afterMain.failure.Some? {
        VisitAllAfterFailure(afterMain, manifests);
      }
    } else {
      assert order == manifests;
    }
  }

  /**
   * `action` hands files to `exportedManifest` in the order main manifest (only
   * when enabled) and then every dependency manifest, stopping at the first
   * exception, which names the file it was raised for.
   */
  lemma RunTaskOrder(ext: ExportedExtension, main: Path, manifests: seq<Path>, disk: Disk)
    ensures var r := RunTask(Some(ext), Some(main), Some(manifests), disk);
      var order := Schedule(ext.enableMainManifest, main, manifests);
      && |r.visited| <= |order|
      && r.visited == order[..|r.visited|]
      && (r.failure.None? ==> r.visited == order)
      && (r.failure.Some? ==> |r.visited| > 0 && FailedAt(r.failure.value, r.visited[|r.visited| - 1]))
  {
    RunTaskSchedule(ext, main, manifests, disk);
    VisitAllOrder(Start(disk), Schedule(ext.enableMainManifest, main, manifests));
    VisitAllFailure(Start(disk), Schedule(ext.enableMainManifest, main, manifests));
  }

  /**
   * With every field set and every scheduled file existing with an application
   * node, `action` raises no exception and so visits its whole schedule.
   */
  lemma RunTaskSucceeds(ext: ExportedExtension, main: Path, manifests: seq<Path>, disk: Disk)
    requires forall p :: p in Schedule(ext.enableMainManifest, main, manifests) ==> Processable(disk, p)
    ensures var r := RunTask(Some(ext), Some(main), Some(manifests), disk);
      r.failure.None? && r.visited == Schedule(ext.enableMainManifest, main, manifests)
  {
    RunTaskSchedule(ext, main, manifests, disk);
    VisitAllSucceeds(Start(disk), Schedule(ext.enableMainManifest, main, manifests));
    RunTaskOrder(ext, main, manifests, disk);
  }

  /**
   * `action` writes only files it visited and leaves every other file as it was; in
   * particular a disabled main manifest that is not also a dependency is untouched.
   */
  lemma RunTaskFrame(ext: ExportedExtension, main: Path, manifests: seq<Path>, disk: Disk)
    ensures var r := RunTask(Some(ext), Some(main), Some(manifests), disk);
      && (forall p :: p in r.written ==> p in r.visited)
      && r.disk.Keys == disk.Keys
      && (forall p :: p in disk && p !in r.written ==> r.disk[p] == disk[p])
      && (!ext.enableMainManifest && main !in manifests && main in disk ==> r.disk[main] == disk[main])
  {
    var order := Schedule(ext.enableMainManifest, main, manifests);
    RunTaskSchedule(ext, main, manifests, disk);
    VisitAllFrame(Start(disk), order);
    VisitAllOrder(Start(disk), order);
    var r := VisitAll(Start(disk), order);
    if !ext.enableMainManifest && main !in manifests {
      assert order == manifests;
      assert main !in r.visited;
    }
  }

  /**
   * Running the task a second time over what a successful run left on disk visits
   * the same files and writes none of them.
   */
  lemma RunTaskIdempotent(ext: ExportedExtension, main: Path, manifests: seq<Path>, disk: Disk)
    requires RunTask(Some(ext), Some(main), Some(manifests), disk).failure.None?
    ensures var d := RunTask(Some(ext), Some(main), Some(manifests), disk).disk;
      RunTask(Some(ext), Some(main), Some(manifests), d) == Run(d, Schedule(ext.enableMainManifest, main, manifests), [], None)
  {
    var order := Schedule(ext.enableMainManifest, main, manifests);
    RunTaskSchedule(ext, main, manifests, disk);
    var first := VisitAll(Start(disk), order);
    VisitAllSettles(Start(disk), order);
    VisitAllOrder(Start(disk), order);
    var d := first.disk;
    RunTaskSchedule(ext, main, manifests, d);
    VisitAllSettledWritesNothing(Start(d), order);
  }

  /** The task object: fields that the plugin sets before the task runs. */
  class AddExportMainManifestTask {

    var extArg: Option<ExportedExtension>
    var mainManifest: Option<Path>
    var manifests: Option<seq<Path>>

    /** A task whose lateinit fields are all unset. */
    constructor ()
      ensures extArg == None && mainManifest == None && manifests == None
    {
      extArg := None;
      mainManifest := None;
      manifests := None;
    }

    /** `setManifests`; the sequence is the iteration order of the source's set. */
    method SetManifests(files: seq<Path>)
      modifies this
      ensures manifests == Some(files)
      ensures extArg == old(extArg) && mainManifest == old(mainManifest)
    {
      manifests := Some(files);
    }

    method SetMainManifest(file: Path)
      modifies this
      ensures mainManifest == Some(file)
      ensures extArg == old(extArg) && manifests == old(manifests)
    {
      mainManifest := Some(file);
    }

    method SetExtArg(arg: ExportedExtension)
      modifies this
      ensures extArg == Some(arg)
      ensures mainManifest == old(mainManifest) && manifests == old(manifests)
    {
      extArg := Some(arg);
    }

    /**
     * `exportedManifest`: a missing file is an error before anything is read; the
     * application node is the root's first child; the selected nodes get their
     * exported value one after another; and the file is written only when some node
     * was selected.
     */
    method ExportedManifest(disk: Disk, path: Path) returns (r: Result<FileStep, Error>)
      ensures r == ProcessFile(disk, path)
      ensures path !in disk ==> r == Failure(FileMissing(path))
      ensures path in disk && |disk[path].children| == 0 ==> r == Failure(NoApplicationNode(path))
      ensures r.Success? ==> (r.value.written <==> !Settled(disk[path]))
    {
      if path !in disk {
        return Failure(FileMissing(path));
      }
      var root := disk[path];
      if |root.children| == 0 {
        return Failure(NoApplicationNode(path));
      }
      var app := root.children[0];
      var picks := CandidatePositions(app.children);
      if picks == [] {
        assert Settled(root);
        return Success(FileStep(disk, false));
      }
      assert IsCandidate(app.children[picks[0]]);
      var kids := MarkSelected(app.children, picks);
      r := Success(FileStep(disk[path := root.(children := root.children[0 := app.(children := kids)])], true));
    }

    /**
     * The update pass of `exportedManifest`: each selected node, in order, stores
     * its exported value; the result is the children with every candidate marked.
     */
    method MarkSelected(children: seq<Element>, picks: seq<nat>) returns (kids: seq<Element>)
      requires picks == CandidatePositions(children)
      ensures kids == RewriteChildren(children)
    {
      kids := children;
      for k := 0 to |picks|
        invariant |kids| == |children|
        invariant forall i :: 0 <= i < |kids| ==>
          kids[i] == if i in picks[..k] then Mark(children[i]) else children[i]
      {
        var i := picks[k];
        assert i !in picks[..k];
        kids := kids[i := Mark(kids[i])];
      }
      assert picks[..|picks|] == picks;
    }

    /**
     * `action`: the main manifest first, and only when `enableMainManifest` is set,
     * then every dependency manifest in order; an exception ends the run.
     */
    method Action(disk: Disk) returns (run: Run)
      ensures run == RunTask(extArg, mainManifest, manifests, disk)
    {
      run := Start(disk);
      if extArg.None? {
        run := run.(failure := Some(Uninitialized("extArg")));
        return;
      }
      if extArg.value.enableMainManifest {
        if mainManifest.None? {
          run := run.(failure := Some(Uninitialized("mainManifest")));
          return;
        }
        var r := ExportedManifest(run.disk, mainManifest.value);
        run := Record(run, mainManifest.value, r);
        if run.failure.Some? {
          return;
        }
      }
      if manifests.None? {
        run := run.(failure := Some(Uninitialized("manifests")));
        return;
      }
      var files := manifests.value;
      ghost var afterMain := run;
      var i := 0;
      while i < |files|
        invariant 0 <= i <= |files|
        invariant run.failure.None?
        invariant VisitAll(run, files[i..]) == VisitAll(afterMain, files)
      {
        assert files[i..][1..] == files[i + 1..];
        var r := ExportedManifest(run.disk, files[i]);
        run := Record(run, files[i], r);
        if run.failure.Some? {
          VisitAllAfterFailure(run, files[i + 1..]);
          return;
        }
        i := i + 1;
      }
    }
  }
}
