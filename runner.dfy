/**
 * marathon/runner.ts -- the older runner: it walks the `.ts` files outside
 * anything starting with `data`, gates and spawns each of them as it is found,
 * then releases them last-found first, removing each script's file as soon as
 * its status arrives and exiting on the first failure.
 *
 * The file walk, the resolved root directory, the scripts' texts and their exit
 * statuses are inputs.
 */
module Runner {
  import opened Wrappers
  import opened Text
  import opened Tasks
  import Paths

  /** `walk(..., { exts: ["ts"] })` keeps the files ending in `.ts`. */
  predicate IsTs(path: string)
  {
    EndsWith(path, ".ts")
  }

  /** runner.ts:46-48 -- every path starting with `data` is skipped, `database.ts` included. */
  predicate Skipped(path: string): (r: bool)
    ensures StartsWith(path, "data" + [Paths.Sep]) ==> r
    ensures StartsWith(path, "database") ==> r
  {
    StartsWithHead(path, "data", [Paths.Sep]);
    StartsWithHead(path, "data", "base");
    StartsWith(path, "data")
  }

  /** The events of the release loop, in order. */
  datatype Event = Invoked(name: string) | Removed(path: string)

  /** runner.ts:38-78 -- the collected paths, in walk order. */
  function Collect(walked: seq<string>): (r: seq<string>)
    ensures |r| <= |walked|
  {
    if walked == [] then []
    else
      var p := walked[|walked| - 1];
      Collect(walked[..|walked| - 1]) + (if IsTs(p) && !Skipped(p) then [p] else [])
  }

  /** The collected paths are exactly the walked `.ts` files outside `data`. */
  lemma {:induction false} CollectExactly(walked: seq<string>)
    ensures forall p :: p in Collect(walked) <==> p in walked && IsTs(p) && !Skipped(p)
  {
    if walked != [] {
      var init := walked[..|walked| - 1];
      CollectExactly(init);
      assert walked == init + [walked[|walked| - 1]];
    }
  }

  /** runner.ts:52-69 -- preparing a file: the gate written when missing, then the spawn from its directory. */
  function PrepareOf(path: string, text: string): (r: Prepared)
    ensures r.gateWritten.Some? <==> !StartsWith(text, GateLine)
    ensures r.gateWritten.Some? ==> r.gateWritten.value == GateLine + "\n" + text
  {
    Prepared(if StartsWith(text, GateLine) then None else Some(WithGate(text)), Launch(path, Paths.Dirname(path)))
  }

  /** runner.ts:62-64 -- the `env` option passed to every spawn. */
  function EnvOf(realRoot: string): (env: map<string, string>)
    ensures env.Keys == {"ROOT_DIR"} && env["ROOT_DIR"] == realRoot
  {
    map["ROOT_DIR" := realRoot]
  }

  /**
   * runner.ts:80-97 -- the tasks the release loop takes, popping from the end
   * of `tasks`; `statuses[i]` is the exit status of `tasks[i]`. A failure ends
   * the run with its code.
   */
  function ReleaseLifo(tasks: seq<Task>, statuses: seq<Status>): (r: (seq<Task>, Ending))
    requires |statuses| == |tasks|
    ensures |r.0| <= |tasks|
    ensures r.1.Finished? ==> |r.0| == |tasks|
    decreases |tasks|
  {
    if tasks == [] then ([], Finished)
    else
      var n := |tasks| - 1;
      if !statuses[n].success then ([tasks[n]], Exit(statuses[n].code))
      else
        var rest := ReleaseLifo(tasks[..n], statuses[..n]);
        ([tasks[n]] + rest.0, rest.1)
  }

  /**
   * The tasks are released last first, each at most once: the k-th released
   * is the k-th from the end. The run exits with the code of the first failing
   * script met in that order, and finishes, having released every task, when
   * none fails.
   */
  lemma ReleaseLifoOrder(tasks: seq<Task>, statuses: seq<Status>)
    requires |statuses| == |tasks|
    ensures var r := ReleaseLifo(tasks, statuses); var released, ending := r.0, r.1;
      && |released| <= |tasks|
      && (forall k :: 0 <= k < |released| ==> released[k] == tasks[|tasks| - 1 - k])
      && (forall i :: |tasks| - |released| < i < |tasks| ==> statuses[i].success)
      && (ending.Finished? <==> forall i :: 0 <= i < |tasks| ==> statuses[i].success)
      && (ending.Finished? ==> |released| == |tasks|)
      && (ending.Exit? ==> (|released| >= 1
            && !statuses[|tasks| - |released|].success
            && ending.code == statuses[|tasks| - |released|].code))
  {
    ReleaseLifoReversed(tasks, statuses);
    ReleaseLifoEnding(tasks, statuses);
  }

  /** The released tasks are those at the end of `tasks`, last first. */
  lemma {:induction false} ReleaseLifoReversed(tasks: seq<Task>, statuses: seq<Status>)
    requires |statuses| == |tasks|
    ensures var released := ReleaseLifo(tasks, statuses).0;
      && |released| <= |tasks|
      && (forall k :: 0 <= k < |released| ==> released[k] == tasks[|tasks| - 1 - k])
    decreases |tasks|
  {
    if tasks != [] {
      var n := |tasks| - 1;
      if statuses[n].success {
        ReleaseLifoReversed(tasks[..n], statuses[..n]);
        var rest := ReleaseLifo(tasks[..n], statuses[..n]).0;
        var released := [tasks[n]] + rest;
        forall k | 1 <= k < |released| ensures released[k] == tasks[|tasks| - 1 - k] {
          assert released[k] == rest[k - 1];
          assert rest[k - 1] == tasks[..n][n - 1 - (k - 1)];
        }
      }
    }
  }

  /** How the release loop ends: on the first failure met from the end, or once every task succeeded. */
  lemma {:induction false} ReleaseLifoEnding(tasks: seq<Task>, statuses: seq<Status>)
    requires |statuses| == |tasks|
    ensures var r := ReleaseLifo(tasks, statuses); var released, ending := r.0, r.1;
      && |released| <= |tasks|
      && (forall i :: |tasks| - |released| < i < |tasks| ==> statuses[i].success)
      && (ending.Finished? <==> forall i :: 0 <= i < |tasks| ==> statuses[i].success)
      && (ending.Finished? ==> |released| == |tasks|)
      && (ending.Exit? ==> (|released| >= 1
            && !statuses[|tasks| - |released|].success
            && ending.code == statuses[|tasks| - |released|].code))
    decreases |tasks|
  {
    if tasks != [] {
      var n := |tasks| - 1;
      if statuses[n].success {
        ReleaseLifoEnding(tasks[..n], statuses[..n]);
        assert forall i :: 0 <= i < n ==> statuses[..n][i] == statuses[i];
      }
    }
  }

  /** One step of the release loop: the last task is taken, and the rest follow only when it succeeds. */
  lemma ReleaseStep(tasks: seq<Task>, statuses: seq<Status>)
    requires |statuses| == |tasks| > 0
    ensures var n := |tasks| - 1; var rest := ReleaseLifo(tasks[..n], statuses[..n]);
      ReleaseLifo(tasks, statuses) == if statuses[n].success then ([tasks[n]] + rest.0, rest.1) else ([tasks[n]], Exit(statuses[n].code))
  {
  }

  /** runner.ts:87-94 -- releasing a task: it is invoked, then its file is removed once its status arrives. */
  function Events(released: seq<Task>): (r: seq<Event>)
    ensures |r| == 2 * |released|
  {
    if released == [] then [] else [Invoked(released[0].name), Removed(released[0].path)] + Events(released[1..])
  }

  /** Each released task contributes its invocation followed by its removal, in release order. */
  lemma {:induction false} EventsPairs(released: seq<Task>)
    ensures forall k :: 0 <= k < |released| ==>
      Events(released)[2 * k] == Invoked(released[k].name) && Events(released)[2 * k + 1] == Removed(released[k].path)
  {
    if released != [] {
      var tail := released[1..];
      EventsPairs(tail);
      var r := Events(released);
      assert r == [Invoked(released[0].name), Removed(released[0].path)] + Events(tail);
      forall k | 1 <= k < |released|
        ensures r[2 * k] == Invoked(released[k].name) && r[2 * k + 1] == Removed(released[k].path)
      {
        assert r[2 * k] == Events(tail)[2 * (k - 1)];
        assert r[2 * k + 1] == Events(tail)[2 * (k - 1) + 1];
        assert tail[k - 1] == released[k];
      }
    }
  }

  /** Nothing but the released tasks' files is removed. */
  lemma {:induction false} EventsRemoveReleased(released: seq<Task>)
    ensures forall e :: e in Events(released) && e.Removed? ==> exists k :: 0 <= k < |released| && e.path == released[k].path
  {
    if released != [] {
      var tail := released[1..];
      EventsRemoveReleased(tail);
      var r := Events(released);
      assert r == [Invoked(released[0].name), Removed(released[0].path)] + Events(tail);
      forall e | e in r && e.Removed? ensures exists k :: 0 <= k < |released| && e.path == released[k].path {
        if e != Removed(released[0].path) {
          assert e in Events(tail);
          var k :| 0 <= k < |tail| && e.path == tail[k].path;
          assert e.path == released[k + 1].path;
        }
      }
    }
  }

  /** The last event removes the last released task's file. */
  lemma {:induction false} EventsLast(released: seq<Task>)
    requires released != []
    ensures Events(released)[|Events(released)| - 1] == Removed(released[|released| - 1].path)
  {
    var tail := released[1..];
    var r := Events(released);
    assert r == [Invoked(released[0].name), Removed(released[0].path)] + Events(tail);
    if tail != [] {
      EventsLast(tail);
      assert r[|r| - 1] == Events(tail)[|Events(tail)| - 1];
      assert tail[|tail| - 1] == released[|released| - 1];
    }
  }

  lemma {:induction false} EventsAppend(a: seq<Task>, b: seq<Task>)
    ensures Events(a + b) == Events(a) + Events(b)
  {
    if a != [] {
      assert (a + b)[1..] == a[1..] + b;
      EventsAppend(a[1..], b);
    } else {
      assert a + b == b;
    }
  }

  /** What the run does: the preparations in walk order, then the release loop's events and its ending. */
  datatype Trace = Trace(prepared: seq<Prepared>, events: seq<Event>, ending: Ending)

  function TasksOf(paths: seq<string>): (r: seq<Task>)
    ensures |r| == |paths| && forall i :: 0 <= i < |paths| ==> r[i] == TaskOf(paths[i])
  {
    if paths == [] then [] else TasksOf(paths[..|paths| - 1]) + [TaskOf(paths[|paths| - 1])]
  }

  function PreparationsOf(paths: seq<string>, texts: string -> string): (r: seq<Prepared>)
    ensures |r| == |paths| && forall i :: 0 <= i < |paths| ==> r[i] == PrepareOf(paths[i], texts(paths[i]))
  {
    if paths == [] then []
    else
      var p := paths[|paths| - 1];
      PreparationsOf(paths[..|paths| - 1], texts) + [PrepareOf(p, texts(p))]
  }

  /** runner.ts:30-97 -- the whole run once the root directory is resolved. */
  function RunOf(walked: seq<string>, texts: string -> string, statuses: seq<Status>): (t: Trace)
    requires |statuses| == |Collect(walked)|
    ensures |t.prepared| == |Collect(walked)|
  {
    var paths := Collect(walked);
    var r := ReleaseLifo(TasksOf(paths), statuses);
    var released, ending := r.0, r.1;
    Trace(PreparationsOf(paths, texts), Events(released), ending)
  }

  /** The release loop removes only the files of the tasks it was given. */
  lemma ReleaseRemovesOnlyTasks(tasks: seq<Task>, statuses: seq<Status>)
    requires |statuses| == |tasks|
    ensures forall e :: e in Events(ReleaseLifo(tasks, statuses).0) && e.Removed? ==>
      exists i :: 0 <= i < |tasks| && e.path == tasks[i].path
  {
    ReleaseLifoReversed(tasks, statuses);
    var released := ReleaseLifo(tasks, statuses).0;
    EventsRemoveReleased(released);
    forall e | e in Events(released) && e.Removed? ensures exists i :: 0 <= i < |tasks| && e.path == tasks[i].path {
      var k :| 0 <= k < |released| && e.path == released[k].path;
      assert e.path == tasks[|tasks| - 1 - k].path;
    }
  }

  /** When the run exits, its last event removes the file of the failing task whose code it exits with. */
  lemma ReleaseRemovesFailing(tasks: seq<Task>, statuses: seq<Status>)
    requires |statuses| == |tasks|
    ensures var r := ReleaseLifo(tasks, statuses);
      r.1.Exit? ==> exists i :: (0 <= i < |tasks| && !statuses[i].success && r.1.code == statuses[i].code
        && Events(r.0)[|Events(r.0)| - 1] == Removed(tasks[i].path))
  {
    var r := ReleaseLifo(tasks, statuses);
    if r.1.Exit? {
      ReleaseLifoEnding(tasks, statuses);
      ReleaseLifoReversed(tasks, statuses);
      EventsLast(r.0);
      var i := |tasks| - |r.0|;
      assert r.0[|r.0| - 1] == tasks[i];
      assert 0 <= i < |tasks| && !statuses[i].success && r.1.code == statuses[i].code
        && Events(r.0)[|Events(r.0)| - 1] == Removed(tasks[i].path);
    }
  }

  /** Only files the run spawned are removed: every removal is of a collected `.ts` file outside `data`. */
  lemma RemovesOnlyCollected(walked: seq<string>, texts: string -> string, statuses: seq<Status>)
    requires |statuses| == |Collect(walked)|
    ensures forall e :: e in RunOf(walked, texts, statuses).events && e.Removed? ==>
      e.path in walked && IsTs(e.path) && !Skipped(e.path)
  {
    var paths := Collect(walked);
    var tasks := TasksOf(paths);
    CollectExactly(walked);
    ReleaseRemovesOnlyTasks(tasks, statuses);
    forall e | e in RunOf(walked, texts, statuses).events && e.Removed? ensures e.path in paths {
      var i :| 0 <= i < |tasks| && e.path == tasks[i].path;
      assert tasks[i] == TaskOf(paths[i]);
    }
  }

  /** A failing script's own file is removed before the run exits with its code: it is the last event. */
  lemma FailingFileRemoved(walked: seq<string>, texts: string -> string, statuses: seq<Status>)
    requires |statuses| == |Collect(walked)|
    ensures var t := RunOf(walked, texts, statuses);
      t.ending.Exit? ==> exists i :: (0 <= i < |Collect(walked)| && !statuses[i].success && t.ending.code == statuses[i].code
        && t.events[|t.events| - 1] == Removed(Collect(walked)[i]))
  {
    var paths := Collect(walked);
    var tasks := TasksOf(paths);
    ReleaseRemovesFailing(tasks, statuses);
    var t := RunOf(walked, texts, statuses);
    if t.ending.Exit? {
      var i :| 0 <= i < |tasks| && !statuses[i].success && t.ending.code == statuses[i].code
        && t.events[|t.events| - 1] == Removed(tasks[i].path);
      assert tasks[i] == TaskOf(paths[i]);
    }
  }

  lemma SnocOf(paths: seq<string>, p: string, texts: string -> string)
    ensures TasksOf(paths + [p]) == TasksOf(paths) + [TaskOf(p)]
    ensures PreparationsOf(paths + [p], texts) == PreparationsOf(paths, texts) + [PrepareOf(p, texts(p))]
  {
    assert (paths + [p])[..|paths|] == paths;
  }

  lemma CollectSnoc(walked: seq<string>, p: string)
    ensures Collect(walked + [p]) == Collect(walked) + (if IsTs(p) && !Skipped(p) then [p] else [])
  {
    assert (walked + [p])[..|walked|] == walked;
  }

  /** runner.ts:52-69 -- preparing one file: the gate is prepended unless the text already starts with it. */
  method PrepareFile(path: string, text: string) returns (p: Prepared)
    ensures p == PrepareOf(path, text)
    ensures p.gateWritten.Some? <==> !StartsWith(text, GateLine)
  {
    var gate: Option<string> := None;
    if !StartsWith(text, GateLine) {
      gate := Some(GateLine + "\n" + text);
    }
    p := Prepared(gate, Launch(path, Paths.Dirname(path)));
  }

  /**
   * runner.ts:38-78 -- the walk loop: each `.ts` file outside `data` is prepared
   * and queued in walk order. `building` counts the scripts being prepared; it
   * is back to 0 once the walk is over.
   */
  method CollectTasks(walked: seq<string>, texts: string -> string)
    returns (queue: seq<Task>, prepared: seq<Prepared>, building: int)
    ensures queue == TasksOf(Collect(walked))
    ensures prepared == PreparationsOf(Collect(walked), texts)
    ensures building == 0
  {
    queue := [];
    prepared := [];
    building := 0;
    ghost var paths: seq<string> := [];
    var i := 0;
    while i < |walked|
      invariant 0 <= i <= |walked|
      invariant building == 0
      invariant paths == Collect(walked[..i])
      invariant queue == TasksOf(paths)
      invariant prepared == PreparationsOf(paths, texts)
    {
      var path := walked[i];
      CollectSnoc(walked[..i], path);
      assert walked[..i + 1] == walked[..i] + [path];
      if IsTs(path) && !Skipped(path) {
        SnocOf(paths, path, texts);
        building := building + 1;
        var p := PrepareFile(path, texts(path));
        prepared := prepared + [p];
        queue := queue + [Task(path, Paths.Basename(path))];
        paths := paths + [path];
        building := building - 1;
      }
      i := i + 1;
    }
    assert walked[..i] == walked;
  }

  /**
   * runner.ts:80-97 -- the release loop: it keeps going while a script is being
   * prepared or a task waits, pops the last task, invokes it, removes its file
   * once its status arrives and exits on a failure. It starts after the walk
   * loop, which leaves `building` at 0, so only the waiting tasks keep it going.
   */
  method ReleaseLoop(tasks: seq<Task>, statuses: seq<Status>)
    returns (events: seq<Event>, ending: Ending)
    requires |statuses| == |tasks|
    ensures events == Events(ReleaseLifo(tasks, statuses).0)
    ensures ending == ReleaseLifo(tasks, statuses).1
  {
    var queue := tasks;
    ghost var waiting := statuses;
    ghost var released: seq<Task> := [];
    events := [];
    ending := Finished;
    var failed := false;
    assert released + ReleaseLifo(tasks, statuses).0 == ReleaseLifo(tasks, statuses).0;
    while |queue| != 0 && !failed
      invariant |queue| == |waiting| <= |tasks|
      invariant queue == tasks[..|queue|] && waiting == statuses[..|queue|]
      invariant events == Events(released)
      invariant !failed ==> ReleaseLifo(tasks, statuses).0 == released + ReleaseLifo(queue, waiting).0
      invariant !failed ==> ReleaseLifo(tasks, statuses).1 == ReleaseLifo(queue, waiting).1 && ending == Finished
      invariant failed ==> ReleaseLifo(tasks, statuses) == (released, ending)
      decreases |queue|
    {
      var n := |queue| - 1;
      var cmd := queue[n];
      var status := statuses[n];
      assert waiting[n] == status;
      PopStep(released, queue, waiting);
      queue := queue[..n];
      waiting := waiting[..n];
      events := events + [Invoked(cmd.name)];
      events := events + [Removed(cmd.path)];
      released := released + [cmd];
      if !status.success {
        ending := Exit(status.code);
        failed := true;
      }
    }
    if !failed {
      assert released + [] == released;
    }
  }

  /** One pass of the release loop, on the tasks released so far and those still queued. */
  lemma PopStep(released: seq<Task>, queue: seq<Task>, waiting: seq<Status>)
    requires |queue| == |waiting| > 0
    ensures var n := |queue| - 1; var whole := ReleaseLifo(queue, waiting); var rest := ReleaseLifo(queue[..n], waiting[..n]);
      && (waiting[n].success ==> released + whole.0 == (released + [queue[n]]) + rest.0 && whole.1 == rest.1)
      && (!waiting[n].success ==> released + whole.0 == released + [queue[n]] && whole.1 == Exit(waiting[n].code))
      && Events(released + [queue[n]]) == Events(released) + [Invoked(queue[n].name)] + [Removed(queue[n].path)]
  {
    var n := |queue| - 1;
    var cmd := queue[n];
    ReleaseStep(queue, waiting);
    EventsAppend(released, [cmd]);
    assert Events([cmd]) == [Invoked(cmd.name), Removed(cmd.path)];
    var rest := ReleaseLifo(queue[..n], waiting[..n]);
    assert released + ([cmd] + rest.0) == (released + [cmd]) + rest.0;
  }

  /** runner.ts:30-97 -- the whole run once the root directory is resolved. */
  method Run(walked: seq<string>, realRoot: string, texts: string -> string, statuses: seq<Status>)
    returns (env: map<string, string>, trace: Trace)
    requires |statuses| == |Collect(walked)|
    ensures env == EnvOf(realRoot)
    ensures trace == RunOf(walked, texts, statuses)
  {
    env := map["ROOT_DIR" := realRoot];
    var queue, prepared, building := CollectTasks(walked, texts);
    assert building == 0;
    var events, ending := ReleaseLoop(queue, statuses);
    trace := Trace(prepared, events, ending);
  }
}
