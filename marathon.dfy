/**
 * marathon/marathon.ts -- runs every script of a Regolith project one after the
 * other. It collects the `.ts`/`.js` files outside `data/` (except
 * `data/marathon`), builds the environment from the BP and RP folders, gates
 * and spawns every script that is not a library, releases the scripts in
 * collection order, and removes every collected file once all have succeeded.
 *
 * The file walk, the two folder listings, the resolved root directory, the
 * scripts' texts and their exit statuses are inputs.
 */
module Marathon {
  import opened Wrappers
  import opened Text
  import opened Tasks
  import Paths

  const Sep := Paths.Sep

  /** A collected file and whether it is a library (never run). */
  datatype ScriptFile = ScriptFile(path: string, lib: bool)

  /** An entry of `Deno.readDir`. */
  datatype DirEntry = DirEntry(name: string, isDirectory: bool)

  /** `walk(..., { exts: ['ts', 'js'] })`: the walk keeps the files ending in one of the extensions. */
  predicate IsScript(path: string)
  {
    EndsWith(path, ".ts") || EndsWith(path, ".js")
  }

  /** marathon.ts:39-45 -- library and declaration files. */
  predicate IsLib(path: string): (r: bool)
    ensures r ==> EndsWith(path, ".ts") || EndsWith(path, ".js")
  {
    EndsWithTail(path, ".lib", ".ts");
    EndsWithTail(path, ".lib", ".js");
    EndsWithTail(path, ".d", ".ts");
    EndsWithTail(path, ".d", ".js");
    EndsWith(path, ".lib.ts") || EndsWith(path, ".lib.js") || EndsWith(path, ".d.ts") || EndsWith(path, ".d.js")
  }

  /** marathon.ts:47-48 -- files under `data/` belong to other filters, except marathon's own. */
  predicate Skipped(path: string): (r: bool)
    ensures StartsWith(path, "data" + [Sep] + "marathon") ==> !r
    ensures r ==> StartsWith(path, "data")
  {
    StartsWithHead(path, "data", [Sep]);
    !StartsWith(path, "data" + [Sep] + "marathon") && StartsWith(path, "data" + [Sep])
  }

  /** marathon.ts:32-51 -- the collected files, in walk order. */
  function Collect(walked: seq<string>): (r: seq<ScriptFile>)
    ensures |r| <= |walked|
  {
    if walked == [] then []
    else
      var p := walked[|walked| - 1];
      Collect(walked[..|walked| - 1]) + (if IsScript(p) && !Skipped(p) then [ScriptFile(p, IsLib(p))] else [])
  }

  /** A walked path is collected exactly when it is a script outside the skipped part of `data/`, flagged as a library exactly when it is one. */
  lemma {:induction false} CollectExactly(walked: seq<string>)
    ensures forall f :: f in Collect(walked) <==> f.path in walked && IsScript(f.path) && !Skipped(f.path) && f.lib == IsLib(f.path)
  {
    if walked != [] {
      var init := walked[..|walked| - 1];
      CollectExactly(init);
      assert walked == init + [walked[|walked| - 1]];
    }
  }

  /** One more walked path adds its file, if any, at the end. */
  lemma CollectSnoc(walked: seq<string>, p: string)
    ensures Collect(walked + [p]) == Collect(walked) + (if IsScript(p) && !Skipped(p) then [ScriptFile(p, IsLib(p))] else [])
  {
    assert (walked + [p])[..|walked|] == walked;
  }

  /** Collection keeps the walk's order: the files of a longer walk are those of its first part followed by those of the rest. */
  lemma {:induction false} CollectAppend(a: seq<string>, b: seq<string>)
    ensures Collect(a + b) == Collect(a) + Collect(b)
  {
    if b == [] {
      assert a + b == a;
    } else {
      var init, p := b[..|b| - 1], b[|b| - 1];
      assert b == init + [p];
      assert a + b == (a + init) + [p];
      CollectAppend(a, init);
      CollectSnoc(a + init, p);
      CollectSnoc(init, p);
    }
  }

  /** marathon.ts:31-51 -- the walk loop pushing onto `tsFiles`. */
  method CollectFiles(walked: seq<string>) returns (tsFiles: seq<ScriptFile>)
    ensures tsFiles == Collect(walked)
  {
    tsFiles := [];
    var i := 0;
    while i < |walked|
      invariant 0 <= i <= |walked|
      invariant tsFiles == Collect(walked[..i])
    {
      var path := walked[i];
      assert walked[..i + 1][..i] == walked[..i];
      var lib := IsLib(path);
      if !Skipped(path) && IsScript(path) {
        tsFiles := tsFiles + [ScriptFile(path, lib)];
      }
      i := i + 1;
    }
    assert walked[..i] == walked;
  }

  // ---------------------------------------------------------------------------
  // The environment (marathon.ts:53-72)
  // ---------------------------------------------------------------------------

  const BpPrefix := "MARATHON_BP_"
  const RpPrefix := "MARATHON_RP_"

  /** marathon.ts:56-60 -- the three fixed variables. */
  function BaseEnv(root: string): map<string, string>
  {
    map["MARATHON_BP_DIR" := Paths.Join(root, "BP"), "MARATHON_RP_DIR" := Paths.Join(root, "RP"), "MARATHON_ROOT_DIR" := root]
  }

  /** marathon.ts:62-72 -- one variable per folder, named after the upper-cased folder name; files are ignored and later folders overwrite. */
  function AddFolders(env: map<string, string>, prefix: string, dir: string, entries: seq<DirEntry>): (r: map<string, string>)
    ensures env.Keys <= r.Keys
  {
    if entries == [] then env
    else
      var e := entries[|entries| - 1];
      var m := AddFolders(env, prefix, dir, entries[..|entries| - 1]);
      if e.isDirectory then m[prefix + ToUpper(e.name) := Paths.Join(dir, e.name)] else m
  }

  /** The variable a folder entry sets. */
  function FolderKey(prefix: string, e: DirEntry): string
  {
    prefix + ToUpper(e.name)
  }

  /** marathon.ts:53-72 -- `baseEnvyVars` after both loops, the `env` option passed to every spawn (marathon.ts:86). */
  function EnvOf(root: string, bp: seq<DirEntry>, rp: seq<DirEntry>): (env: map<string, string>)
    ensures "MARATHON_ROOT_DIR" in env && env["MARATHON_ROOT_DIR"] == root
  {
    var bpRoot := Paths.Join(root, "BP");
    var rpRoot := Paths.Join(root, "RP");
    var key := "MARATHON_ROOT_DIR";
    assert forall e :: !Sets(BpPrefix, e, key) && !Sets(RpPrefix, e, key) by {
      forall e ensures !Sets(BpPrefix, e, key) && !Sets(RpPrefix, e, key) {
        NotFolderKey(BpPrefix, e, key);
        NotFolderKey(RpPrefix, e, key);
      }
    }
    AddFoldersUntouched(BaseEnv(root), BpPrefix, bpRoot, bp, key);
    AddFoldersUntouched(AddFolders(BaseEnv(root), BpPrefix, bpRoot, bp), RpPrefix, rpRoot, rp, key);
    AddFolders(AddFolders(BaseEnv(root), BpPrefix, bpRoot, bp), RpPrefix, rpRoot, rp)
  }

  /** No folder sets `MARATHON_ROOT_DIR`: where it has `RO`, after `MARATHON_`, a folder variable has `BP` or `RP`. */
  lemma NotFolderKey(prefix: string, e: DirEntry, key: string)
    requires prefix == BpPrefix || prefix == RpPrefix
    requires key == "MARATHON_ROOT_DIR"
    ensures !Sets(prefix, e, key)
  {
    assert FolderKey(prefix, e)[10] == prefix[10] == 'P' && key[10] == 'O';
  }

  /** A folder entry sets its variable (files set nothing). */
  predicate Sets(prefix: string, e: DirEntry, key: string)
  {
    e.isDirectory && FolderKey(prefix, e) == key
  }

  /** A key is defined after a folder loop exactly when it was defined before or a folder names it. */
  lemma {:induction false} AddFoldersKeys(env: map<string, string>, prefix: string, dir: string, entries: seq<DirEntry>, key: string)
    ensures key in AddFolders(env, prefix, dir, entries) <==>
      key in env || exists i :: 0 <= i < |entries| && Sets(prefix, entries[i], key)
  {
    if entries != [] {
      var init := entries[..|entries| - 1];
      AddFoldersKeys(env, prefix, dir, init, key);
      if exists i :: 0 <= i < |init| && Sets(prefix, init[i], key) {
        var i :| 0 <= i < |init| && Sets(prefix, init[i], key);
        assert Sets(prefix, entries[i], key);
      }
      if exists i :: 0 <= i < |entries| && Sets(prefix, entries[i], key) {
        var i :| 0 <= i < |entries| && Sets(prefix, entries[i], key);
        if i < |init| { assert Sets(prefix, init[i], key); }
      }
    }
  }

  /** A key no folder names keeps its old value. */
  lemma {:induction false} AddFoldersUntouched(env: map<string, string>, prefix: string, dir: string, entries: seq<DirEntry>, key: string)
    requires key in env
    requires forall i :: 0 <= i < |entries| ==> !Sets(prefix, entries[i], key)
    ensures key in AddFolders(env, prefix, dir, entries) && AddFolders(env, prefix, dir, entries)[key] == env[key]
  {
    if entries != [] {
      var init := entries[..|entries| - 1];
      assert forall i :: 0 <= i < |init| ==> init[i] == entries[i];
      AddFoldersUntouched(env, prefix, dir, init, key);
      assert !Sets(prefix, entries[|entries| - 1], key);
    }
  }

  /** The last folder naming a key decides its value: a later folder whose upper-cased name collides overwrites an earlier one. */
  lemma {:induction false} AddFoldersLastWins(env: map<string, string>, prefix: string, dir: string, entries: seq<DirEntry>, i: nat)
    requires i < |entries| && entries[i].isDirectory
    requires forall j :: i < j < |entries| ==> !Sets(prefix, entries[j], FolderKey(prefix, entries[i]))
    ensures FolderKey(prefix, entries[i]) in AddFolders(env, prefix, dir, entries)
    ensures AddFolders(env, prefix, dir, entries)[FolderKey(prefix, entries[i])] == Paths.Join(dir, entries[i].name)
  {
    var init := entries[..|entries| - 1];
    var key := FolderKey(prefix, entries[i]);
    if i < |entries| - 1 {
      assert forall j :: 0 <= j < |init| ==> init[j] == entries[j];
      AddFoldersLastWins(env, prefix, dir, init, i);
      assert !Sets(prefix, entries[|entries| - 1], key);
    }
  }

  /** Entries that are not folders set nothing. */
  lemma {:induction false} FilesIgnored(env: map<string, string>, prefix: string, dir: string, entries: seq<DirEntry>)
    requires forall i :: 0 <= i < |entries| ==> !entries[i].isDirectory
    ensures AddFolders(env, prefix, dir, entries) == env
  {
    if entries != [] {
      FilesIgnored(env, prefix, dir, entries[..|entries| - 1]);
    }
  }

  /** A BP folder named `dir` replaces `MARATHON_BP_DIR` with its own path. */
  lemma FolderNamedDirOverwrites(root: string)
    ensures "MARATHON_BP_DIR" in EnvOf(root, [DirEntry("dir", true)], [])
    ensures EnvOf(root, [DirEntry("dir", true)], [])["MARATHON_BP_DIR"] == Paths.Join(Paths.Join(root, "BP"), "dir")
  {
    var bp := [DirEntry("dir", true)];
    assert bp[..0] == [];
    assert ToUpper("dir") == "DIR";
    assert FolderKey(BpPrefix, bp[0]) == "MARATHON_BP_DIR";
    AddFoldersLastWins(BaseEnv(root), BpPrefix, Paths.Join(root, "BP"), bp, 0);
    assert EnvOf(root, bp, []) == AddFolders(BaseEnv(root), BpPrefix, Paths.Join(root, "BP"), bp);
  }

  /** marathon.ts:53-72 -- the two `readDir` loops filling `baseEnvyVars`. */
  method BuildEnv(root: string, bp: seq<DirEntry>, rp: seq<DirEntry>) returns (env: map<string, string>)
    ensures env == EnvOf(root, bp, rp)
  {
    var bpRoot := Paths.Join(root, "BP");
    var rpRoot := Paths.Join(root, "RP");
    env := BaseEnv(root);
    var i := 0;
    while i < |bp|
      invariant 0 <= i <= |bp|
      invariant env == AddFolders(BaseEnv(root), BpPrefix, bpRoot, bp[..i])
    {
      assert bp[..i + 1][..i] == bp[..i];
      if bp[i].isDirectory {
        env := env[BpPrefix + ToUpper(bp[i].name) := Paths.Join(bpRoot, bp[i].name)];
      }
      i := i + 1;
    }
    assert bp[..i] == bp;
    ghost var afterBp := env;
    i := 0;
    while i < |rp|
      invariant 0 <= i <= |rp|
      invariant env == AddFolders(afterBp, RpPrefix, rpRoot, rp[..i])
    {
      assert rp[..i + 1][..i] == rp[..i];
      if rp[i].isDirectory {
        env := env[RpPrefix + ToUpper(rp[i].name) := Paths.Join(rpRoot, rp[i].name)];
      }
      i := i + 1;
    }
    assert rp[..i] == rp;
  }

  // ---------------------------------------------------------------------------
  // Tasks (marathon.ts:74-113)
  // ---------------------------------------------------------------------------

  /** The files that are run: the non-library ones, in collection order. */
  function Runnable(files: seq<ScriptFile>): (r: seq<ScriptFile>)
    ensures |r| <= |files|
    ensures forall f :: f in r <==> f in files && !f.lib
  {
    if files == [] then []
    else
      var f := files[|files| - 1];
      Runnable(files[..|files| - 1]) + (if f.lib then [] else [f])
  }

  /** marathon.ts:77-97 -- preparing a file: the gate is written when its text lacks it, then the script is spawned from its directory. */
  function PrepareOf(f: ScriptFile, text: string): (r: Prepared)
    ensures r.gateWritten.Some? <==> !StartsWith(text, GateLine)
    ensures r.gateWritten.Some? ==> r.gateWritten.value == GateLine + "\n" + text
  {
    Prepared(if StartsWith(text, GateLine) then None else Some(WithGate(text)), Launch(f.path, Paths.Dirname(f.path)))
  }

  /** What the run does, in order: the preparations, the scripts released, the ending, the files removed. */
  datatype Trace = Trace(prepared: seq<Prepared>, released: seq<Task>, ending: Ending, removed: seq<string>)

  /**
   * marathon.ts:100-109 -- releasing the tasks in order; `statuses[i]` is the
   * exit status of `tasks[i]`. The first failure ends the run with its code.
   */
  function ReleaseFifo(tasks: seq<Task>, statuses: seq<Status>): (r: (seq<Task>, Ending))
    requires |statuses| == |tasks|
    ensures |r.0| <= |tasks|
    ensures r.1.Finished? ==> r.0 == tasks
    decreases |tasks|
  {
    if tasks == [] then ([], Finished)
    else if !statuses[0].success then ([tasks[0]], Exit(statuses[0].code))
    else
      var rest := ReleaseFifo(tasks[1..], statuses[1..]);
      ([tasks[0]] + rest.0, rest.1)
  }

  /**
   * The tasks are released in order up to and including the first failing one,
   * whose code ends the run; when none fails, all are released and the run
   * finishes.
   */
  lemma {:induction false} ReleaseFifoStopsAtFirstFailure(tasks: seq<Task>, statuses: seq<Status>)
    requires |statuses| == |tasks|
    ensures var r := ReleaseFifo(tasks, statuses); var released, ending := r.0, r.1;
      && (ending.Finished? <==> forall i :: 0 <= i < |tasks| ==> statuses[i].success)
      && (ending.Finished? ==> released == tasks)
      && (ending.Exit? ==>
            && 1 <= |released| <= |tasks|
            && released == tasks[..|released|]
            && !statuses[|released| - 1].success
            && ending.code == statuses[|released| - 1].code
            && forall i :: 0 <= i < |released| - 1 ==> statuses[i].success)
    decreases |tasks|
  {
    if tasks != [] && statuses[0].success {
      ReleaseFifoStopsAtFirstFailure(tasks[1..], statuses[1..]);
      var rest := ReleaseFifo(tasks[1..], statuses[1..]);
      assert forall i :: 1 <= i < |tasks| ==> statuses[i] == statuses[1..][i - 1];
      if rest.1.Exit? {
        assert tasks[..|rest.0| + 1] == [tasks[0]] + tasks[1..][..|rest.0|];
      }
    }
  }

  /** The released tasks are a prefix of the queue. */
  lemma {:induction false} ReleaseFifoPrefix(tasks: seq<Task>, statuses: seq<Status>)
    requires |statuses| == |tasks|
    ensures var released := ReleaseFifo(tasks, statuses).0;
      |released| <= |tasks| && forall i :: 0 <= i < |released| ==> released[i] == tasks[i]
    decreases |tasks|
  {
    if tasks != [] && statuses[0].success {
      ReleaseFifoPrefix(tasks[1..], statuses[1..]);
      var rest := ReleaseFifo(tasks[1..], statuses[1..]).0;
      forall i | 1 <= i < |rest| + 1 ensures ([tasks[0]] + rest)[i] == tasks[i] {
        assert rest[i - 1] == tasks[1..][i - 1];
      }
    }
  }

  /** The tasks of the runnable files, in order. */
  function TasksOf(runnable: seq<ScriptFile>): (r: seq<Task>)
    ensures |r| == |runnable| && forall i :: 0 <= i < |runnable| ==> r[i] == TaskOf(runnable[i].path)
  {
    if runnable == [] then [] else TasksOf(runnable[..|runnable| - 1]) + [TaskOf(runnable[|runnable| - 1].path)]
  }

  /** The preparation of each runnable file, in order. */
  function PreparationsOf(runnable: seq<ScriptFile>, texts: string -> string): (r: seq<Prepared>)
    ensures |r| == |runnable| && forall i :: 0 <= i < |runnable| ==> r[i] == PrepareOf(runnable[i], texts(runnable[i].path))
  {
    if runnable == [] then []
    else
      var f := runnable[|runnable| - 1];
      PreparationsOf(runnable[..|runnable| - 1], texts) + [PrepareOf(f, texts(f.path))]
  }

  /** The paths of the collected files, in order. */
  function PathsOf(files: seq<ScriptFile>): (r: seq<string>)
    ensures |r| == |files| && forall i :: 0 <= i < |files| ==> r[i] == files[i].path
  {
    if files == [] then [] else PathsOf(files[..|files| - 1]) + [files[|files| - 1].path]
  }

  /** marathon.ts:26-113 -- the whole run once the root directory is resolved. */
  function RunOf(walked: seq<string>, texts: string -> string, statuses: seq<Status>): (t: Trace)
    requires |statuses| == |Runnable(Collect(walked))|
    ensures |t.prepared| == |Runnable(Collect(walked))|
    ensures t.ending.Exit? ==> t.removed == []
    ensures t.ending.Finished? ==> t.removed == PathsOf(Collect(walked))
  {
    var files := Collect(walked);
    var runnable := Runnable(files);
    var r := ReleaseFifo(TasksOf(runnable), statuses);
    var released, ending := r.0, r.1;
    Trace(PreparationsOf(runnable, texts), released, ending, if ending.Finished? then PathsOf(files) else [])
  }

  /** A runnable file is a non-library script of the walk. */
  lemma RunnableFromWalk(walked: seq<string>, f: ScriptFile)
    requires f in Runnable(Collect(walked))
    ensures !IsLib(f.path) && f.path in walked
  {
    CollectExactly(walked);
    assert f in Collect(walked) && !f.lib;
  }

  /** Library files are never prepared: every script spawned is a non-library file of the walk. */
  lemma LibsNeverPrepared(walked: seq<string>, texts: string -> string, statuses: seq<Status>)
    requires |statuses| == |Runnable(Collect(walked))|
    ensures forall p :: p in RunOf(walked, texts, statuses).prepared ==> !IsLib(p.launch.path) && p.launch.path in walked
  {
    var runnable := Runnable(Collect(walked));
    var prepared := PreparationsOf(runnable, texts);
    assert RunOf(walked, texts, statuses).prepared == prepared;
    forall p | p in prepared ensures !IsLib(p.launch.path) && p.launch.path in walked {
      var i :| 0 <= i < |prepared| && prepared[i] == p;
      assert p == PrepareOf(runnable[i], texts(runnable[i].path));
      assert p.launch.path == runnable[i].path;
      RunnableFromWalk(walked, runnable[i]);
    }
  }

  /** Library files are never released: every script invoked is a non-library file of the walk. */
  lemma LibsNeverReleased(walked: seq<string>, texts: string -> string, statuses: seq<Status>)
    requires |statuses| == |Runnable(Collect(walked))|
    ensures forall k :: k in RunOf(walked, texts, statuses).released ==> !IsLib(k.path) && k.path in walked
  {
    var runnable := Runnable(Collect(walked));
    var tasks := TasksOf(runnable);
    var released := ReleaseFifo(tasks, statuses).0;
    ReleaseFifoPrefix(tasks, statuses);
    assert RunOf(walked, texts, statuses).released == released;
    forall k | k in released ensures !IsLib(k.path) && k.path in walked {
      var i :| 0 <= i < |released| && released[i] == k;
      assert k == tasks[i];
      assert k.path == runnable[i].path;
      RunnableFromWalk(walked, runnable[i]);
    }
  }

  /** After success every collected file, library or not, is removed in collection order; after a failure none is. */
  lemma RemovalRule(walked: seq<string>, texts: string -> string, statuses: seq<Status>)
    requires |statuses| == |Runnable(Collect(walked))|
    ensures var t := RunOf(walked, texts, statuses);
      && (t.ending.Finished? ==> (|t.removed| == |Collect(walked)|
            && forall i :: 0 <= i < |Collect(walked)| ==> t.removed[i] == Collect(walked)[i].path))
      && (t.ending.Finished? ==> forall p :: p in walked && IsScript(p) && !Skipped(p) ==> p in t.removed)
      && (t.ending.Exit? ==> t.removed == [])
  {
    var files := Collect(walked);
    var r := ReleaseFifo(TasksOf(Runnable(files)), statuses);
    var t := RunOf(walked, texts, statuses);
    assert t.ending == r.1 && t.removed == if r.1.Finished? then PathsOf(files) else [];
    if r.1.Finished? {
      PathsCoverWalk(walked);
    }
  }

  /** Every script of the walk outside the skipped part of `data/` is among the collected paths. */
  lemma PathsCoverWalk(walked: seq<string>)
    ensures forall p :: p in walked && IsScript(p) && !Skipped(p) ==> p in PathsOf(Collect(walked))
  {
    var files := Collect(walked);
    var paths := PathsOf(files);
    CollectExactly(walked);
    forall p | p in walked && IsScript(p) && !Skipped(p) ensures p in paths {
      var f := ScriptFile(p, IsLib(p));
      assert f in files;
      var i :| 0 <= i < |files| && files[i] == f;
      assert paths[i] == p;
    }
  }

  /** marathon.ts:74-98 -- the preparation loop: library files are skipped, the others gated and spawned, and their tasks queued. */
  method PrepareTasks(tsFiles: seq<ScriptFile>, texts: string -> string) returns (prepared: seq<Prepared>, queue: seq<Task>)
    ensures prepared == PreparationsOf(Runnable(tsFiles), texts)
    ensures queue == TasksOf(Runnable(tsFiles))
  {
    prepared := [];
    queue := [];
    ghost var runnable: seq<ScriptFile> := [];
    var i := 0;
    while i < |tsFiles|
      invariant 0 <= i <= |tsFiles|
      invariant runnable == Runnable(tsFiles[..i])
      invariant queue == TasksOf(runnable)
      invariant prepared == PreparationsOf(runnable, texts)
    {
      RunnablePrefix(tsFiles, i);
      var file := tsFiles[i];
      if !file.lib {
        SnocOf(runnable, file, texts);
        var text := texts(file.path);
        var gate: Option<string> := None;
        if !StartsWith(text, GateLine) {
          gate := Some(GateLine + "\n" + text);
        }
        assert Prepared(gate, Launch(file.path, Paths.Dirname(file.path))) == PrepareOf(file, text);
        prepared := prepared + [Prepared(gate, Launch(file.path, Paths.Dirname(file.path)))];
        queue := queue + [Task(file.path, Paths.Basename(file.path))];
        runnable := runnable + [file];
      }
      i := i + 1;
    }
    assert tsFiles[..i] == tsFiles;
  }

  /** marathon.ts:100-109 -- the release loop: each task in queue order is released and awaited; a failure exits at once. */
  method ReleaseTasks(queue: seq<Task>, statuses: seq<Status>) returns (released: seq<Task>, ending: Ending)
    requires |statuses| == |queue|
    ensures (released, ending) == ReleaseFifo(queue, statuses)
  {
    released := [];
    var j := 0;
    assert queue[0..] == queue && statuses[0..] == statuses;
    assert released + ReleaseFifo(queue, statuses).0 == ReleaseFifo(queue, statuses).0;
    while j < |queue|
      invariant 0 <= j <= |queue|
      invariant released == queue[..j]
      invariant ReleaseFifo(queue, statuses)
        == (released + ReleaseFifo(queue[j..], statuses[j..]).0, ReleaseFifo(queue[j..], statuses[j..]).1)
    {
      assert queue[j..][1..] == queue[j + 1..] && statuses[j..][1..] == statuses[j + 1..];
      ghost var rest := ReleaseFifo(queue[j + 1..], statuses[j + 1..]);
      assert queue[..j + 1] == released + [queue[j]];
      if !statuses[j].success {
        assert ReleaseFifo(queue[j..], statuses[j..]) == ([queue[j]], Exit(statuses[j].code));
        return released + [queue[j]], Exit(statuses[j].code);
      }
      assert ReleaseFifo(queue[j..], statuses[j..]) == ([queue[j]] + rest.0, rest.1);
      assert released + ([queue[j]] + rest.0) == (released + [queue[j]]) + rest.0;
      released := released + [queue[j]];
      j := j + 1;
    }
    assert queue[j..] == [] && statuses[j..] == [];
    assert released + [] == released;
    ending := Finished;
  }

  /** marathon.ts:111-113 -- the removal loop over every collected file. */
  method RemoveAll(tsFiles: seq<ScriptFile>) returns (removed: seq<string>)
    ensures removed == PathsOf(tsFiles)
  {
    removed := [];
    var k := 0;
    while k < |tsFiles|
      invariant 0 <= k <= |tsFiles|
      invariant removed == PathsOf(tsFiles[..k])
    {
      assert tsFiles[..k + 1][..k] == tsFiles[..k];
      removed := removed + [tsFiles[k].path];
      k := k + 1;
    }
    assert tsFiles[..k] == tsFiles;
  }

  /** marathon.ts:26-113 -- collection, environment, preparation, release and removal. */
  method Run(walked: seq<string>, root: string, bp: seq<DirEntry>, rp: seq<DirEntry>,
             texts: string -> string, statuses: seq<Status>) returns (env: map<string, string>, trace: Trace)
    requires |statuses| == |Runnable(Collect(walked))|
    ensures env == EnvOf(root, bp, rp)
    ensures trace == RunOf(walked, texts, statuses)
  {
    var tsFiles := CollectFiles(walked);
    env := BuildEnv(root, bp, rp);
    var prepared, queue := PrepareTasks(tsFiles, texts);
    var released, ending := ReleaseTasks(queue, statuses);
    var removed: seq<string> := [];
    if ending.Finished? {
      removed := RemoveAll(tsFiles);
    }
    trace := Trace(prepared, released, ending, removed);
  }

  lemma SnocOf(rs: seq<ScriptFile>, f: ScriptFile, texts: string -> string)
    ensures TasksOf(rs + [f]) == TasksOf(rs) + [TaskOf(f.path)]
    ensures PreparationsOf(rs + [f], texts) == PreparationsOf(rs, texts) + [PrepareOf(f, texts(f.path))]
  {
    assert (rs + [f])[..|rs|] == rs;
  }

  lemma RunnablePrefix(files: seq<ScriptFile>, i: nat)
    requires i < |files|
    ensures Runnable(files[..i + 1]) == Runnable(files[..i]) + (if files[i].lib then [] else [files[i]])
  {
    assert files[..i + 1][..i] == files[..i];
  }
}
