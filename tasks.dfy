/**
 * What marathon/marathon.ts and marathon/runner.ts share: the settings read by
 * `load_config`, the stdin gate put in front of every script, the exit status
 * of a script, and the record of what a run does.
 */
module Tasks {
  import opened Wrappers
  import opened Text
  import opened JsValues
  import Paths

  /** The line each script must start with: it blocks until the runner writes a newline to the script's stdin. */
  const GateLine := "await Deno.stdin.read(new Uint8Array(1));"

  /** marathon.ts:79-82, runner.ts:54-58 -- the script's text with the gate put in front when it does not already start with it. */
  function WithGate(data: string): (r: string)
    ensures StartsWith(r, GateLine)
    ensures StartsWith(data, GateLine) ==> r == data
    ensures !StartsWith(data, GateLine) ==> r == GateLine + "\n" + data
  {
    if StartsWith(data, GateLine) then data
    else
      assert (GateLine + "\n" + data)[..|GateLine|] == GateLine;
      GateLine + "\n" + data
  }

  /** Gating an already gated script changes nothing. */
  lemma WithGateIdempotent(data: string)
    ensures WithGate(WithGate(data)) == WithGate(data)
  {
  }

  /** The gated text keeps the script: it is the script itself, or the gate line and a newline followed by it. */
  lemma WithGateKeepsScript(data: string)
    ensures EndsWith(WithGate(data), data)
    ensures |WithGate(data)| == |data| || |WithGate(data)| == |data| + |GateLine| + 1
  {
    var r := WithGate(data);
    if !StartsWith(data, GateLine) {
      assert r[|r| - |data|..] == data;
    }
  }

  /** The exit status of a spawned script. */
  datatype Status = Status(success: bool, code: int)

  /** How a run ends: `Deno.exit(code)` after a failing script, or normally. */
  datatype Ending = Exit(code: int) | Finished

  /** A script started with `deno run --allow-all`, its stdin piped, from its own directory. */
  datatype Launch = Launch(path: string, cwd: string)

  /**
   * A spawned script: its path and the name it is announced by, the last
   * segment of the path (marathon.ts splits the path on `/`; runner.ts uses the
   * walk entry's name, which is the same segment).
   */
  datatype Task = Task(path: string, name: string)

  /** The task the script at `path` becomes. */
  function TaskOf(path: string): Task
  {
    Task(path, Paths.Basename(path))
  }

  /** marathon.ts:79-97, runner.ts:54-75 -- preparing a script: the gate written when missing, then the spawn. */
  datatype Prepared = Prepared(gateWritten: Option<string>, launch: Launch)

  /**
   * marathon.ts:16-24, runner.ts:14-28 -- `load_config`: the `root_dir` setting,
   * or `./` when the settings are not JSON or are `null` (the property read
   * throws inside the `try`). An absent `root_dir` only logs an error.
   */
  function RootDirSetting(settings: Option<string>, parse: string -> Result<Json, string>): (r: Json)
    ensures settings.None? ==> r == Str("./")
    ensures settings.Some? && parse(settings.value).Err? ==> r == Str("./")
    ensures settings.Some? && parse(settings.value).Ok? && IsNullish(parse(settings.value).value) ==> r == Str("./")
    ensures settings.Some? && parse(settings.value).Ok? && !IsNullish(parse(settings.value).value) ==>
      r == Member(parse(settings.value).value, "root_dir")
  {
    if settings.None? then Str("./")
    else
      match parse(settings.value)
      case Err(_) => Str("./")
      case Ok(c) => if IsNullish(c) then Str("./") else Member(c, "root_dir")
  }
}
