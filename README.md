# Regolith filters in Dafny

A model of four Regolith filters and of the proofs about them:

- **shush** normalises relaxed JSON. Its dispatcher (`shush/shush.ts`) collects the
  `.json`/`.jsonc` files, splits them into batches and hands them to a fixed pool of
  workers. Each worker (`shush/worker.ts`) strips block comments, line comments and
  trailing commas, re-serialises the JSON, writes it (a `.jsonc` file goes to a sibling
  `.json`) and removes a renamed original.
- **dinoscript** (`dinoscript/mod.ts`) reads its settings, parses `@scope/name@version`
  module specs, merges the script module and its dependencies into the behaviour pack's
  manifest, and assembles the bundler's argument list.
- **marathon** (`marathon/marathon.ts`) runs every non-library script of a project in
  collection order. It builds an environment from the BP and RP folders, stops at the
  first failing script and removes every collected file once all succeed.
- The older **runner** (`marathon/runner.ts`) runs the `.ts` scripts outside `data`
  last-found first. It removes each script's file as soon as its status arrives.

The modules are:

| file | module | models |
|---|---|---|
| wrappers.dfy | Wrappers | `Option` and `Result` |
| text.dfy | Text | line terminators, `\s`, `startsWith`/`endsWith`, ASCII case mapping, filtering |
| paths.dfy | Paths | POSIX `basename`, `dirname`, `extname`, `join` |
| json.dfy | JsValues | JavaScript values as `JSON.parse` produces them, and property reads |
| strip_jsonc.dfy | StripJsonc | `stripJsonc`: each global `replace` as a left-to-right scan |
| worker.dfy | Worker | `processFile` and the batch result list |
| dispatcher.dfy | Dispatcher | extension selection, `chunkArray`, the pool size, and the `runPool`/`dispatch` machine as the class `Pool` |
| dinoscript.dfy | Dinoscript | `ScriptModule`, `Config`, `PartialManifest`, `toJSON`, the bundler arguments |
| tasks.dfy | Tasks | what marathon and runner share: `load_config`, the stdin gate, the task record, exit statuses |
| marathon.dfy | Marathon | collection, environment, preparation, FIFO release, removal |
| runner.dfy | Runner | collection with the `building` counter, LIFO release with per-task removal |

Who supplies what:

- Every file-system, process and library call is an input or an output.
- A walk is the sequence of paths it yields.
- A directory listing is a sequence of entries.
- A file's text is a function from paths to strings.
- An exit status sequence gives one status per spawned script.
- `JSON.parse`, `JSON.stringify` and `@std/semver`'s `format(parse(v))` are function parameters.
- A disk change (write, remove) and every exit are part of the result.

The loops of the scripts are methods. Each one is proved equal to a function that
states the whole outcome. The properties are lemmas about those functions. The
dispatcher is a class whose fields the methods update. The completion of "some
in-flight batch" is a nondeterministic choice among the busy workers.

## Model

| member | source | states |
|---|---|---|
| StripJsonc.StripBlockComments | shush/worker.ts:60 | the block-comment pass never lengthens the text; the rows below say what it deletes and keeps |
| StripJsonc.FindClose | shush/worker.ts:60 | the lazy `[\s\S]*?` stops at the nearest `*/` at or after the body start, and there is none when it answers None |
| StripJsonc.BlockCommentRemoved | shush/worker.ts:60 | a `/*…*/` comment whose body holds no `*/` is deleted entirely, across lines |
| StripJsonc.BlockUnterminatedKept | shush/worker.ts:60 | text in which no `*/` starts at or after the body start of a `/*` passes the block pass unchanged, so an unterminated `/*` stays, `/*/` included |
| StripJsonc.BlockPlainPrefix | shush/worker.ts:60 | text opening no comment is copied and the scan goes on with what follows |
| StripJsonc.StripLineComments | shush/worker.ts:61 | the line-comment pass never lengthens the text; `StripJsonc.StripLineByLine` says what it deletes and keeps on every line |
| StripJsonc.StripLineFrom | shush/worker.ts:61 | the line pass from any position, with `^` holding or not there, never lengthens the text |
| StripJsonc.LineTerminatorsKept | shush/worker.ts:61 | the line-comment pass keeps exactly the line terminators of its input, in order |
| StripJsonc.LineCommentRemoved | shush/worker.ts:61 | on a line `p//c` where `p` does not end in `:` and every `//` inside `p` follows a `:` (a URL such as `"u": "http://x", `), `p` is kept and `//c` is deleted up to the line end |
| StripJsonc.UrlSlashesKept | shush/worker.ts:61 | text whose every `//` follows a `:` (a URL) passes the line pass unchanged |
| StripJsonc.CommentFrom | shush/worker.ts:61 | the first index at or after i where a line comment starts (a `//` at the line start with `^` holding, or after a character other than `:`), with no comment before it; None when the rest of the line holds none |
| StripJsonc.LineKept | shush/worker.ts:61 | what the pass keeps of a line is a prefix of it, and the whole line when it holds no comment |
| StripJsonc.TerminatorStep | shush/worker.ts:61 | a line terminator is kept and `^` holds right after it, so a `//` opening the next line is a comment |
| StripJsonc.LinePass | shush/worker.ts:61 | on one line followed by the end of the text or a terminator, the pass keeps the line up to its first comment and then carries on at the terminator |
| StripJsonc.StripLineByLine | shush/worker.ts:61 | for any text, the pass equals the line-by-line cut: every line is cut at its first comment and every line terminator is kept |
| StripJsonc.CommentLineRemoved | shush/worker.ts:61 | a line that starts with `//` is deleted whole |
| StripJsonc.CommentLineAfterPlainLine | shush/worker.ts:61 | a comment-free line, a `\n` and a line starting with `//` become the first line and the `\n` |
| StripJsonc.SecondLineCommentRemoved | shush/worker.ts:61 | `x\n// c` becomes `x\n` |
| StripJsonc.StripTrailingCommas | shush/worker.ts:62 | the comma pass never lengthens the text; `StripJsonc.CommaPassKeepsExactly` says which characters it keeps |
| StripJsonc.CommaPassKeepsExactly | shush/worker.ts:62 | the comma pass yields the input at the strictly increasing indices that do not hold a trailing comma: every such index is kept and every trailing comma is deleted |
| StripJsonc.OtherCharactersKept | shush/worker.ts:62 | the comma pass keeps every character other than `,`, in order |
| StripJsonc.TrailingCommaRemoved | shush/worker.ts:62 | a comma followed by optional whitespace and `]` or `}` is deleted |
| StripJsonc.NoTrailingCommaKept | shush/worker.ts:62 | text with no trailing comma passes the comma pass unchanged |
| StripJsonc.Strip | shush/worker.ts:58-63 | the three passes in order never lengthen the text |
| StripJsonc.StrictTextUnchanged | shush/worker.ts:58-63 | strict JSON (no `/*`, every `//` after `:`, no trailing comma) is returned as it is by all three passes |
| Worker.OutPath | shush/worker.ts:39-44 | a file other than `.jsonc` is written in place; a `.jsonc` file goes to a different path ending in `.json` |
| Worker.IsJsonc | shush/worker.ts:30-31 | a path taken for `.jsonc` has an extension of six characters starting with a dot |
| Worker.IsJsoncIff | shush/worker.ts:30-31 | the jsonc test holds exactly when the last segment ends with `.jsonc` in any case after at least one character |
| Worker.JsoncOutPath | shush/worker.ts:39-44 | a `.jsonc` input goes to the same directory, named the base name without `.jsonc` plus `.json`; it ends in `.json` and differs from the input |
| Worker.JsonOutPathInPlace | shush/worker.ts:39-44 | any other input is rewritten in place |
| Worker.UpperCaseJsoncKeepsSuffix | shush/worker.ts:30-43 | an example of `Worker.JsoncOutPath`'s name rule: the suffix strip is case-sensitive while the test is not, so `A.JSONC` becomes `A.JSONC.json`. This arises only when a worker is handed such a path directly: shush's walk selects the `json`/`jsonc` extensions case-sensitively (shush.ts:16-26) and never yields `A.JSONC` |
| Worker.Process | shush/worker.ts:27-56 | the result reports the file's own path; `Worker.ProcessSpec` says when it succeeds and what it changes |
| Worker.ProcessSpec | shush/worker.ts:27-56 | a file succeeds exactly when it is read, parsed, written and (for `.jsonc`) removed; a success reports the output path; the only write is to the output path and comes first; the only removal is of a `.jsonc` input after its write |
| Worker.RemovalRule | shush/worker.ts:46-50 | a successful `.jsonc` file is written and then removed; a `.json` file is never removed |
| Worker.ProcessFile | shush/worker.ts:27-56 | the step-by-step `processFile` produces the result and disk changes of `Process` |
| Worker.StoreFile | shush/worker.ts:45-55 | the write then the removal of a moved original produce `Store`'s result and changes |
| Worker.BatchResults | shush/worker.ts:17-25 | one result per batch path, at the same index, carrying that path and computed from that file's own answers |
| Dispatcher.Extensions | shush/shush.ts:16-17 | the extensions are `json`, plus `jsonc` exactly when the setting is on |
| Dispatcher.JsoncDiscoveredIff | shush/shush.ts:16-26 | a `.jsonc` path is walked exactly when the jsonc setting is on |
| Dispatcher.Discover | shush/shush.ts:20-26 | the files are exactly the walked paths with a selected extension |
| Dispatcher.ChunkArray | shush/shush.ts:48-54 | the chunks concatenate back to the input; each holds 1 to `size` elements; all but the last hold exactly `size`; there are ceil(n/size) of them |
| Dispatcher.PoolSize | shush/shush.ts:38 | the pool size is the hardware parallelism (4 when unknown) clamped to [4, 32] |
| Dispatcher.DispatchAllShape | shush/shush.ts:96-107 | dispatch ends with no idle worker or no waiting batch, having taken k = min(idle, queue) batches from the queue front and k workers from the top of the idle stack, and every worker stays idle or busy |
| Dispatcher.DispatchAllPairs | shush/shush.ts:97-99 | the top idle worker takes the first waiting batch, the next worker the second, and so on |
| Dispatcher.DispatchAllKeepsBusy | shush/shush.ts:96-107 | dispatch leaves the assignments made before it alone |
| Dispatcher.DispatchAllOnlyTakesIdle | shush/shush.ts:97-105 | dispatch makes a worker busy only if it already was or is one of those taken from the idle stack |
| Dispatcher.DispatchKeepsLoad | shush/shush.ts:96-107 | dispatch moves paths from the queue to busy workers without losing or adding any |
| Dispatcher.DispatchLoop | shush/shush.ts:96-107 | the `dispatch` while loop, popping idle workers and shifting queued batches, yields `DispatchAll` of the pool state |
| Dispatcher.CompletionStep | shush/shush.ts:100-104 | a completion followed by dispatch keeps every worker idle or busy, takes the answered batch out of the load and removes one unit of pending work |
| Dispatcher.CountsCoverResults | shush/shush.ts:68-78 | every result is counted once, as a success or as a failure |
| Dispatcher.Pool.Dispatch | shush/shush.ts:96-107 | the pool's new state is `DispatchAll` of the old one; the batches handed out are the queue's front, in order |
| Dispatcher.Pool.Settle | shush/shush.ts:66-85 | a result list adds its successes to `processed` and its failures to `errors`; a worker error adds the batch length to `errors` |
| Dispatcher.Pool.Complete | shush/shush.ts:100-104 | a completion counts the reply, frees the worker onto the idle stack and dispatches again |
| Dispatcher.Pool.RunPool | shush/shush.ts:91-114 | `runPool` returns with the queue empty, nothing in flight and every worker idle; every batch was handed out exactly once, in order; every path was counted once |
| Dispatcher.Run | shush/shush.ts:12-123 | no file means no pool or batch; otherwise successes and failures add up to the file count, with the clamped pool size and ceil(n/size) batches |
| Dinoscript.MatchAtGroups | dinoscript/mod.ts:29-36 | the name group is `@` and at least one non-`@` character; the version group reaches the line's end; the two with the `@` between them are the matched text |
| Dinoscript.MatchFromLeftmost | dinoscript/mod.ts:29 | the search fails exactly when no index matches, and otherwise returns the leftmost match |
| Dinoscript.ParseModuleSpec | dinoscript/mod.ts:28-46 | a spec is rejected as malformed exactly when the pattern matches nowhere; every other failure is a bad version |
| Dinoscript.ModuleSpecAccepted | dinoscript/mod.ts:28-46 | a spec is accepted exactly when the pattern matches and the leftmost match's version is semantic; the module is that match's name and formatted version; a spec with no match is rejected as such |
| Dinoscript.ParseModules | dinoscript/mod.ts:85-87 | all specs parse, in order, or the first failing spec's error is returned |
| Dinoscript.ConfigDefaults | dinoscript/mod.ts:50-54 | under either reading of the entry, settings giving only the modules yield entry `mod.ts`, minified, ESM, no source map |
| Dinoscript.ConfigOverrides | dinoscript/mod.ts:64-93 | a configuration exists exactly when `modules` is a non-empty list of strings that all parse; minify, format and sourcemap override their defaults exactly when of the matching type; a string `entryPoints` replaces the entry, by the `entry` setting as written and by `entryPoints` as intended |
| Dinoscript.ConfigFrom | dinoscript/mod.ts:56-94 | absent or empty settings stop the script; an accepted configuration has at least one module |
| Dinoscript.LoadConfig | dinoscript/mod.ts:56-94 | the constructor's conditional assignments produce `ConfigFrom` under either reading; as written, a string `entryPoints` makes it copy the `entry` setting |
| Dinoscript.Entry | dinoscript/mod.ts:64-66 | the entry is the `entryPoints` string when that setting is one, and `mod.ts` otherwise |
| Dinoscript.EntryAsWritten | dinoscript/mod.ts:64-66 | as written, the guard tests `entryPoints` but copies `entry` |
| Dinoscript.EntryPointsLost | dinoscript/mod.ts:64-66 | as written, settings naming only `entryPoints` leave the entry `undefined` |
| Dinoscript.EntryPointsLostInRun | dinoscript/mod.ts:64-222 | as written, a successful run whose settings name an entry point and no `entry` hands the bundler `undefined` as its last argument |
| Dinoscript.AnyMeaning | dinoscript/mod.ts:147-152 | `some` answers false exactly when every element is read and none qualifies, and true exactly when one qualifies with no nullish element before it |
| Dinoscript.Any | dinoscript/mod.ts:147-153 | `some` over the dependencies throws only by reading a property of a nullish element |
| Dinoscript.Conflicts | dinoscript/mod.ts:149-151 | only an object dependency can conflict, and the entry a request appends never conflicts with that request |
| Dinoscript.ListField | dinoscript/mod.ts:124-143 | an absent list field becomes `[]`, an array is taken as it is, anything else is rejected |
| Dinoscript.MergeDependencies | dinoscript/mod.ts:145-165 | a successful merge adds one entry per request; a failure is a version conflict or a property read of a nullish entry |
| Dinoscript.MergeSucceedsIff | dinoscript/mod.ts:145-165 | the merge succeeds exactly when every request passes its check against the manifest's entries plus those appended for the earlier requests |
| Dinoscript.MergeRejectsAt | dinoscript/mod.ts:145-165 | a failing merge stops at the first request that does not pass; a conflict there is reported under that module's name, a throw as a property read of nullish |
| Dinoscript.MergeAppends | dinoscript/mod.ts:145-165 | a successful merge keeps every dependency and appends one `{module_name, version}` per requested module, in order, duplicates included |
| Dinoscript.MergeRejectsExisting | dinoscript/mod.ts:146-158 | an example of `Dinoscript.MergeRejectsAt`: a conflict of the first request with the manifest's own dependencies rejects the merge under that module's name |
| Dinoscript.MergeRejectsVersionClash | dinoscript/mod.ts:145-165 | an example of `Dinoscript.MergeRejectsAt`: one module requested at two versions is rejected at the second request |
| Dinoscript.AddScriptModule | dinoscript/mod.ts:167-182 | the script module is appended exactly when the check finds no module with the filter's uuid and output entry; finding one is `ModuleExists` |
| Dinoscript.AddScriptModuleOnce | dinoscript/mod.ts:167-182 | a second merge with the same uuid is rejected because the module list now holds the filter's script module |
| Dinoscript.ScriptModuleEntryFields | dinoscript/mod.ts:174-181 | the appended script module has the filter's uuid and entry `scripts/main.js` |
| Dinoscript.RestOfLookup | dinoscript/mod.ts:184-188 | the rest holds every key other than `modules` and `dependencies`, with the manifest's value for it |
| Dinoscript.PartialManifestOf | dinoscript/mod.ts:116-189 | a missing manifest stops the script; `Dinoscript.PartialManifestWritten` states a success |
| Dinoscript.PartialManifestWritten | dinoscript/mod.ts:116-197 | the written manifest keeps every other key's value, and holds the old modules plus the script module and the old dependencies plus one entry per request |
| Dinoscript.NewPartialManifest | dinoscript/mod.ts:116-189 | the constructor produces `PartialManifestOf`, failures included |
| Dinoscript.PushDependencies | dinoscript/mod.ts:145-165 | the dependency loop produces `MergeDependencies`, failures included |
| Dinoscript.CopyRest | dinoscript/mod.ts:184-188 | the copy loop produces `RestOf` |
| Dinoscript.ToJson | dinoscript/mod.ts:191-197 | the written manifest is an object whose `modules` and `dependencies` are the merged lists, when the other keys do not already name them |
| Dinoscript.ExternalsPairs | dinoscript/mod.ts:219-221 | one `--external <name>` pair per module, in order |
| Dinoscript.BundleArgList | dinoscript/mod.ts:210-222 | the arguments are the strings of `Dinoscript.BundleArgOrder` followed by the configured entry, whatever value it is |
| Dinoscript.BundleArgOrder | dinoscript/mod.ts:210-221 | the strings before the entry: `bundle --output <out> --format <fmt>`, then `--minify` when set, then `--sourcemap=<v>` when set and not empty, then one `--external <name>` pair per module, in order |
| Dinoscript.BundleArgs | dinoscript/mod.ts:210-222 | the pushes produce `BundleArgList` |
| Dinoscript.RunOf | dinoscript/mod.ts:200-231 | a configuration failure is the run's failure; given a configuration, a missing manifest stops the run |
| Dinoscript.RunWritesScriptModule | dinoscript/mod.ts:200-222 | a successful run writes a manifest ending with the filter's script module and passes the configured entry, under the reading chosen, last to the bundler |
| Dinoscript.Run | dinoscript/mod.ts:200-231 | the main block produces `RunOf` under either reading of the entry |
| Tasks.WithGate | marathon/marathon.ts:79-82 | the gated text starts with the gate line, is unchanged when it already did, and is the gate line plus a newline plus the text otherwise |
| Tasks.WithGateIdempotent | marathon/marathon.ts:79-82 | writing the gate twice is writing it once |
| Tasks.WithGateKeepsScript | marathon/runner.ts:54-58 | the gated text ends with the original script |
| Tasks.RootDirSetting | marathon/marathon.ts:16-24 | `root_dir` is `./` when the settings are absent, not JSON, or `null`; otherwise it is the setting as given |
| Marathon.Collect | marathon/marathon.ts:31-51 | collection adds no path; `Marathon.CollectExactly` says which it keeps |
| Marathon.CollectExactly | marathon/marathon.ts:31-51 | a walked path is collected exactly when it is a script outside `data/` (except `data/marathon`), flagged as a library exactly when it ends with `.lib.ts`, `.lib.js`, `.d.ts` or `.d.js` |
| Marathon.CollectAppend | marathon/marathon.ts:31-51 | collection keeps the walk order |
| Marathon.CollectFiles | marathon/marathon.ts:31-51 | the walk loop produces `Collect` |
| Marathon.IsLib | marathon/marathon.ts:39-45 | a library file is a `.ts` or `.js` file |
| Marathon.Skipped | marathon/marathon.ts:47-48 | only paths starting with `data` are skipped, and never those under `data/marathon` |
| Marathon.AddFolders | marathon/marathon.ts:62-72 | adding folder variables keeps every variable already set |
| Marathon.AddFoldersKeys | marathon/marathon.ts:62-72 | a variable is defined exactly when it was a base variable or a folder (not a file) names it |
| Marathon.AddFoldersUntouched | marathon/marathon.ts:62-72 | a variable no folder names keeps its value |
| Marathon.AddFoldersLastWins | marathon/marathon.ts:62-72 | the last folder whose upper-cased name gives a variable decides its value |
| Marathon.FilesIgnored | marathon/marathon.ts:62-72 | entries that are not folders set nothing |
| Marathon.FolderNamedDirOverwrites | marathon/marathon.ts:56-66 | an example of `Marathon.AddFoldersLastWins`: a BP folder named `dir` overwrites `MARATHON_BP_DIR` |
| Marathon.EnvOf | marathon/marathon.ts:53-72 | in the `env` option passed to every spawn, `MARATHON_ROOT_DIR` is always the root: no folder variable can overwrite it |
| Marathon.BuildEnv | marathon/marathon.ts:53-72 | the two loops produce `EnvOf` |
| Marathon.PrepareOf | marathon/marathon.ts:79-91 | the gate is written exactly when the script does not start with it, as the gate line, a newline and the script |
| Marathon.ReleaseFifo | marathon/marathon.ts:100-109 | no more tasks than queued are released, and all of them when the run finishes |
| Marathon.ReleaseFifoStopsAtFirstFailure | marathon/marathon.ts:100-109 | tasks are released in order up to and including the first failure, whose code ends the run; the run finishes, with every task released, exactly when none fails |
| Marathon.RunOf | marathon/marathon.ts:26-113 | every runnable file is prepared; the collected files are removed when the run finishes and none when it exits |
| Marathon.LibsNeverPrepared | marathon/marathon.ts:74-98 | every script spawned is a non-library file of the walk |
| Marathon.LibsNeverReleased | marathon/marathon.ts:74-109 | every script invoked is a non-library file of the walk |
| Marathon.RemovalRule | marathon/marathon.ts:108-113 | after success every collected file, library or not, is removed in collection order; after a failure none is |
| Marathon.PrepareTasks | marathon/marathon.ts:74-98 | the preparation loop produces the preparations and tasks of the non-library files, in order |
| Marathon.ReleaseTasks | marathon/marathon.ts:100-109 | the release loop produces `ReleaseFifo` |
| Marathon.RemoveAll | marathon/marathon.ts:111-113 | the removal loop removes the collected paths in order |
| Marathon.Run | marathon/marathon.ts:26-113 | the script produces `EnvOf` and `RunOf` |
| Runner.Collect | marathon/runner.ts:38-48 | collection adds no path; `Runner.CollectExactly` says which it keeps |
| Runner.CollectExactly | marathon/runner.ts:38-48 | the collected paths are exactly the walked `.ts` files not starting with `data` |
| Runner.Skipped | marathon/runner.ts:46-48 | every path under `data/` is skipped, and so is any path starting with `database` |
| Runner.EnvOf | marathon/runner.ts:62-64 | the `env` option passed to every spawn holds only `ROOT_DIR`, set to the resolved root |
| Runner.PrepareOf | marathon/runner.ts:52-69 | the gate is written exactly when the script does not start with it, as the gate line, a newline and the script |
| Runner.ReleaseLifo | marathon/runner.ts:80-97 | no more tasks than queued are released, and every one when the run finishes |
| Runner.ReleaseLifoOrder | marathon/runner.ts:80-97 | tasks are released last first, each at most once; the run exits with the code of the first failure met in that order, and finishes, having released every task, exactly when none fails |
| Runner.RunOf | marathon/runner.ts:30-97 | every collected file is prepared |
| Runner.EventsPairs | marathon/runner.ts:87-94 | each released task is invoked and then its file is removed, in release order |
| Runner.ReleaseRemovesFailing | marathon/runner.ts:93-96 | when the loop exits, its last event removes the file of the failing task whose code it exits with |
| Runner.RemovesOnlyCollected | marathon/runner.ts:38-97 | every removal is of a collected `.ts` file outside `data` |
| Runner.FailingFileRemoved | marathon/runner.ts:93-96 | a failing script's own file is removed before the run exits with its code |
| Runner.PrepareFile | marathon/runner.ts:52-69 | preparing a file gives `PrepareOf`: the gate is written exactly when the text does not already start with it, and the script is launched from its own directory |
| Runner.CollectTasks | marathon/runner.ts:38-78 | the walk loop queues the tasks and preparations of the collected files in walk order, with `building` back at 0 |
| Runner.ReleaseLoop | marathon/runner.ts:80-97 | the release loop produces the events and the ending of `ReleaseLifo` |
| Runner.Run | marathon/runner.ts:30-97 | the script produces `EnvOf` and `RunOf` |

## Left out

- File-system and process calls are inputs or outputs, not modelled. This covers `walk`, `readDir`, `realPath`, `chdir`, reads, writes, removals, spawning, stdin writes and `Deno.exit`.
- The order in which a walk yields paths is not modelled. Neither are its `followSymlinks` and `canonicalize` options. A walk is the path sequence it yields.
- `JSON.parse` and `JSON.stringify` are parameters. So are the minified and 4-space forms and `@std/semver`'s `parse`/`format`. Their own behaviour is not modelled.
- `crypto.randomUUID`, `uuid.txt` and `navigator.hardwareConcurrency` are parameters.
- Web Worker plumbing is not modelled: Blob URLs, messages, `Promise.race`, `terminate`. Concurrency is a sequential machine with a nondeterministic completion order.
- Logging, the progress line every 100 files and the elapsed time (floating point) are output only.
- Case mapping covers the ASCII letters only. Full Unicode `toLowerCase`/`toUpperCase` is out of scope.
- Paths use the POSIX separator `/`.
- `Paths.Join` assumes a normalised directory and a plain name. It does not normalise `..` or repeated separators.
- `Paths.Basename` does not strip trailing separators the way `@std/path` does. It is therefore exactly `split('/').pop()`. Walked files never end with a separator.
- The spawned path is the script's path, not its `realPath`.
- Marathon.EnvOf and Runner.EnvOf are the `env` option of `Deno.Command`, not the whole environment of a spawned script. `clearEnv` is left at its default of false (runner.ts:61-69, marathon.ts:84-91), so each script also inherits the runner's own environment. Only the variables the runners set are modelled.
- Dispatcher.ChunkArray requires `size >= 1`, and `Dispatcher.Config.batchSize` is an integer. The source's chunking for an integer `batchSize` of 0 or less, a missing one and a fractional one is not modelled; the next three lines say what it does.
- An integer `batchSize` of 0 or less: the `i += size` loop of shush.ts:50 never ends.
- A missing `batchSize`: `i + size` is NaN, so the loop pushes `arr.slice(0, NaN)`, which is empty, and stops. The one batch is empty, and the run reports 0 succeeded and 0 failed whatever the number of files.
- A fractional `batchSize`: the chunks are `arr.slice(i, i + size)` with both ends truncated, so below 1 there are empty chunks between the files.
- Dispatcher.Run requires an integer `batchSize` of at least 1 when files are found, so its count sum is proved for such settings only.
- `Dispatcher.Run` takes the parsed settings as a `Config`. The default settings string and its parsing are left out.
- Exit statuses are an input sequence with one status per spawned script. The `|statuses|` requires on the runners say exactly that.
- marathon resolves a non-string `root_dir` with `realPath`. `Tasks.RootDirSetting` returns the value and leaves out that resolution.
- `Runner.ReleaseLoop` runs while tasks wait, not `while (building != 0 || …)`: the walk loop leaves `building` at 0 (`Runner.CollectTasks` ensures it and `Runner.Run` asserts it), so the `if (task_queue.length == 0) continue;` busy-wait branch cannot be reached and is not modelled.
- Dinoscript: JavaScript objects are entry sequences with distinct keys. `Lookup` returns the first entry, and `JSON.parse` keeps the last of duplicated keys.
- Dinoscript.PartialManifestOf rejects an array-valued manifest as `ManifestNotObject`. The source reads `dependencies` and `modules` off an array without complaint.
- Dinoscript.RunOf does not model the bundler's working directory `data/dinoscript`. It does not model the bundler's exit either.
- Dinoscript.ConfigFrom, Dinoscript.LoadConfig, Dinoscript.RunOf, Dinoscript.Run and Dinoscript.RunWritesScriptModule take the reading of mod.ts:64-66 as a parameter: `AsWritten` is the code as written (it copies `entry`), `Intended` copies `entryPoints`.
- Dinoscript.BundleArgList keeps the entry as the JavaScript value the constructor stored. How `Deno.Command` turns a non-string argument such as `undefined` into text is not modelled.
- Worker.BatchResults decides each file from its own answers, as if no two files of a batch touched the same path. `Promise.all` runs the batch concurrently: `a.jsonc` writes the `a.json` that a neighbouring `a.json` task reads and rewrites in place, and the final `a.json` then depends on the interleaving. Such collisions between output paths are not modelled.

## Findings

| source | as written | input that shows it | evidently intended | confidence | as-written member | corrected member |
|---|---|---|---|---|---|---|
| dinoscript/mod.ts:64-66 | the guard tests `typeof config.entryPoints === "string"`, then assigns `config.entry` | settings `{"entryPoints": "main.ts", "modules": ["@minecraft/server@1.0.0"]}` leave the entry `undefined`, which becomes the bundler's last argument | the entry is the `entryPoints` string when that setting is one | medium, not executed | Dinoscript.EntryAsWritten, Dinoscript.EntryPointsLostInRun | Dinoscript.Entry |
