/**
 * The worker of the relaxed-JSON normaliser: for each path of a batch it reads the
 * file, strips comments and trailing commas, parses and re-serialises the JSON,
 * writes it (a `.jsonc` file goes to a sibling `.json`) and removes a renamed original.
 * Reading, writing, removing and the JSON library are inputs: `FileAnswers` says what
 * the file system answers for one file, and `Serializer` is `JSON.parse` followed by
 * `JSON.stringify` (minified, or indented by four spaces).
 */
module Worker {
  import opened Wrappers
  import opened Text
  import opened Paths
  import StripJsonc

  /** One entry of the result list: `ok: true` with `outPath`, or `ok: false` with `error`. */
  datatype FileResult = Succeeded(filePath: string, outPath: string) | Failed(filePath: string, error: string)

  /** A change the worker makes on disk. */
  datatype Effect = Write(path: string, content: string) | Remove(path: string)

  /** What the file system answers for one file: its text (or the read error), and the errors of the write and the removal, if any. */
  datatype FileAnswers = FileAnswers(read: Result<string, string>, writeError: Option<string>, removeError: Option<string>)

  /** `JSON.parse` then `JSON.stringify`; the flag selects the minified form. */
  type Serializer = (string, bool) -> Result<string, string>

  /** The result of processing one file, with the disk changes made, in order. */
  datatype Outcome = Outcome(result: FileResult, effects: seq<Effect>)

  const JsoncExt: string := ".jsonc"
  const JsonExt: string := ".json"

  /** worker.ts:30-31 -- the lower-cased extension is `.jsonc`. */
  predicate IsJsonc(p: string): (r: bool)
    ensures r ==> |Extname(p)| == |JsoncExt| && Extname(p)[0] == '.'
  {
    ToLower(Extname(p)) == JsoncExt
  }

  /** worker.ts:39-44 -- where the output is written: a `.jsonc` file moves to a `.json` path, any other file stays put. */
  function OutPath(p: string): (r: string)
    ensures !IsJsonc(p) ==> r == p
    ensures IsJsonc(p) ==> EndsWith(r, JsonExt) && r != p
  {
    if IsJsonc(p) then
      var name := BasenameWithout(p, JsoncExt) + JsonExt;
      assert name[|name| - |JsonExt|..] == JsonExt;
      OutEndsWithJson(Dirname(p), name);
      OutDiffers(p, Join(Dirname(p), name));
      Join(Dirname(p), name)
    else p
  }

  /** The jsonc test ignores case: it holds exactly when the last segment ends with `.jsonc` in any case, after at least one character. */
  lemma IsJsoncIff(p: string)
    ensures IsJsonc(p) <==>
      var b := Basename(p); |b| > 6 && ToLower(b[|b| - 6..]) == JsoncExt
  {
    var b := Basename(p);
    if IsJsonc(p) {
      var e := Extname(p);
      LowerIsJsonc(e);
      ExtnameIs(p, e);
      assert b[|b| - 6..] == e;
    }
    if |b| > 6 && ToLower(b[|b| - 6..]) == JsoncExt {
      var e := b[|b| - 6..];
      LowerIsJsonc(e);
      ExtnameIs(p, e);
    }
  }

  /** A text that lower-cases to `.jsonc` is a dot followed by five letters. */
  lemma LowerIsJsonc(e: string)
    requires ToLower(e) == JsoncExt
    ensures |e| == 6 && e[0] == '.'
    ensures forall j :: 1 <= j < |e| ==> e[j] != '.' && e[j] != Sep
  {
    forall j | 0 <= j < 6 ensures LowerChar(e[j]) == JsoncExt[j] { assert ToLower(e)[j] == LowerChar(e[j]); }
  }

  /**
   * A `.jsonc` input goes to a sibling file in the same directory whose name is the
   * base name without a (case-sensitive) `.jsonc` suffix, plus `.json`; the output
   * path therefore never equals the input.
   */
  lemma JsoncOutPath(p: string)
    requires IsJsonc(p)
    ensures EndsWith(OutPath(p), JsonExt)
    ensures OutPath(p) != p
    ensures Basename(OutPath(p)) == BasenameWithout(p, JsoncExt) + JsonExt
    ensures Dirname(OutPath(p)) == Dirname(p)
  {
    var name := BasenameWithout(p, JsoncExt) + JsonExt;
    var out := Join(Dirname(p), name);
    assert OutPath(p) == out;
    JsonExtHasNoSep();
    NameHasNoSep(p, JsoncExt, JsonExt);
    OutEndsWithJson(Dirname(p), name);
    OutDiffers(p, out);
    JoinPlacesName(Dirname(p), name);
    JoinKeepsDirname(p, name);
  }

  lemma JsonExtHasNoSep()
    ensures forall j :: 0 <= j < |JsonExt| ==> JsonExt[j] != Sep
  {
  }

  lemma OutEndsWithJson(dir: string, name: string)
    requires EndsWith(name, JsonExt)
    ensures EndsWith(Join(dir, name), JsonExt)
  {
    var out := Join(dir, name);
    JoinEndsWithName(dir, name);
    assert out[|out| - 5..] == name[|name| - 5..];
  }

  lemma OutDiffers(p: string, out: string)
    requires IsJsonc(p) && EndsWith(out, JsonExt)
    ensures out != p
  {
    JsoncEndsInC(p);
    assert out[|out| - 1] == JsonExt[4] == 'n';
  }

  /** A base name with a suffix swapped holds no separator. */
  lemma NameHasNoSep(p: string, suffix: string, ext: string)
    requires forall j :: 0 <= j < |ext| ==> ext[j] != Sep
    ensures var name := BasenameWithout(p, suffix) + ext;
      forall j :: 0 <= j < |name| ==> name[j] != Sep
  {
    var b := Basename(p);
    var w := BasenameWithout(p, suffix);
    assert forall j :: 0 <= j < |w| ==> w[j] == b[j];
  }

  lemma JoinEndsWithName(dir: string, name: string)
    ensures EndsWith(Join(dir, name), name)
  {
    var out := Join(dir, name);
    assert out[|out| - |name|..] == name;
  }

  /** A `.jsonc` path ends in `c` or `C`, while its output ends in `.json`. */
  lemma JsoncEndsInC(p: string)
    requires IsJsonc(p)
    ensures LowerChar(p[|p| - 1]) == 'c'
  {
    IsJsoncIff(p);
    var b := Basename(p);
    assert p[|p| - 1] == b[|b| - 1];
    assert ToLower(b[|b| - 6..])[5] == LowerChar(b[|b| - 1]);
  }

  lemma JoinPlacesName(dir: string, name: string)
    requires forall j :: 0 <= j < |name| ==> name[j] != Sep
    ensures Basename(Join(dir, name)) == name
  {
    if dir == "." {
      assert LastSep(name).None?;
    } else if EndsWith(dir, [Sep]) {
      var d := dir[..|dir| - 1];
      assert dir == d + [Sep];
      BasenameAfterSep(d, name);
    } else {
      BasenameAfterSep(dir, name);
    }
  }

  lemma JoinKeepsDirname(p: string, name: string)
    requires forall j :: 0 <= j < |name| ==> name[j] != Sep
    ensures Dirname(Join(Dirname(p), name)) == Dirname(p)
  {
    var dir := Dirname(p);
    var out := Join(dir, name);
    if dir == "." {
      assert LastSep(name).None?;
    } else if EndsWith(dir, [Sep]) {
      var d := dir[..|dir| - 1];
      assert dir == d + [Sep];
      assert out == d + [Sep] + name;
      LastSepAt(out, |d|);
      match LastSep(p)
      case Some(k) =>
        if k > 0 {
          // a trimmed directory ends with a separator only when it is one character long
          assert |dir| == 1;
        }
    } else {
      LastSepAt(out, |dir|);
      assert out[..|dir|] == dir;
      match LastSep(p)
      case Some(k) =>
        assert k > 0;
        assert |dir| > 0;
    }
  }

  /** A path that is not `.jsonc` (in any case) is rewritten in place. */
  lemma JsonOutPathInPlace(p: string)
    requires !IsJsonc(p)
    ensures OutPath(p) == p
  {
  }

  /** The rename suffix is matched case-sensitively although the jsonc test is not: `A.JSONC` becomes `A.JSONC.json`. */
  lemma UpperCaseJsoncKeepsSuffix()
    ensures IsJsonc("A.JSONC")
    ensures OutPath("A.JSONC") == "A.JSONC.json"
  {
    var p := "A.JSONC";
    assert LastSep(p).None? by {
      assert forall j :: 0 <= j < |p| ==> p[j] != Sep;
    }
    assert Basename(p) == p;
    LastDotAt(p, 1);
    assert Extname(p) == ".JSONC";
    assert ToLower(".JSONC") == JsoncExt;
    assert !EndsWith(p, JsoncExt) by { assert p[6] != JsoncExt[5]; }
  }

  /** worker.ts:27-56 -- `processFile` as a function of what the disk and the JSON library answer. */
  function Process(p: string, minify: bool, a: FileAnswers, serialize: Serializer): (o: Outcome)
    ensures o.result.filePath == p
  {
    match a.read
    case Err(m) => Outcome(Failed(p, m), [])
    case Ok(raw) =>
      match serialize(StripJsonc.Strip(raw), minify)
      case Err(m) => Outcome(Failed(p, m), [])
      case Ok(output) => Store(p, IsJsonc(p), OutPath(p), output, a)
  }

  /** worker.ts:45-55 -- writing the output to `target` and, when it moved, removing the original. */
  function Store(p: string, jsonc: bool, target: string, output: string, a: FileAnswers): (o: Outcome)
    ensures o.result.filePath == p
  {
    if a.writeError.Some? then Outcome(Failed(p, a.writeError.value), [])
    else if jsonc && target != p then
      (if a.removeError.Some? then Outcome(Failed(p, a.removeError.value), [Write(target, output)])
       else Outcome(Succeeded(p, target), [Write(target, output), Remove(p)]))
    else Outcome(Succeeded(p, target), [Write(target, output)])
  }

  /**
   * A file succeeds exactly when it is read, parsed, written and (for `.jsonc`)
   * removed without error; a success reports the output path; the only write is
   * to the output path and it comes first; the only removal is of a `.jsonc`
   * input, after its output was written.
   */
  lemma ProcessSpec(p: string, minify: bool, a: FileAnswers, serialize: Serializer)
    ensures var o := Process(p, minify, a, serialize);
      && (o.result.Succeeded? <==>
        && a.read.Ok?
        && serialize(StripJsonc.Strip(a.read.value), minify).Ok?
        && a.writeError.None?
        && (IsJsonc(p) ==> a.removeError.None?))
      && (o.result.Succeeded? ==> o.result.outPath == OutPath(p))
      && (a.read.Err? ==> o == Outcome(Failed(p, a.read.error), []))
      && (forall e :: e in o.effects && e.Write? ==> e.path == OutPath(p))
      && (forall e :: e in o.effects && e.Remove? ==> e.path == p && IsJsonc(p) && o.effects[0].Write?)
      && (a.read.Ok? && a.writeError.None? && serialize(StripJsonc.Strip(a.read.value), minify).Ok? ==>
        o.effects != [] && o.effects[0] == Write(OutPath(p), serialize(StripJsonc.Strip(a.read.value), minify).value))
  {
    if a.read.Ok? && serialize(StripJsonc.Strip(a.read.value), minify).Ok? {
      JsoncOutPathOrInPlace(p);
      StoreSpec(p, IsJsonc(p), OutPath(p), serialize(StripJsonc.Strip(a.read.value), minify).value, a);
    }
  }

  lemma StoreSpec(p: string, jsonc: bool, target: string, output: string, a: FileAnswers)
    requires jsonc ==> target != p
    ensures var o := Store(p, jsonc, target, output, a);
      && (o.result.Succeeded? <==> a.writeError.None? && (jsonc ==> a.removeError.None?))
      && (o.result.Succeeded? ==> o.result.outPath == target)
      && (forall e :: e in o.effects && e.Write? ==> e.path == target)
      && (forall e :: e in o.effects && e.Remove? ==> e.path == p && jsonc && o.effects[0].Write?)
      && (a.writeError.None? ==> o.effects != [] && o.effects[0] == Write(target, output))
  {
  }

  lemma JsoncOutPathOrInPlace(p: string)
    ensures IsJsonc(p) ==> OutPath(p) != p
  {
    if IsJsonc(p) { JsoncOutPath(p); }
  }

  /** A `.jsonc` input that is processed successfully is written to its `.json` sibling and then removed; a `.json` input is never removed. */
  lemma RemovalRule(p: string, minify: bool, a: FileAnswers, serialize: Serializer)
    ensures var o := Process(p, minify, a, serialize);
      (IsJsonc(p) && o.result.Succeeded? ==> |o.effects| == 2 && o.effects[0].Write? && o.effects[1] == Remove(p))
      && (!IsJsonc(p) ==> forall e :: e in o.effects ==> e.Write? && e.path == p)
  {
    JsoncOutPathOrInPlace(p);
    ProcessSpec(p, minify, a, serialize);
  }

  /** worker.ts:27-56 -- `processFile`, step by step. */
  method ProcessFile(filePath: string, minify: bool, a: FileAnswers, serialize: Serializer)
    returns (result: FileResult, effects: seq<Effect>)
    ensures Outcome(result, effects) == Process(filePath, minify, a, serialize)
  {
    effects := [];
    if a.read.Err? {
      return Failed(filePath, a.read.error), effects;
    }
    var raw := a.read.value;
    var ext := ToLower(Extname(filePath));
    var isJsonc := ext == JsoncExt;
    var stripped := StripJsonc.Strip(raw);
    var parsed := serialize(stripped, minify);
    if parsed.Err? {
      return Failed(filePath, parsed.error), effects;
    }
    var output := parsed.value;
    var outPath := filePath;
    if isJsonc {
      var dir := Dirname(filePath);
      var name := BasenameWithout(filePath, JsoncExt);
      outPath := Join(dir, name + JsonExt);
    }
    assert isJsonc == IsJsonc(filePath) && outPath == OutPath(filePath);
    result, effects := StoreFile(filePath, isJsonc, outPath, output, a);
  }

  /** worker.ts:45-55 -- the write, then the removal of a moved original. */
  method StoreFile(filePath: string, isJsonc: bool, outPath: string, output: string, a: FileAnswers)
    returns (result: FileResult, effects: seq<Effect>)
    ensures Outcome(result, effects) == Store(filePath, isJsonc, outPath, output, a)
  {
    effects := [];
    if a.writeError.Some? {
      return Failed(filePath, a.writeError.value), effects;
    }
    effects := effects + [Write(outPath, output)];
    if isJsonc && outPath != filePath {
      if a.removeError.Some? {
        return Failed(filePath, a.removeError.value), effects;
      }
      effects := effects + [Remove(filePath)];
    }
    result := Succeeded(filePath, outPath);
  }

  /** worker.ts:17-25 -- the result list posted back for a batch: one entry per path, at the same index, each decided by that path alone. */
  function BatchResults(batch: seq<string>, minify: bool, disk: string -> FileAnswers, serialize: Serializer): (r: seq<FileResult>)
    ensures |r| == |batch|
    ensures forall i :: 0 <= i < |batch| ==> r[i].filePath == batch[i]
    ensures forall i :: 0 <= i < |batch| ==> r[i] == Process(batch[i], minify, disk(batch[i]), serialize).result
  {
    seq(|batch|, i requires 0 <= i < |batch| => Process(batch[i], minify, disk(batch[i]), serialize).result)
  }
}
