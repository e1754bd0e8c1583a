/**
 * dinoscript/mod.ts -- the Regolith filter that bundles a Minecraft script pack:
 * it reads its settings, merges the script module and its `@minecraft/...`
 * dependencies into the behaviour pack's manifest, and assembles the bundler's
 * argument list.
 *
 * The JSON parser, semantic-version formatting, the uuid, the manifest file's
 * text and the working directory are inputs; every `Deno.exit(1)` is a `Failure`.
 */
module Dinoscript {
  import opened Wrappers
  import opened Text
  import opened JsValues
  import Paths

  const DefaultEntry := "mod.ts"
  const DefaultFormat := "esm"
  const OutputFile := "scripts/main.js"
  const PackDir := "BP"

  /** Each way the script stops with exit status 1 (or with an uncaught TypeError). */
  datatype Failure =
    | SettingsUndefined
    | InvalidJson(message: string)
    | PropertyOfNullish
    | ModulesRequired
    | BadModuleSpec(spec: string)
    | BadVersion(version: string)
    | ManifestMissing
    | ManifestNotObject
    | DependenciesNotArray
    | ModulesNotArray
    | DependencyConflict(name: string)
    | ModuleExists

  /** `JSON.parse`: a value, or the message of the SyntaxError it throws. */
  type JsonParser = string -> Result<Json, string>

  /** `format(parse(v))` of @std/semver: the version in canonical form, or None where `parse` throws. */
  type Semver = string -> Option<string>

  /** A requested module: its scoped name (with the leading `@`) and its formatted version. */
  datatype ScriptModule = ScriptModule(name: string, version: string)

  // ---------------------------------------------------------------------------
  // ScriptModule (mod.ts:24-47): `mod.match(/(@[^@]+)@(.+)/)`
  // ---------------------------------------------------------------------------

  /** The index of the first `@` at or after k, or the length of s. */
  function NextAt(s: string, k: nat): (j: nat)
    requires k <= |s|
    ensures k <= j <= |s|
    ensures j < |s| ==> s[j] == '@'
    decreases |s| - k
  {
    if k == |s| || s[k] == '@' then k else NextAt(s, k + 1)
  }

  /** No `@` lies between k and the index NextAt finds. */
  lemma {:induction false} NextAtSkips(s: string, k: nat)
    requires k <= |s|
    ensures forall m :: k <= m < NextAt(s, k) ==> s[m] != '@'
    decreases |s| - k
  {
    if k < |s| && s[k] != '@' {
      NextAtSkips(s, k + 1);
    }
  }

  /**
   * The pattern matches at index i: an `@`, one or more characters other than
   * `@`, an `@`, and at least one character that is not a line terminator.
   * Since `[^@]+` cannot cross an `@`, the second `@` is the first one after i.
   */
  predicate MatchesAt(s: string, i: nat)
  {
    i < |s| && s[i] == '@' &&
    var j := NextAt(s, i + 1);
    i + 1 < j && j + 1 < |s| && !IsLineTerminator(s[j + 1])
  }

  /** The two groups of the match at i: the name up to the second `@`, and the version up to the end of the line. */
  function MatchAt(s: string, i: nat): (string, string)
    requires MatchesAt(s, i)
  {
    var j := NextAt(s, i + 1);
    (s[i..j], s[j + 1..LineEnd(s, j + 1)])
  }

  /**
   * The groups are what the pattern says: an `@` and at least one character
   * other than `@`, then at least one character up to the end of the line; with
   * the `@` between them they are the text of the match.
   */
  lemma MatchAtGroups(s: string, i: nat)
    requires MatchesAt(s, i)
    ensures var m := MatchAt(s, i);
      && |m.0| >= 2 && m.0[0] == '@' && (forall k :: 1 <= k < |m.0| ==> m.0[k] != '@')
      && |m.1| >= 1 && (forall k :: 0 <= k < |m.1| ==> !IsLineTerminator(m.1[k]))
      && i + |m.0| + 1 + |m.1| <= |s| && s[i..i + |m.0| + 1 + |m.1|] == m.0 + "@" + m.1
      && (i + |m.0| + 1 + |m.1| == |s| || IsLineTerminator(s[i + |m.0| + 1 + |m.1|]))
  {
    var j := NextAt(s, i + 1);
    var e := LineEnd(s, j + 1);
    NextAtSkips(s, i + 1);
    assert s[i..e] == s[i..j] + "@" + s[j + 1..e];
  }

  /** The leftmost match starting at or after i. */
  function MatchFrom(s: string, i: nat): (r: Option<(string, string)>)
    decreases |s| - i
  {
    if i >= |s| then None
    else if MatchesAt(s, i) then Some(MatchAt(s, i))
    else MatchFrom(s, i + 1)
  }

  /** The search fails exactly when no match starts at or after i; otherwise it returns the leftmost match. */
  lemma {:induction false} MatchFromLeftmost(s: string, i: nat)
    ensures MatchFrom(s, i).None? <==> forall k :: i <= k < |s| ==> !MatchesAt(s, k)
    ensures MatchFrom(s, i).Some? ==>
      exists k :: i <= k < |s| && MatchesAt(s, k) && MatchFrom(s, i) == Some(MatchAt(s, k))
        && forall k' :: i <= k' < k ==> !MatchesAt(s, k')
    decreases |s| - i
  {
    if i >= |s| {
      assert MatchFrom(s, i) == None;
    } else if MatchesAt(s, i) {
      assert MatchFrom(s, i) == Some(MatchAt(s, i));
      assert i <= i < |s| && MatchesAt(s, i) && MatchFrom(s, i) == Some(MatchAt(s, i));
    } else {
      assert MatchFrom(s, i) == MatchFrom(s, i + 1);
      MatchFromLeftmost(s, i + 1);
      if MatchFrom(s, i + 1).Some? {
        var k :| i + 1 <= k < |s| && MatchesAt(s, k) && MatchFrom(s, i + 1) == Some(MatchAt(s, k))
          && forall k' :: i + 1 <= k' < k ==> !MatchesAt(s, k');
        assert i <= k < |s| && MatchesAt(s, k) && MatchFrom(s, i) == Some(MatchAt(s, k))
          && forall k' :: i <= k' < k ==> !MatchesAt(s, k');
      }
    }
  }

  /** mod.ts:28-46 -- a module spec, its name and its formatted version; a spec that does not match, or whose version is not semantic, stops the script. */
  function ParseModuleSpec(spec: string, semver: Semver): (r: Result<ScriptModule, Failure>)
    ensures r == Err(BadModuleSpec(spec)) <==> MatchFrom(spec, 0).None?
    ensures r.Err? ==> r.error == BadModuleSpec(spec) || r.error.BadVersion?
  {
    match MatchFrom(spec, 0)
    case None => Err(BadModuleSpec(spec))
    case Some(groups) =>
      match semver(groups.1)
      case None => Err(BadVersion(groups.1))
      case Some(formatted) => Ok(ScriptModule(groups.0, formatted))
  }

  /**
   * A spec is accepted exactly when the pattern matches somewhere and the
   * version of the leftmost match is semantic; the name is then that match's
   * `@...` segment and everything after its second `@` (to the line's end) is
   * the version, `@` included.
   */
  lemma ModuleSpecAccepted(spec: string, semver: Semver)
    ensures ParseModuleSpec(spec, semver).Ok? <==>
      exists i :: 0 <= i < |spec| && MatchesAt(spec, i) && (forall k :: 0 <= k < i ==> !MatchesAt(spec, k))
        && semver(MatchAt(spec, i).1).Some?
    ensures ParseModuleSpec(spec, semver).Ok? ==>
      exists i :: 0 <= i < |spec| && MatchesAt(spec, i) && (forall k :: 0 <= k < i ==> !MatchesAt(spec, k))
        && ParseModuleSpec(spec, semver).value == ScriptModule(MatchAt(spec, i).0, semver(MatchAt(spec, i).1).value)
    ensures (forall i :: 0 <= i < |spec| ==> !MatchesAt(spec, i)) ==> ParseModuleSpec(spec, semver) == Err(BadModuleSpec(spec))
  {
    MatchFromLeftmost(spec, 0);
    if MatchFrom(spec, 0).Some? {
      var i :| 0 <= i < |spec| && MatchesAt(spec, i) && MatchFrom(spec, 0) == Some(MatchAt(spec, i))
        && forall k' :: 0 <= k' < i ==> !MatchesAt(spec, k');
      forall j | 0 <= j < |spec| && MatchesAt(spec, j) && (forall k :: 0 <= k < j ==> !MatchesAt(spec, k))
        ensures j == i
      {
      }
    }
  }

  /** `config.modules.map((mod) => new ScriptModule(mod))`: the first spec that fails stops the script. */
  function ParseModules(specs: seq<string>, semver: Semver): (r: Result<seq<ScriptModule>, Failure>)
    ensures r.Ok? ==> |r.value| == |specs|
    ensures r.Ok? ==> forall i :: 0 <= i < |specs| ==> ParseModuleSpec(specs[i], semver) == Ok(r.value[i])
    ensures r.Err? ==> exists i :: (0 <= i < |specs| && ParseModuleSpec(specs[i], semver) == Err(r.error)
      && forall k :: 0 <= k < i ==> ParseModuleSpec(specs[k], semver).Ok?)
    ensures (forall i :: 0 <= i < |specs| ==> ParseModuleSpec(specs[i], semver).Ok?) ==> r.Ok?
  {
    if specs == [] then Ok([])
    else
      match ParseModuleSpec(specs[0], semver)
      case Err(e) => Err(e)
      case Ok(m) =>
        var tail := ParseModules(specs[1..], semver);
        match tail
        case Err(e) => FirstFailureShifts(specs, semver, e); Err(e)
        case Ok(ms) => Ok([m] + ms)
  }

  /** A first failing spec of the tail, after an accepted head, is a first failing spec of the whole list. */
  lemma FirstFailureShifts(specs: seq<string>, semver: Semver, e: Failure)
    requires specs != [] && ParseModuleSpec(specs[0], semver).Ok?
    requires exists i :: (0 <= i < |specs[1..]| && ParseModuleSpec(specs[1..][i], semver) == Err(e)
      && forall k :: 0 <= k < i ==> ParseModuleSpec(specs[1..][k], semver).Ok?)
    ensures exists i :: (0 <= i < |specs| && ParseModuleSpec(specs[i], semver) == Err(e)
      && forall k :: 0 <= k < i ==> ParseModuleSpec(specs[k], semver).Ok?)
  {
    var i :| 0 <= i < |specs[1..]| && ParseModuleSpec(specs[1..][i], semver) == Err(e)
      && forall k :: 0 <= k < i ==> ParseModuleSpec(specs[1..][k], semver).Ok?;
    assert specs[i + 1] == specs[1..][i];
    forall k | 0 <= k < i + 1 ensures ParseModuleSpec(specs[k], semver).Ok? {
      if k > 0 { assert specs[k] == specs[1..][k - 1]; }
    }
  }

  // ---------------------------------------------------------------------------
  // Config (mod.ts:49-95)
  // ---------------------------------------------------------------------------

  /**
   * The configuration. `entry` is the JavaScript value the constructor stores:
   * the type annotation is not enforced, so it may be `undefined` or not a string.
   */
  datatype Config = Config(entry: Json, modules: seq<ScriptModule>, minify: bool, format: string, sourcemap: Option<string>)

  /** Which reading of mod.ts:64-66 a run follows: the text as written, or its evident intent (see `Entry`). */
  datatype EntryRule = AsWritten | Intended

  /** `Array.isArray(v) && v.every((mod) => typeof mod === "string") && v.length > 0` */
  predicate IsModuleList(v: Json)
  {
    v.Arr? && |v.elems| > 0 && forall i :: 0 <= i < |v.elems| ==> v.elems[i].Str?
  }

  function Strings(xs: seq<Json>): (r: seq<string>)
    requires forall i :: 0 <= i < |xs| ==> xs[i].Str?
    ensures |r| == |xs| && forall i :: 0 <= i < |xs| ==> xs[i] == Str(r[i])
  {
    seq(|xs|, i requires 0 <= i < |xs| => xs[i].str)
  }

  /**
   * mod.ts:64-66 as written: the guard tests `entryPoints` but the value copied
   * is `entry`, which may be absent or not a string.
   */
  function EntryAsWritten(c: Json): (e: Json)
    ensures Member(c, "entryPoints").Str? ==> e == Member(c, "entry")
    ensures !Member(c, "entryPoints").Str? ==> e == Str(DefaultEntry)
  {
    if Member(c, "entryPoints").Str? then Member(c, "entry") else Str(DefaultEntry)
  }

  /** Settings that name only an entry point leave the entry `undefined`, which then becomes the bundler's last argument. */
  lemma EntryPointsLost()
    ensures EntryAsWritten(Obj([("entryPoints", Str("main.ts"))])) == Undefined
  {
    assert "entryPoints" != "entry" by { assert |"entryPoints"| != |"entry"|; }
  }

  /** The entry as the guard intends it: the `entryPoints` string when that setting is one, else the default. */
  function Entry(c: Json): (e: string)
    ensures Member(c, "entryPoints").Str? ==> Str(e) == Member(c, "entryPoints")
    ensures !Member(c, "entryPoints").Str? ==> e == DefaultEntry
  {
    var v := Member(c, "entryPoints");
    if v.Str? then v.str else DefaultEntry
  }

  /** The entry a configuration gets under each reading. */
  function EntryBy(rule: EntryRule, c: Json): Json
  {
    match rule
    case AsWritten => EntryAsWritten(c)
    case Intended => Str(Entry(c))
  }

  /** mod.ts:56-94 -- the settings (the filter's first argument) turned into a configuration, the entry read by `rule`. */
  function ConfigFrom(rule: EntryRule, settings: Option<string>, parse: JsonParser, semver: Semver): (r: Result<Config, Failure>)
    ensures (settings.None? || settings == Some("")) <==> r == Err(SettingsUndefined)
    ensures r.Ok? ==> |r.value.modules| >= 1
  {
    if settings.None? || settings.value == "" then Err(SettingsUndefined)
    else
      match parse(settings.value)
      case Err(message) => Err(InvalidJson(message))
      case Ok(c) =>
        if IsNullish(c) then Err(PropertyOfNullish)
        else
          var mods := Member(c, "modules");
          if !IsModuleList(mods) then Err(ModulesRequired)
          else
            match ParseModules(Strings(mods.elems), semver)
            case Err(e) => Err(e)
            case Ok(modules) =>
              var minify := Member(c, "minify");
              var format := Member(c, "format");
              var sourcemap := Member(c, "sourcemap");
              Ok(Config(
                EntryBy(rule, c),
                modules,
                if minify.Bool? then minify.boolean else true,
                if format.Str? then format.str else DefaultFormat,
                if sourcemap.Str? then Some(sourcemap.str) else None))
  }

  /** Settings giving only the modules keep every default: entry `mod.ts`, minified, ESM, no source map. */
  lemma ConfigDefaults(rule: EntryRule, settings: string, parse: JsonParser, semver: Semver, specs: seq<Json>)
    requires settings != "" && parse(settings) == Ok(Obj([("modules", Arr(specs))]))
    requires IsModuleList(Arr(specs))
    requires ParseModules(Strings(specs), semver).Ok?
    ensures ConfigFrom(rule, Some(settings), parse, semver)
      == Ok(Config(Str(DefaultEntry), ParseModules(Strings(specs), semver).value, true, DefaultFormat, None))
  {
    assert "minify" != "modules" by { assert "minify"[1] != "modules"[1]; }
    assert "format" != "modules" by { assert "format"[0] != "modules"[0]; }
    assert "sourcemap" != "modules" by { assert "sourcemap"[0] != "modules"[0]; }
    assert "entryPoints" != "modules" by { assert "entryPoints"[0] != "modules"[0]; }
  }

  /**
   * The parsed settings decide the configuration: it exists exactly when the
   * modules setting is a non-empty list of strings that all parse, and each
   * other setting overrides its default only when it has the matching type.
   * A string `entryPoints` replaces the entry: as written by the `entry`
   * setting, whatever it holds; as intended by `entryPoints` itself.
   */
  lemma ConfigOverrides(rule: EntryRule, settings: string, parse: JsonParser, semver: Semver)
    requires settings != "" && parse(settings).Ok? && !IsNullish(parse(settings).value)
    ensures var c := parse(settings).value; var r := ConfigFrom(rule, Some(settings), parse, semver);
      r.Ok? <==> IsModuleList(Member(c, "modules")) && ParseModules(Strings(Member(c, "modules").elems), semver).Ok?
    ensures var c := parse(settings).value; var r := ConfigFrom(rule, Some(settings), parse, semver);
      r.Ok? ==>
        && (Member(c, "entryPoints").Str? && rule.AsWritten? ==> r.value.entry == Member(c, "entry"))
        && (Member(c, "entryPoints").Str? && rule.Intended? ==> r.value.entry == Member(c, "entryPoints"))
        && (!Member(c, "entryPoints").Str? ==> r.value.entry == Str(DefaultEntry))
        && (Member(c, "minify").Bool? ==> Bool(r.value.minify) == Member(c, "minify"))
        && (!Member(c, "minify").Bool? ==> r.value.minify)
        && (Member(c, "format").Str? ==> Str(r.value.format) == Member(c, "format"))
        && (!Member(c, "format").Str? ==> r.value.format == DefaultFormat)
        && (Member(c, "sourcemap").Str? <==> r.value.sourcemap.Some?)
        && (r.value.sourcemap.Some? ==> Str(r.value.sourcemap.value) == Member(c, "sourcemap"))
        && (forall i :: 0 <= i < |r.value.modules| ==>
              Member(c, "modules").elems[i].Str?
              && ParseModuleSpec(Member(c, "modules").elems[i].str, semver) == Ok(r.value.modules[i]))
  {
  }

  /**
   * mod.ts:56-94 -- the `Config` constructor, assigning each field over its
   * default; under `AsWritten` a string `entryPoints` makes it copy `entry`.
   */
  method LoadConfig(rule: EntryRule, settings: Option<string>, parse: JsonParser, semver: Semver) returns (r: Result<Config, Failure>)
    ensures r == ConfigFrom(rule, settings, parse, semver)
  {
    if settings.None? || settings.value == "" {
      return Err(SettingsUndefined);
    }
    var parsed := parse(settings.value);
    if parsed.Err? {
      return Err(InvalidJson(parsed.error));
    }
    var c := parsed.value;
    if IsNullish(c) {
      return Err(PropertyOfNullish);
    }
    var entry := Str(DefaultEntry);
    var minify := true;
    var format := DefaultFormat;
    var sourcemap: Option<string> := None;
    if Member(c, "entryPoints").Str? {
      if rule.AsWritten? {
        entry := Member(c, "entry");
      } else {
        entry := Member(c, "entryPoints");
      }
    }
    if Member(c, "minify").Bool? {
      minify := Member(c, "minify").boolean;
    }
    if Member(c, "format").Str? {
      format := Member(c, "format").str;
    }
    if Member(c, "sourcemap").Str? {
      sourcemap := Some(Member(c, "sourcemap").str);
    }
    var mods := Member(c, "modules");
    if !IsModuleList(mods) {
      return Err(ModulesRequired);
    }
    var modules := ParseModules(Strings(mods.elems), semver);
    if modules.Err? {
      return Err(modules.error);
    }
    r := Ok(Config(entry, modules.value, minify, format, sourcemap));
  }

  // ---------------------------------------------------------------------------
  // PartialManifest (mod.ts:111-198)
  // ---------------------------------------------------------------------------

  /** The merged manifest: its module list, its dependency list and every other key, in order. */
  datatype Manifest = Manifest(modules: seq<Json>, dependencies: seq<Json>, rest: seq<(string, Json)>)

  /** mod.ts:160-163 -- the dependency entry for a requested module. */
  function DependencyEntry(m: ScriptModule): Json
  {
    Obj([("module_name", Str(m.name)), ("version", Str(m.version))])
  }

  /** mod.ts:174-181 -- the script module the filter adds. */
  function ScriptModuleEntry(uuid: string): Json
  {
    Obj([("description", Str("Scripting")), ("type", Str("script")), ("uuid", Str(uuid)),
         ("language", Str("javascript")), ("version", Arr([Num(1), Num(0), Num(0)])), ("entry", Str(OutputFile))])
  }

  lemma DependencyEntryFields(m: ScriptModule)
    ensures Member(DependencyEntry(m), "module_name") == Str(m.name)
    ensures Member(DependencyEntry(m), "version") == Str(m.version)
  {
    var es := [("module_name", Str(m.name)), ("version", Str(m.version))];
    assert "version" != "module_name" by { assert "version"[0] != "module_name"[0]; }
    assert Lookup(es, "version") == Lookup(es[1..], "version");
  }

  lemma ScriptModuleEntryFields(uuid: string)
    ensures SameScriptModule(ScriptModuleEntry(uuid), uuid)
  {
    var es := ScriptModuleEntry(uuid).entries;
    assert "uuid" != "description" && "uuid" != "type" by {
      assert "uuid"[0] != "description"[0] && "uuid"[0] != "type"[0];
    }
    assert Lookup(es, "uuid") == Lookup(es[2..], "uuid") by {
      assert es[1..][1..] == es[2..];
    }
    assert "entry" != "description" && "entry" != "type" && "entry" != "uuid" && "entry" != "language" && "entry" != "version" by {
      assert "entry"[0] != "description"[0] && "entry"[0] != "type"[0] && "entry"[0] != "uuid"[0];
      assert "entry"[0] != "language"[0] && "entry"[0] != "version"[0];
    }
    assert Lookup(es, "entry") == Lookup(es[1..], "entry");
    assert es[1..][1..] == es[2..];
    assert Lookup(es[1..], "entry") == Lookup(es[2..], "entry");
    assert es[2..][1..] == es[3..];
    assert Lookup(es[2..], "entry") == Lookup(es[3..], "entry");
    assert es[3..][1..] == es[4..];
    assert Lookup(es[3..], "entry") == Lookup(es[4..], "entry");
    assert es[4..][1..] == es[5..];
    assert Lookup(es[4..], "entry") == Lookup(es[5..], "entry");
  }

  /** mod.ts:148-152 -- an existing dependency on the same module with a different string version. */
  predicate Conflicts(dep: Json, m: ScriptModule): (r: bool)
    ensures r ==> dep.Obj?
    ensures dep == DependencyEntry(m) ==> !r
  {
    DependencyEntryFields(m);
    Member(dep, "version").Str? && Member(dep, "module_name") == Str(m.name) && Member(dep, "version") != Str(m.version)
  }

  /** mod.ts:147-152 -- `this.dependencies.some(...)` for the requested module `m`. */
  function ConflictCheck(deps: seq<Json>, m: ScriptModule): Result<bool, Failure>
  {
    Any(deps, d => Conflicts(d, m))
  }

  /** mod.ts:167-169 -- an existing module with the filter's uuid and output entry. */
  predicate SameScriptModule(mod: Json, uuid: string)
  {
    Member(mod, "uuid") == Str(uuid) && Member(mod, "entry") == Str(OutputFile)
  }

  /** `xs.some(p)` where p reads properties of its argument: the first nullish element reached throws. */
  function Any(xs: seq<Json>, p: Json -> bool): (r: Result<bool, Failure>)
    ensures r.Err? ==> r.error == PropertyOfNullish
  {
    if xs == [] then Ok(false)
    else if IsNullish(xs[0]) then Err(PropertyOfNullish)
    else if p(xs[0]) then Ok(true)
    else Any(xs[1..], p)
  }

  /**
   * `some` answers false exactly when every element is read and none
   * satisfies p, and true exactly when one does with no nullish element before
   * it; otherwise it throws.
   */
  lemma {:induction false} AnyMeaning(xs: seq<Json>, p: Json -> bool)
    ensures Any(xs, p) == Ok(false) <==> forall i :: 0 <= i < |xs| ==> !IsNullish(xs[i]) && !p(xs[i])
    ensures Any(xs, p) == Ok(true) <==>
      exists i :: 0 <= i < |xs| && !IsNullish(xs[i]) && p(xs[i]) && forall k :: 0 <= k < i ==> !IsNullish(xs[k])
  {
    if xs == [] {
    } else if IsNullish(xs[0]) {
      assert !(forall i :: 0 <= i < |xs| ==> !IsNullish(xs[i]) && !p(xs[i]));
    } else if p(xs[0]) {
      assert 0 <= 0 < |xs| && !IsNullish(xs[0]) && p(xs[0]);
    } else {
      var t := xs[1..];
      AnyMeaning(t, p);
      assert Any(xs, p) == Any(t, p);
      assert forall i :: 1 <= i < |xs| ==> xs[i] == t[i - 1];
      if Any(t, p) == Ok(true) {
        var i :| 0 <= i < |t| && !IsNullish(t[i]) && p(t[i]) && forall k :: 0 <= k < i ==> !IsNullish(t[k]);
        assert 0 <= i + 1 < |xs| && !IsNullish(xs[i + 1]) && p(xs[i + 1]) && forall k :: 0 <= k < i + 1 ==> !IsNullish(xs[k]);
      }
      if exists i :: 0 <= i < |xs| && !IsNullish(xs[i]) && p(xs[i]) && forall k :: 0 <= k < i ==> !IsNullish(xs[k]) {
        var i :| 0 <= i < |xs| && !IsNullish(xs[i]) && p(xs[i]) && forall k :: 0 <= k < i ==> !IsNullish(xs[k]);
        assert i != 0;
        assert 0 <= i - 1 < |t| && !IsNullish(t[i - 1]) && p(t[i - 1]) && forall k :: 0 <= k < i - 1 ==> !IsNullish(t[k]);
      }
    }
  }

  /** mod.ts:145-165 -- the dependency loop: each requested module in turn is checked against the list as it stands, then appended. */
  function MergeDependencies(deps: seq<Json>, requested: seq<ScriptModule>): (r: Result<seq<Json>, Failure>)
    ensures r.Ok? ==> |r.value| == |deps| + |requested|
    ensures r.Err? ==> r.error == PropertyOfNullish || r.error.DependencyConflict?
    decreases |requested|
  {
    if requested == [] then Ok(deps)
    else
      var m := requested[0];
      match ConflictCheck(deps, m)
      case Err(e) => Err(e)
      case Ok(clash) =>
        if clash then Err(DependencyConflict(m.name))
        else MergeDependencies(deps + [DependencyEntry(m)], requested[1..])
  }

  /** The entries the dependency loop appends, one per requested module, in order. */
  function DependencyEntries(requested: seq<ScriptModule>): (r: seq<Json>)
    ensures |r| == |requested| && forall i :: 0 <= i < |requested| ==> r[i] == DependencyEntry(requested[i])
  {
    seq(|requested|, i requires 0 <= i < |requested| => DependencyEntry(requested[i]))
  }

  /** A successful merge keeps every existing dependency and appends exactly one entry per requested module, in order, duplicates included. */
  lemma {:induction false} MergeAppends(deps: seq<Json>, requested: seq<ScriptModule>)
    requires MergeDependencies(deps, requested).Ok?
    ensures MergeDependencies(deps, requested).value == deps + DependencyEntries(requested)
    decreases |requested|
  {
    if requested != [] {
      var m := requested[0];
      assert ConflictCheck(deps, m) == Ok(false);
      assert MergeDependencies(deps, requested) == MergeDependencies(deps + [DependencyEntry(m)], requested[1..]);
      MergeAppends(deps + [DependencyEntry(m)], requested[1..]);
      assert DependencyEntries(requested) == [DependencyEntry(m)] + DependencyEntries(requested[1..]);
    }
  }

  /**
   * The check the dependency loop makes for request i: against the manifest's
   * entries followed by those appended for the requests before it.
   */
  function CheckAt(deps: seq<Json>, requested: seq<ScriptModule>, i: nat): Result<bool, Failure>
    requires i < |requested|
  {
    ConflictCheck(deps + DependencyEntries(requested[..i]), requested[i])
  }

  /**
   * The merge stops at request i with failure e: every earlier check passed,
   * and this one found a conflict (reported under the module's name) or threw
   * on a nullish entry.
   */
  predicate RejectedAt(deps: seq<Json>, requested: seq<ScriptModule>, i: nat, e: Failure)
  {
    && i < |requested|
    && (forall j :: 0 <= j < i ==> CheckAt(deps, requested, j) == Ok(false))
    && ((CheckAt(deps, requested, i) == Ok(true) && e == DependencyConflict(requested[i].name))
        || (CheckAt(deps, requested, i).Err? && e == PropertyOfNullish))
  }

  /** Request i + 1 is checked against the list the loop has once request 0 is appended. */
  lemma CheckShift(deps: seq<Json>, requested: seq<ScriptModule>, i: nat)
    requires i + 1 < |requested|
    ensures CheckAt(deps, requested, i + 1) == CheckAt(deps + [DependencyEntry(requested[0])], requested[1..], i)
  {
    var t := requested[1..];
    var head := DependencyEntries(requested[..i + 1]);
    var tail := DependencyEntries(t[..i]);
    assert head == [DependencyEntry(requested[0])] + tail by {
      assert |head| == 1 + |tail|;
      forall k | 0 <= k < |head| ensures head[k] == ([DependencyEntry(requested[0])] + tail)[k] {
        if k > 0 { assert requested[..i + 1][k] == t[..i][k - 1]; }
      }
    }
    assert deps + head == (deps + [DependencyEntry(requested[0])]) + tail;
    assert requested[i + 1] == t[i];
  }

  /** Once request 0 passes, the loop goes on with its entry appended, and the later checks are those of that smaller merge. */
  lemma MergeStep(deps: seq<Json>, requested: seq<ScriptModule>)
    requires requested != [] && ConflictCheck(deps, requested[0]) == Ok(false)
    ensures var grown := deps + [DependencyEntry(requested[0])];
      && MergeDependencies(deps, requested) == MergeDependencies(grown, requested[1..])
      && forall i :: 0 <= i < |requested| - 1 ==> CheckAt(deps, requested, i + 1) == CheckAt(grown, requested[1..], i)
  {
    var grown := deps + [DependencyEntry(requested[0])];
    forall i | 0 <= i < |requested| - 1 ensures CheckAt(deps, requested, i + 1) == CheckAt(grown, requested[1..], i) {
      CheckShift(deps, requested, i);
    }
  }

  /** Request 0 is checked against the manifest's own entries. */
  lemma CheckFirst(deps: seq<Json>, requested: seq<ScriptModule>)
    requires requested != []
    ensures CheckAt(deps, requested, 0) == ConflictCheck(deps, requested[0])
  {
    assert deps + DependencyEntries(requested[..0]) == deps;
  }

  /**
   * When the dependency loop succeeds: exactly when every request passes its
   * check against the list as it stands then, appended entries included.
   */
  lemma {:induction false} MergeSucceedsIff(deps: seq<Json>, requested: seq<ScriptModule>)
    ensures MergeDependencies(deps, requested).Ok? <==>
      forall i :: 0 <= i < |requested| ==> CheckAt(deps, requested, i) == Ok(false)
    decreases |requested|
  {
    if requested != [] {
      CheckFirst(deps, requested);
      if ConflictCheck(deps, requested[0]) == Ok(false) {
        var grown := deps + [DependencyEntry(requested[0])];
        var t := requested[1..];
        MergeStep(deps, requested);
        MergeSucceedsIff(grown, t);
        if forall i :: 0 <= i < |t| ==> CheckAt(grown, t, i) == Ok(false) {
          forall i | 0 <= i < |requested| ensures CheckAt(deps, requested, i) == Ok(false) {
            if i > 0 { assert CheckAt(grown, t, i - 1) == Ok(false); }
          }
        } else {
          var i :| 0 <= i < |t| && CheckAt(grown, t, i) != Ok(false);
          assert CheckAt(deps, requested, i + 1) != Ok(false);
        }
      }
    }
  }

  /** Where a failing dependency loop stops: at the first request that does not pass, with that request's failure. */
  lemma {:induction false} MergeRejectsAt(deps: seq<Json>, requested: seq<ScriptModule>)
    requires MergeDependencies(deps, requested).Err?
    ensures exists i :: 0 <= i && RejectedAt(deps, requested, i, MergeDependencies(deps, requested).error)
    decreases |requested|
  {
    CheckFirst(deps, requested);
    var e := MergeDependencies(deps, requested).error;
    if ConflictCheck(deps, requested[0]) == Ok(false) {
      var grown := deps + [DependencyEntry(requested[0])];
      var t := requested[1..];
      MergeStep(deps, requested);
      MergeRejectsAt(grown, t);
      var i :| 0 <= i && RejectedAt(grown, t, i, e);
      forall j | 0 <= j < i + 1 ensures CheckAt(deps, requested, j) == Ok(false) {
        if j > 0 { assert CheckAt(grown, t, j - 1) == Ok(false); }
      }
      assert CheckAt(deps, requested, i + 1) == CheckAt(grown, t, i);
      assert requested[i + 1] == t[i];
      assert RejectedAt(deps, requested, i + 1, e);
    } else {
      assert RejectedAt(deps, requested, 0, e);
    }
  }

  /** A merge fails on a conflict with the manifest's own entries, before anything is appended. */
  lemma MergeRejectsExisting(deps: seq<Json>, requested: seq<ScriptModule>)
    requires requested != [] && ConflictCheck(deps, requested[0]) == Ok(true)
    ensures MergeDependencies(deps, requested) == Err(DependencyConflict(requested[0].name))
  {
  }

  /** The check sees entries appended earlier in the same loop: two requests for one module at different versions are rejected. */
  lemma MergeRejectsVersionClash(deps: seq<Json>, a: ScriptModule, b: ScriptModule)
    requires a.name == b.name && a.version != b.version
    requires ConflictCheck(deps, a) == Ok(false)
    requires forall i :: 0 <= i < |deps| ==> !IsNullish(deps[i])
    ensures MergeDependencies(deps, [a, b]) == Err(DependencyConflict(b.name))
  {
    var grown := deps + [DependencyEntry(a)];
    var p := (d: Json) => Conflicts(d, b);
    DependencyEntryFields(a);
    assert grown[|deps|] == DependencyEntry(a);
    assert p(grown[|deps|]);
    assert forall k :: 0 <= k < |deps| ==> !IsNullish(grown[k]) by {
      forall k | 0 <= k < |deps| ensures !IsNullish(grown[k]) { assert grown[k] == deps[k]; }
    }
    AnyMeaning(grown, p);
    assert 0 <= |deps| < |grown| && !IsNullish(grown[|deps|]) && p(grown[|deps|])
      && forall k :: 0 <= k < |deps| ==> !IsNullish(grown[k]);
    assert Any(grown, p) == Ok(true);
    assert [a, b][1..] == [b];
    assert MergeDependencies(deps, [a, b]) == MergeDependencies(grown, [b]);
  }

  /** mod.ts:167-182 -- the module check and the appended script module. */
  function AddScriptModule(modules: seq<Json>, uuid: string): (r: Result<seq<Json>, Failure>)
    ensures r.Ok? <==> Any(modules, m => SameScriptModule(m, uuid)) == Ok(false)
    ensures r.Ok? ==> r.value == modules + [ScriptModuleEntry(uuid)]
    ensures Any(modules, m => SameScriptModule(m, uuid)) == Ok(true) ==> r == Err(ModuleExists)
  {
    match Any(modules, m => SameScriptModule(m, uuid))
    case Err(e) => Err(e)
    case Ok(exists_) => if exists_ then Err(ModuleExists) else Ok(modules + [ScriptModuleEntry(uuid)])
  }

  /** Merging a second time with the same uuid is rejected: the module list already holds the filter's script module. */
  lemma AddScriptModuleOnce(modules: seq<Json>, uuid: string)
    requires AddScriptModule(modules, uuid).Ok?
    ensures AddScriptModule(AddScriptModule(modules, uuid).value, uuid) == Err(ModuleExists)
  {
    var grown := modules + [ScriptModuleEntry(uuid)];
    var p := (m: Json) => SameScriptModule(m, uuid);
    AnyMeaning(modules, p);
    ScriptModuleEntryFields(uuid);
    assert grown[|modules|] == ScriptModuleEntry(uuid);
    assert p(grown[|modules|]);
    assert forall k :: 0 <= k < |modules| ==> !IsNullish(grown[k]) by {
      forall k | 0 <= k < |modules| ensures !IsNullish(grown[k]) { assert grown[k] == modules[k]; }
    }
    AnyMeaning(grown, p);
    assert 0 <= |modules| < |grown| && !IsNullish(grown[|modules|]) && p(grown[|modules|])
      && forall k :: 0 <= k < |modules| ==> !IsNullish(grown[k]);
    assert Any(grown, p) == Ok(true);
  }

  /** The keys the manifest merge rebuilds itself. */
  predicate Kept(key: string)
  {
    key != "modules" && key != "dependencies"
  }

  /** mod.ts:184-188 -- the manifest's other entries, in order. */
  function RestOf(entries: seq<(string, Json)>): (r: seq<(string, Json)>)
    ensures |r| <= |entries|
    ensures forall i :: 0 <= i < |r| ==> Kept(r[i].0)
  {
    if entries == [] then []
    else
      var last := entries[|entries| - 1];
      RestOf(entries[..|entries| - 1]) + (if Kept(last.0) then [last] else [])
  }

  /** The rest holds every other key of the manifest, with the value the manifest has for it. */
  lemma {:induction false} RestOfLookup(entries: seq<(string, Json)>, key: string)
    requires Kept(key)
    ensures HasKey(RestOf(entries), key) <==> HasKey(entries, key)
    ensures Lookup(RestOf(entries), key) == Lookup(entries, key)
  {
    if entries != [] {
      var init := entries[..|entries| - 1];
      var last := entries[|entries| - 1];
      var tail := if Kept(last.0) then [last] else [];
      RestOfLookup(init, key);
      assert entries == init + [last];
      LookupAppend(init, [last], key);
      LookupAppend(RestOf(init), tail, key);
      HasKeyAppend(init, [last], key);
      HasKeyAppend(RestOf(init), tail, key);
    }
  }

  lemma HasKeyAppend(a: seq<(string, Json)>, b: seq<(string, Json)>, key: string)
    ensures HasKey(a + b, key) <==> HasKey(a, key) || HasKey(b, key)
  {
    if HasKey(a + b, key) {
      var i :| 0 <= i < |a + b| && (a + b)[i].0 == key;
      if i >= |a| { assert b[i - |a|].0 == key; }
    }
    if HasKey(b, key) {
      var i :| 0 <= i < |b| && b[i].0 == key;
      assert (a + b)[|a| + i].0 == key;
    }
    if HasKey(a, key) {
      var i :| 0 <= i < |a| && a[i].0 == key;
      assert (a + b)[i].0 == key;
    }
  }

  /** An absent list field starts empty; any other non-array value is rejected. */
  function ListField(v: Json, key: string, failure: Failure): (r: Result<seq<Json>, Failure>)
    ensures Member(v, key).Undefined? ==> r == Ok([])
    ensures Member(v, key).Arr? ==> r == Ok(Member(v, key).elems)
    ensures !Member(v, key).Undefined? && !Member(v, key).Arr? ==> r == Err(failure)
  {
    var f := Member(v, key);
    if f.Undefined? then Ok([]) else if f.Arr? then Ok(f.elems) else Err(failure)
  }

  /**
   * mod.ts:116-189 -- the manifest merge. The manifest file's text is None when
   * the file does not exist; a manifest that is not an object stops the script.
   */
  function PartialManifestOf(requested: seq<ScriptModule>, uuid: string, manifestText: Option<string>, parse: JsonParser)
    : (r: Result<Manifest, Failure>)
    ensures manifestText.None? ==> r == Err(ManifestMissing)
  {
    if manifestText.None? then Err(ManifestMissing)
    else
      match parse(manifestText.value)
      case Err(message) => Err(InvalidJson(message))
      case Ok(v) =>
        if !v.Obj? then Err(ManifestNotObject)
        else
          match ListField(v, "dependencies", DependenciesNotArray)
          case Err(e) => Err(e)
          case Ok(deps) =>
            match ListField(v, "modules", ModulesNotArray)
            case Err(e) => Err(e)
            case Ok(mods) =>
              match MergeDependencies(deps, requested)
              case Err(e) => Err(e)
              case Ok(merged) =>
                match AddScriptModule(mods, uuid)
                case Err(e) => Err(e)
                case Ok(added) => Ok(Manifest(added, merged, RestOf(v.entries)))
  }

  /** mod.ts:191-197 -- `toJSON`: the other keys, then `modules`, then `dependencies`. */
  function ToJson(m: Manifest): (r: Json)
    ensures r.Obj?
    ensures !HasKey(m.rest, "modules") ==> Member(r, "modules") == Arr(m.modules)
    ensures !HasKey(m.rest, "dependencies") ==> Member(r, "dependencies") == Arr(m.dependencies)
  {
    var tail := [("modules", Arr(m.modules)), ("dependencies", Arr(m.dependencies))];
    LookupAppend(m.rest, tail, "modules");
    LookupAppend(m.rest, tail, "dependencies");
    assert "dependencies" != "modules" by { assert "dependencies"[0] != "modules"[0]; }
    assert Lookup(tail, "dependencies") == Lookup(tail[1..], "dependencies");
    Obj(m.rest + tail)
  }

  /**
   * What a successful merge writes back: every other key of the manifest with
   * its value, the manifest's modules plus the script module, and the
   * manifest's dependencies plus one entry per requested module.
   */
  lemma PartialManifestWritten(requested: seq<ScriptModule>, uuid: string, text: string, parse: JsonParser)
    requires PartialManifestOf(requested, uuid, Some(text), parse).Ok?
    ensures parse(text).Ok? && parse(text).value.Obj?
    ensures var v := parse(text).value; var out := ToJson(PartialManifestOf(requested, uuid, Some(text), parse).value);
      && (forall key :: Kept(key) ==> Member(out, key) == Member(v, key))
      && Member(out, "modules") == Arr(ListField(v, "modules", ModulesNotArray).value + [ScriptModuleEntry(uuid)])
      && Member(out, "dependencies") == Arr(ListField(v, "dependencies", DependenciesNotArray).value + DependencyEntries(requested))
  {
    var v := parse(text).value;
    var m := PartialManifestOf(requested, uuid, Some(text), parse).value;
    var deps := ListField(v, "dependencies", DependenciesNotArray).value;
    MergeAppends(deps, requested);
    var tail := [("modules", Arr(m.modules)), ("dependencies", Arr(m.dependencies))];
    forall key | Kept(key) ensures Member(ToJson(m), key) == Member(v, key) {
      RestOfLookup(v.entries, key);
      LookupAppend(m.rest, tail, key);
      if !HasKey(m.rest, key) {
        assert Lookup(tail, key) == Undefined;
      }
    }
    assert !HasKey(m.rest, "modules") && !HasKey(m.rest, "dependencies");
    LookupAppend(m.rest, tail, "modules");
    LookupAppend(m.rest, tail, "dependencies");
    assert "modules" != "dependencies" by { assert "modules"[0] != "dependencies"[0]; }
  }

  /** mod.ts:116-189 -- the `PartialManifest` constructor: the two list fields, the dependency loop, the module check and the loop copying the other keys. */
  method NewPartialManifest(requested: seq<ScriptModule>, uuid: string, manifestText: Option<string>, parse: JsonParser)
    returns (r: Result<Manifest, Failure>)
    ensures r == PartialManifestOf(requested, uuid, manifestText, parse)
  {
    if manifestText.None? {
      return Err(ManifestMissing);
    }
    var parsed := parse(manifestText.value);
    if parsed.Err? {
      return Err(InvalidJson(parsed.error));
    }
    var manifest := parsed.value;
    if !manifest.Obj? {
      return Err(ManifestNotObject);
    }
    var dependencies: seq<Json>;
    var field := Member(manifest, "dependencies");
    if field.Undefined? {
      dependencies := [];
    } else if !field.Arr? {
      return Err(DependenciesNotArray);
    } else {
      dependencies := field.elems;
    }
    var modules: seq<Json>;
    field := Member(manifest, "modules");
    if field.Undefined? {
      modules := [];
    } else if !field.Arr? {
      return Err(ModulesNotArray);
    } else {
      modules := field.elems;
    }
    var merged := PushDependencies(dependencies, requested);
    if merged.Err? {
      return Err(merged.error);
    }
    dependencies := merged.value;
    var present := Any(modules, mod => SameScriptModule(mod, uuid));
    if present.Err? {
      return Err(present.error);
    }
    if present.value {
      return Err(ModuleExists);
    }
    modules := modules + [ScriptModuleEntry(uuid)];
    var rest := CopyRest(manifest.entries);
    r := Ok(Manifest(modules, dependencies, rest));
  }

  /** mod.ts:145-165 -- the dependency loop: each module is checked against the list as it stands, then pushed. */
  method PushDependencies(deps: seq<Json>, requested: seq<ScriptModule>) returns (r: Result<seq<Json>, Failure>)
    ensures r == MergeDependencies(deps, requested)
  {
    var dependencies := deps;
    var i := 0;
    while i < |requested|
      invariant 0 <= i <= |requested|
      invariant MergeDependencies(dependencies, requested[i..]) == MergeDependencies(deps, requested)
    {
      var m := requested[i];
      assert requested[i..][1..] == requested[i + 1..];
      var clash := ConflictCheck(dependencies, m);
      if clash.Err? {
        return Err(clash.error);
      }
      if clash.value {
        return Err(DependencyConflict(m.name));
      }
      dependencies := dependencies + [DependencyEntry(m)];
      i := i + 1;
    }
    return Ok(dependencies);
  }

  /** mod.ts:184-188 -- the loop copying every key other than `modules` and `dependencies` into `rest`. */
  method CopyRest(entries: seq<(string, Json)>) returns (rest: seq<(string, Json)>)
    ensures rest == RestOf(entries)
  {
    rest := [];
    var j := 0;
    while j < |entries|
      invariant 0 <= j <= |entries|
      invariant rest == RestOf(entries[..j])
    {
      assert entries[..j + 1][..j] == entries[..j];
      if Kept(entries[j].0) {
        rest := rest + [entries[j]];
      }
      j := j + 1;
    }
    assert entries[..j] == entries;
  }

  // ---------------------------------------------------------------------------
  // The bundler invocation (mod.ts:209-222)
  // ---------------------------------------------------------------------------

  /** `modules.flatMap((mod) => ["--external", mod.name])` */
  function Externals(modules: seq<ScriptModule>): (r: seq<string>)
    ensures |r| == 2 * |modules|
  {
    if modules == [] then []
    else Externals(modules[..|modules| - 1]) + ["--external", modules[|modules| - 1].name]
  }

  /** The pairs come one per module, in order: `--external` and then the module's name. */
  lemma {:induction false} ExternalsPairs(modules: seq<ScriptModule>)
    ensures forall i :: 0 <= i < |modules| ==>
      Externals(modules)[2 * i] == "--external" && Externals(modules)[2 * i + 1] == modules[i].name
  {
    if modules != [] {
      var init := modules[..|modules| - 1];
      ExternalsPairs(init);
      var r := Externals(modules);
      forall i | 0 <= i < |modules| ensures r[2 * i] == "--external" && r[2 * i + 1] == modules[i].name {
        if i < |init| {
          assert r[2 * i] == Externals(init)[2 * i] && r[2 * i + 1] == Externals(init)[2 * i + 1];
          assert modules[i] == init[i];
        }
      }
    }
  }

  /** The JavaScript strings `xs` holds, in order. */
  function Texts(xs: seq<string>): (r: seq<Json>)
    ensures |r| == |xs| && forall i :: 0 <= i < |xs| ==> r[i] == Str(xs[i])
  {
    seq(|xs|, i requires 0 <= i < |xs| => Str(xs[i]))
  }

  /** mod.ts:210-221 -- the bundler's arguments before the entry, all strings. */
  function BundleTexts(config: Config, output: string): (texts: seq<string>)
    ensures |texts| >= 5
  {
    ["bundle", "--output", output, "--format", config.format]
    + (if config.minify then ["--minify"] else [])
    + (if config.sourcemap.Some? && config.sourcemap.value != "" then ["--sourcemap=" + config.sourcemap.value] else [])
    + Externals(config.modules)
  }

  /**
   * mod.ts:210-222 -- the bundler's arguments for a configuration and the
   * resolved output file, as the JavaScript values of the `args` array: every
   * one a string except perhaps the entry.
   */
  function BundleArgList(config: Config, output: string): (args: seq<Json>)
    ensures |args| == |BundleTexts(config, output)| + 1 && args[|args| - 1] == config.entry
    ensures forall k :: 0 <= k < |args| - 1 ==> args[k] == Str(BundleTexts(config, output)[k])
  {
    Texts(BundleTexts(config, output)) + [config.entry]
  }

  /**
   * The argument order: `bundle --output <out> --format <fmt>`, then the flags
   * that apply, then one `--external <name>` pair per module in order; the
   * entry follows them (`BundleArgList`).
   */
  lemma BundleArgOrder(config: Config, output: string)
    ensures var texts := BundleTexts(config, output);
      var flags := (if config.minify then 1 else 0)
        + (if config.sourcemap.Some? && config.sourcemap.value != "" then 1 else 0);
      && |texts| == 5 + flags + 2 * |config.modules|
      && texts[..5] == ["bundle", "--output", output, "--format", config.format]
      && (config.minify ==> texts[5] == "--minify")
      && (config.sourcemap.Some? && config.sourcemap.value != "" ==>
            texts[4 + flags] == "--sourcemap=" + config.sourcemap.value)
      && (forall i :: 0 <= i < |config.modules| ==>
            texts[5 + flags + 2 * i] == "--external" && texts[5 + flags + 2 * i + 1] == config.modules[i].name)
  {
    var texts := BundleTexts(config, output);
    var head := ["bundle", "--output", output, "--format", config.format]
      + (if config.minify then ["--minify"] else [])
      + (if config.sourcemap.Some? && config.sourcemap.value != "" then ["--sourcemap=" + config.sourcemap.value] else []);
    var ext := Externals(config.modules);
    ExternalsPairs(config.modules);
    assert texts == head + ext;
    forall i | 0 <= i < |config.modules|
      ensures texts[|head| + 2 * i] == "--external" && texts[|head| + 2 * i + 1] == config.modules[i].name
    {
      assert texts[|head| + 2 * i] == ext[2 * i];
      assert texts[|head| + 2 * i + 1] == ext[2 * i + 1];
    }
  }

  /** mod.ts:209-222 -- `bundleArgs`, built by successive pushes. */
  method BundleArgs(config: Config, output: string) returns (args: seq<Json>)
    ensures args == BundleArgList(config, output)
  {
    var texts := ["bundle", "--output", output, "--format", config.format];
    if config.minify {
      texts := texts + ["--minify"];
    }
    if config.sourcemap.Some? && config.sourcemap.value != "" {
      texts := texts + ["--sourcemap=" + config.sourcemap.value];
    }
    texts := texts + Externals(config.modules);
    args := Texts(texts) + [config.entry];
  }


  /** What a run produces: the manifest to write to BP/manifest.json and the bundler's arguments. */
  datatype Outcome = Outcome(manifest: Json, bundleArgs: seq<Json>)

  /** mod.ts:200-231 -- the whole filter: settings, manifest merge, bundler arguments. */
  function RunOf(rule: EntryRule, settings: Option<string>, parse: JsonParser, semver: Semver, uuid: string,
                 manifestText: Option<string>, cwd: string): (r: Result<Outcome, Failure>)
    ensures ConfigFrom(rule, settings, parse, semver).Err? ==> r == Err(ConfigFrom(rule, settings, parse, semver).error)
    ensures manifestText.None? && ConfigFrom(rule, settings, parse, semver).Ok? ==> r == Err(ManifestMissing)
  {
    match ConfigFrom(rule, settings, parse, semver)
    case Err(e) => Err(e)
    case Ok(config) =>
      match PartialManifestOf(config.modules, uuid, manifestText, parse)
      case Err(e) => Err(e)
      case Ok(m) =>
        Ok(Outcome(ToJson(m), BundleArgList(config, Paths.Join(Paths.Join(cwd, PackDir), OutputFile))))
  }

  /** A run that succeeds writes a manifest holding the filter's script module and invokes the bundler on the configured entry. */
  lemma RunWritesScriptModule(rule: EntryRule, settings: Option<string>, parse: JsonParser, semver: Semver, uuid: string,
                              text: string, cwd: string)
    requires RunOf(rule, settings, parse, semver, uuid, Some(text), cwd).Ok?
    ensures var out := RunOf(rule, settings, parse, semver, uuid, Some(text), cwd).value;
      && Member(out.manifest, "modules").Arr?
      && |Member(out.manifest, "modules").elems| >= 1
      && Member(out.manifest, "modules").elems[|Member(out.manifest, "modules").elems| - 1] == ScriptModuleEntry(uuid)
      && out.bundleArgs[|out.bundleArgs| - 1] == ConfigFrom(rule, settings, parse, semver).value.entry
  {
    var config := ConfigFrom(rule, settings, parse, semver).value;
    PartialManifestWritten(config.modules, uuid, text, parse);
  }

  /**
   * The script as written hands the bundler `undefined` for its entry when the
   * settings name an entry point but no `entry`.
   */
  lemma EntryPointsLostInRun(settings: string, parse: JsonParser, semver: Semver, uuid: string, text: string, cwd: string,
                             entryPoint: string, specs: seq<Json>)
    requires settings != "" && parse(settings) == Ok(Obj([("entryPoints", Str(entryPoint)), ("modules", Arr(specs))]))
    requires RunOf(AsWritten, Some(settings), parse, semver, uuid, Some(text), cwd).Ok?
    ensures var out := RunOf(AsWritten, Some(settings), parse, semver, uuid, Some(text), cwd).value;
      out.bundleArgs[|out.bundleArgs| - 1] == Undefined
  {
    RunWritesScriptModule(AsWritten, Some(settings), parse, semver, uuid, text, cwd);
    var c := Obj([("entryPoints", Str(entryPoint)), ("modules", Arr(specs))]);
    assert "entryPoints" != "entry" by { assert |"entryPoints"| != |"entry"|; }
    assert "modules" != "entry" by { assert "modules"[0] != "entry"[0]; }
    assert Member(c, "entryPoints") == Str(entryPoint);
    assert Member(c, "entry") == Undefined;
  }

  /** mod.ts:200-231 -- the filter's main block. */
  method Run(rule: EntryRule, settings: Option<string>, parse: JsonParser, semver: Semver, uuid: string,
             manifestText: Option<string>, cwd: string) returns (r: Result<Outcome, Failure>)
    ensures r == RunOf(rule, settings, parse, semver, uuid, manifestText, cwd)
  {
    var config := LoadConfig(rule, settings, parse, semver);
    if config.Err? {
      return Err(config.error);
    }
    var manifest := NewPartialManifest(config.value.modules, uuid, manifestText, parse);
    if manifest.Err? {
      return Err(manifest.error);
    }
    var output := Paths.Join(Paths.Join(cwd, PackDir), OutputFile);
    var args := BundleArgs(config.value, output);
    r := Ok(Outcome(ToJson(manifest.value), args));
  }
}
