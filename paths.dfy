/**
 * The POSIX path helpers the scripts call (`extname`, `basename`, `dirname`,
 * `join`), on paths with `/` as separator.
 */
module Paths {
  import opened Wrappers
  import opened Text

  const Sep: char := '/'

  /** Index of the last separator in p, if any. */
  function LastSep(p: string): (r: Option<nat>)
    ensures r.Some? ==> r.value < |p| && p[r.value] == Sep
    ensures r.Some? ==> forall j :: r.value < j < |p| ==> p[j] != Sep
    ensures r.None? ==> forall j :: 0 <= j < |p| ==> p[j] != Sep
  {
    if p == [] then None
    else if p[|p| - 1] == Sep then Some(|p| - 1)
    else LastSep(p[..|p| - 1])
  }

  /** The last path segment: everything after the last separator. */
  function Basename(p: string): (r: string)
    ensures forall j :: 0 <= j < |r| ==> r[j] != Sep
    ensures EndsWith(p, r)
  {
    match LastSep(p)
    case None => p
    case Some(k) => p[k + 1..]
  }

  /** `basename(p, suffix)`: the last segment with `suffix` removed when it ends with it (case-sensitively) and is longer. */
  function BasenameWithout(p: string, suffix: string): (r: string)
    ensures var b := Basename(p);
      if |suffix| < |b| && EndsWith(b, suffix) then b == r + suffix else r == b
  {
    var b := Basename(p);
    if |suffix| < |b| && EndsWith(b, suffix) then b[..|b| - |suffix|] else b
  }

  /** Drops trailing separators but never the first character. */
  function TrimTrailingSeps(p: string): (r: string)
    ensures |r| <= |p| && r == p[..|r|]
    ensures |p| > 0 ==> |r| > 0
    ensures |r| > 1 ==> r[|r| - 1] != Sep
  {
    if |p| > 1 && p[|p| - 1] == Sep then TrimTrailingSeps(p[..|p| - 1]) else p
  }

  /** `dirname(p)`: "." without a separator, "/" for a top-level entry, else the prefix before the last separator. */
  function Dirname(p: string): string
  {
    match LastSep(p)
    case None => "."
    case Some(k) => if k == 0 then [Sep] else TrimTrailingSeps(p[..k])
  }

  /** Index of the last '.' in s, if any. */
  function LastDot(s: string): (r: Option<nat>)
    ensures r.Some? ==> r.value < |s| && s[r.value] == '.'
    ensures r.Some? ==> forall j :: r.value < j < |s| ==> s[j] != '.'
    ensures r.None? ==> forall j :: 0 <= j < |s| ==> s[j] != '.'
  {
    if s == [] then None
    else if s[|s| - 1] == '.' then Some(|s| - 1)
    else LastDot(s[..|s| - 1])
  }

  /** `extname(p)`: from the last '.' of the last segment, unless that '.' opens the segment (or the segment is ".."). */
  function Extname(p: string): string
  {
    var b := Basename(p);
    match LastDot(b)
    case None => ""
    case Some(k) => if k == 0 || b == ".." then "" else b[k..]
  }

  /** `join(dir, name)` for a normalised directory and a plain name. */
  function Join(dir: string, name: string): string
  {
    if dir == "." then name
    else if EndsWith(dir, [Sep]) then dir + name
    else dir + [Sep] + name
  }

  /** The extension of p is `ext` exactly when the last segment ends with it after at least one other character. */
  lemma ExtnameIs(p: string, ext: string)
    requires |ext| >= 2 && ext[0] == '.'
    requires forall j :: 1 <= j < |ext| ==> ext[j] != '.' && ext[j] != Sep
    ensures Extname(p) == ext <==> |ext| < |Basename(p)| && EndsWith(Basename(p), ext)
  {
    var b := Basename(p);
    if |ext| < |b| && EndsWith(b, ext) {
      var k := |b| - |ext|;
      assert b[k] == '.';
      forall j | k < j < |b| ensures b[j] != '.' { assert b[j] == ext[j - k]; }
      LastDotAt(b, k);
      assert b[k..] == ext;
    }
    if Extname(p) == ext {
      var k :| LastDot(b) == Some(k);
      assert b[k..] == ext;
    }
  }

  lemma LastDotAt(s: string, k: nat)
    requires k < |s| && s[k] == '.'
    requires forall j :: k < j < |s| ==> s[j] != '.'
    ensures LastDot(s) == Some(k)
  {
    if k < |s| - 1 {
      assert s[..|s| - 1][k] == '.';
      LastDotAt(s[..|s| - 1], k);
    }
  }

  /** Appending a separator-free name behind a separator places the name last. */
  lemma BasenameAfterSep(d: string, name: string)
    requires forall j :: 0 <= j < |name| ==> name[j] != Sep
    ensures Basename(d + [Sep] + name) == name
  {
    var p := d + [Sep] + name;
    LastSepAt(p, |d|);
  }

  lemma LastSepAt(p: string, k: nat)
    requires k < |p| && p[k] == Sep
    requires forall j :: k < j < |p| ==> p[j] != Sep
    ensures LastSep(p) == Some(k)
  {
    if k < |p| - 1 {
      assert p[..|p| - 1][k] == Sep;
      LastSepAt(p[..|p| - 1], k);
    }
  }
}
