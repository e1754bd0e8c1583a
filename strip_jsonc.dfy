/**
 * The relaxed-JSON normaliser of the worker: three global regular-expression
 * rewrites applied in order (block comments, line comments, trailing commas).
 * Each rewrite is modelled as the left-to-right scan that a global JavaScript
 * `replace` performs: try to match at the current position; on a match, emit the
 * replacement and resume after the match; otherwise keep one character and move on.
 */
module StripJsonc {
  import opened Wrappers
  import opened Text

  // ---------------------------------------------------------------------------
  // Pass 1: /\/\*[\s\S]*?\*\//g  replaced by ''
  // ---------------------------------------------------------------------------

  // `/*` starts at index i.
  predicate OpensAt(s: string, i: int)
  {
    0 <= i && i + 1 < |s| && s[i] == '/' && s[i + 1] == '*'
  }

  // `*/` starts at index i.
  predicate ClosesAt(s: string, i: int)
  {
    0 <= i && i + 1 < |s| && s[i] == '*' && s[i + 1] == '/'
  }

  // The nearest `*/` starting at or after k (the lazy `[\s\S]*?` stops there).
  function FindClose(s: string, k: nat): (r: Option<nat>)
    ensures r.Some? ==> k <= r.value && ClosesAt(s, r.value)
    ensures r.Some? ==> forall j :: k <= j < r.value ==> !ClosesAt(s, j)
    ensures r.None? ==> forall j :: k <= j ==> !ClosesAt(s, j)
    decreases |s| - k
  {
    if k + 1 >= |s| then None
    else if s[k] == '*' && s[k + 1] == '/' then Some(k)
    else FindClose(s, k + 1)
  }

  /** worker.ts:60 -- the block-comment pass. */
  function StripBlockComments(s: string): (r: string)
    ensures |r| <= |s|
    decreases |s|
  {
    if s == [] then []
    else if OpensAt(s, 0) && FindClose(s, 2).Some? then
      StripBlockComments(s[FindClose(s, 2).value + 2..])
    else [s[0]] + StripBlockComments(s[1..])
  }

  // A `/*` with no `*/` after it stays: text in which no `*/` starts at or after
  // the body start of a `/*` passes unchanged (so `/*/` is kept as well).
  lemma {:induction false} BlockUnterminatedKept(s: string)
    requires forall i, j :: OpensAt(s, i) && i + 2 <= j ==> !ClosesAt(s, j)
    ensures StripBlockComments(s) == s
  {
    if s != [] {
      if OpensAt(s, 0) {
        assert FindClose(s, 2).None?;
      }
      var t := s[1..];
      forall i, j | OpensAt(t, i) && i + 2 <= j ensures !ClosesAt(t, j) {
        assert OpensAt(s, i + 1);
        assert !ClosesAt(s, j + 1);
      }
      BlockUnterminatedKept(t);
      assert s == [s[0]] + t;
    }
  }

  /** Text that opens no comment is copied, and the scan then continues on what follows. */
  lemma {:induction false} BlockPlainPrefix(x: string, z: string)
    requires forall i :: !OpensAt(x, i)
    requires x != [] && x[|x| - 1] == '/' ==> z == [] || z[0] != '*'
    ensures StripBlockComments(x + z) == x + StripBlockComments(z)
    decreases |x|
  {
    if x != [] {
      var s := x + z;
      assert !OpensAt(s, 0) by {
        if |x| >= 2 { assert !OpensAt(x, 0); }
      }
      BlockPlainHead(s);
      OpenFreeTail(x);
      BlockPlainPrefix(x[1..], z);
      DropFirst(x, z);
      ConsFirst(x, StripBlockComments(z));
    } else {
      assert x + z == z;
    }
  }

  /** A first character that opens no comment is copied. */
  lemma BlockPlainHead(s: string)
    requires s != [] && !OpensAt(s, 0)
    ensures StripBlockComments(s) == [s[0]] + StripBlockComments(s[1..])
  {
  }

  lemma OpenFreeTail(x: string)
    requires x != []
    requires forall i :: !OpensAt(x, i)
    ensures forall i :: !OpensAt(x[1..], i)
  {
    forall i ensures !OpensAt(x[1..], i) { assert !OpensAt(x, i + 1); }
  }

  // A `/*` ... `*/` comment whose body contains no `*/` is deleted completely.
  lemma BlockCommentRemoved(c: string, y: string)
    requires forall j :: !ClosesAt(c, j)
    ensures StripBlockComments("/*" + c + "*/" + y) == StripBlockComments(y)
  {
    var s := "/*" + c + "*/" + y;
    var k := |c| + 2;
    assert ClosesAt(s, k);
    forall j | 2 <= j < k ensures !ClosesAt(s, j) {
      if j + 1 < k { assert !ClosesAt(c, j - 2); }
    }
    assert FindClose(s, 2) == Some(k);
    assert s[k + 2..] == y;
  }

  // ---------------------------------------------------------------------------
  // Pass 2: /(^|[^:])\/\/.*$/gm  replaced by '$1'
  // ---------------------------------------------------------------------------

  /** `//` starts at index i. */
  predicate SlashesAt(s: string, i: int)
  {
    0 <= i && i + 1 < |s| && s[i] == '/' && s[i + 1] == '/'
  }

  /**
   * The line-comment pass on `s`, where `atLineStart` says whether `^` (multiline)
   * holds at the first character of `s`: start of the input or just after a line
   * terminator.
   */
  function StripLineFrom(s: string, atLineStart: bool): (r: string)
    ensures |r| <= |s|
    decreases |s|
  {
    if s == [] then []
    else if atLineStart && SlashesAt(s, 0) then
      StripLineFrom(s[LineEnd(s, 2)..], false)
    else if s[0] != ':' && SlashesAt(s, 1) then
      [s[0]] + StripLineFrom(s[LineEnd(s, 3)..], false)
    else [s[0]] + StripLineFrom(s[1..], IsLineTerminator(s[0]))
  }

  /** worker.ts:61 -- the line-comment pass. */
  function StripLineComments(s: string): (r: string)
    ensures |r| <= |s|
  {
    StripLineFrom(s, true)
  }

  lemma {:induction false} FilterNone(p: char -> bool, s: string)
    requires forall j :: 0 <= j < |s| ==> !p(s[j])
    ensures Filter(p, s) == []
  {
    if s != [] { FilterNone(p, s[1..]); }
  }

  /** The part of a line a match deletes holds no line terminator. */
  lemma DeletedSpanHasNoTerminator(s: string, from: nat, to: nat)
    requires from <= to <= |s|
    requires forall j :: from <= j < to ==> !IsLineTerminator(s[j])
    ensures Filter(IsLineTerminator, s[from..]) == Filter(IsLineTerminator, s[to..])
  {
    assert s[from..] == s[from..to] + s[to..];
    FilterAppend(IsLineTerminator, s[from..to], s[to..]);
    FilterNone(IsLineTerminator, s[from..to]);
  }

  /** The line-comment pass never deletes or adds a line terminator. */
  lemma {:induction false} LineTerminatorsKept(s: string, atLineStart: bool)
    ensures Filter(IsLineTerminator, StripLineFrom(s, atLineStart)) == Filter(IsLineTerminator, s)
    decreases |s|
  {
    if s == [] {
    } else if atLineStart && SlashesAt(s, 0) {
      var e := LineEnd(s, 2);
      LineTerminatorsKept(s[e..], false);
      DeletedSpanHasNoTerminator(s, 0, e);
      assert s[0..] == s;
    } else if s[0] != ':' && SlashesAt(s, 1) {
      var e := LineEnd(s, 3);
      var t := StripLineFrom(s[e..], false);
      assert StripLineFrom(s, atLineStart) == [s[0]] + t;
      LineTerminatorsKept(s[e..], false);
      DeletedSpanHasNoTerminator(s, 1, e);
      ConsKeepsFilter(IsLineTerminator, s[0], t, s[1..]);
      assert [s[0]] + s[1..] == s;
    } else {
      var t := StripLineFrom(s[1..], IsLineTerminator(s[0]));
      assert StripLineFrom(s, atLineStart) == [s[0]] + t;
      LineTerminatorsKept(s[1..], IsLineTerminator(s[0]));
      ConsKeepsFilter(IsLineTerminator, s[0], t, s[1..]);
      assert [s[0]] + s[1..] == s;
    }
  }

  /** Putting the same character in front of two texts with the same filtered characters keeps them equal. */
  lemma ConsKeepsFilter(p: char -> bool, c: char, t: string, u: string)
    requires Filter(p, t) == Filter(p, u)
    ensures Filter(p, [c] + t) == Filter(p, [c] + u)
  {
    assert ([c] + t)[1..] == t;
    assert ([c] + u)[1..] == u;
  }

  /** Every `//` in `s` (after the first character) directly follows a `:`, and `s` does not open with `//` at a line start. */
  predicate OnlyUrlSlashes(s: string, atLineStart: bool)
  {
    && (atLineStart ==> !SlashesAt(s, 0))
    && forall i :: 1 <= i < |s| && SlashesAt(s, i) ==> s[i - 1] == ':'
  }

  lemma {:induction false} UrlSlashesKeptFrom(s: string, atLineStart: bool)
    requires OnlyUrlSlashes(s, atLineStart)
    ensures StripLineFrom(s, atLineStart) == s
  {
    if s != [] {
      assert !(s[0] != ':' && SlashesAt(s, 1));
      var t := s[1..];
      forall i | 1 <= i && SlashesAt(t, i) ensures t[i - 1] == ':' {
        assert SlashesAt(s, i + 1);
      }
      if IsLineTerminator(s[0]) && SlashesAt(t, 0) {
        assert SlashesAt(s, 1);
      }
      UrlSlashesKeptFrom(t, IsLineTerminator(s[0]));
      assert s == [s[0]] + t;
    }
  }

  /** `://` (as in a URL) never starts a line comment: text whose every `//` follows a `:` is unchanged. */
  lemma UrlSlashesKept(s: string)
    requires forall i :: SlashesAt(s, i) ==> i >= 1 && s[i - 1] == ':'
    ensures StripLineComments(s) == s
  {
    UrlSlashesKeptFrom(s, true);
  }

  /**
   * On a line `p // c` where `p` holds only URL-style `//`s (each after a `:`, as
   * in `"u": "http://x", `) and does not end in `:`, the pass keeps `p`, deletes
   * `//c` up to (not including) the line end, and carries on with the next line.
   */
  lemma {:induction false} LineCommentRemoved(p: string, c: string, rest: string, atLineStart: bool)
    requires OnlyUrlSlashes(p + "/", atLineStart)
    requires p == [] ==> atLineStart
    requires p != [] ==> p[|p| - 1] != ':'
    requires forall j :: 0 <= j < |p| ==> !IsLineTerminator(p[j])
    requires forall j :: 0 <= j < |c| ==> !IsLineTerminator(c[j])
    requires rest != [] ==> IsLineTerminator(rest[0])
    ensures StripLineFrom(p + "//" + c + rest, atLineStart) == p + StripLineFrom(rest, false)
  {
    var s := p + "//" + c + rest;
    if p == [] {
      assert SlashesAt(s, 0);
      assert LineEnd(s, 2) == 2 + |c| by { LineEndAt(s, 2, 2 + |c|); }
      assert s[2 + |c|..] == rest;
    } else if |p| == 1 {
      assert atLineStart ==> !SlashesAt(s, 0) by {
        if atLineStart { assert !SlashesAt(p + "/", 0); }
      }
      assert SlashesAt(s, 1);
      assert LineEnd(s, 3) == 3 + |c| by { LineEndAt(s, 3, 3 + |c|); }
      assert s[3 + |c|..] == rest;
    } else {
      var q := p[1..];
      assert s[0] == p[0] && s[1] == p[1] && s[2] == (p + "/")[2];
      assert SlashesAt(s, 1) ==> SlashesAt(p + "/", 1) && (p + "/")[0] == ':';
      StripPlainHead(s, atLineStart);
      UrlSlashTail(p, atLineStart);
      LineCommentRemoved(q, c, rest, false);
      DropFirstOfLine(p, c, rest);
      ConsFirst(p, StripLineFrom(rest, false));
    }
  }

  lemma DropFirst(x: string, y: string)
    requires x != []
    ensures (x + y)[1..] == x[1..] + y
    ensures x + y == [x[0]] + (x[1..] + y)
  {
  }

  lemma DropFirstOfLine(p: string, c: string, rest: string)
    requires p != []
    ensures (p + "//" + c + rest)[1..] == p[1..] + "//" + c + rest
  {
  }

  lemma ConsFirst(x: string, y: string)
    requires x != []
    ensures [x[0]] + (x[1..] + y) == x + y
  {
    DropFirst(x, y);
  }

  /** A first character that starts no match is copied. */
  lemma StripPlainHead(s: string, atLineStart: bool)
    requires s != [] && !(atLineStart && SlashesAt(s, 0)) && !(s[0] != ':' && SlashesAt(s, 1))
    ensures StripLineFrom(s, atLineStart) == [s[0]] + StripLineFrom(s[1..], IsLineTerminator(s[0]))
  {
  }

  /** Dropping the first character keeps every `//` after a `:`, and the rest no longer starts a line. */
  lemma UrlSlashTail(p: string, atLineStart: bool)
    requires |p| >= 1
    requires OnlyUrlSlashes(p + "/", atLineStart)
    ensures OnlyUrlSlashes(p[1..] + "/", false)
  {
    var q := p[1..];
    assert q + "/" == (p + "/")[1..];
    forall i | 1 <= i < |q + "/"| && SlashesAt(q + "/", i) ensures (q + "/")[i - 1] == ':' {
      assert SlashesAt(p + "/", i + 1);
    }
  }

  /** LineEnd stops exactly at the first line terminator (or the end). */
  lemma LineEndAt(s: string, k: nat, e: nat)
    requires k <= e <= |s|
    requires forall j :: k <= j < e ==> !IsLineTerminator(s[j])
    requires e < |s| ==> IsLineTerminator(s[e])
    ensures LineEnd(s, k) == e
    decreases e - k
  {
    if k < e { LineEndAt(s, k + 1, e); }
  }

  /**
   * A line comment of the pass starts at index j of a line: a `//` at the line
   * start (when `^` holds there) or directly after a character other than `:`.
   */
  predicate CommentAt(line: string, atLineStart: bool, j: int)
  {
    SlashesAt(line, j) && (if j == 0 then atLineStart else line[j - 1] != ':')
  }

  /** The first index at or after i where a line comment starts. */
  function CommentFrom(line: string, atLineStart: bool, i: nat): (r: Option<nat>)
    requires i <= |line|
    ensures r.Some? ==> i <= r.value < |line| && CommentAt(line, atLineStart, r.value)
    ensures r.Some? ==> forall j :: i <= j < r.value ==> !CommentAt(line, atLineStart, j)
    ensures r.None? ==> forall j :: i <= j < |line| ==> !CommentAt(line, atLineStart, j)
    decreases |line| - i
  {
    if i == |line| then None
    else if CommentAt(line, atLineStart, i) then Some(i)
    else CommentFrom(line, atLineStart, i + 1)
  }

  /** What the pass keeps of a line from index i on: everything before the first comment starting there, or the whole rest. */
  function LineKeptFrom(line: string, atLineStart: bool, i: nat): (r: string)
    requires i <= |line|
  {
    match CommentFrom(line, atLineStart, i)
    case None => line[i..]
    case Some(j) => line[i..j]
  }

  /** What the pass keeps of one line: everything before its first comment, or the whole line. */
  function LineKept(line: string, atLineStart: bool): (r: string)
    ensures StartsWith(line, r)
    ensures CommentFrom(line, atLineStart, 0).None? ==> r == line
  {
    assert line[0..] == line;
    LineKeptFrom(line, atLineStart, 0)
  }

  /** Where no comment starts at i, the character at i is kept and the cut continues after it. */
  lemma KeptFromStep(line: string, atLineStart: bool, i: nat)
    requires i < |line| && !CommentAt(line, atLineStart, i)
    ensures LineKeptFrom(line, atLineStart, i) == [line[i]] + LineKeptFrom(line, atLineStart, i + 1)
  {
    match CommentFrom(line, atLineStart, i + 1)
    case None => assert line[i..] == [line[i]] + line[i + 1..];
    case Some(j) => assert line[i..j] == [line[i]] + line[i + 1..j];
  }

  /**
   * The pass, read line by line: each line is cut at its first comment and every
   * line terminator is kept; `^` holds at the start of the text and after each
   * terminator.
   */
  function LinewiseStrip(s: string, atLineStart: bool): (r: string)
    decreases |s|
  {
    var e := LineEnd(s, 0);
    LineKept(s[..e], atLineStart) + (if e == |s| then [] else [s[e]] + LinewiseStrip(s[e + 1..], true))
  }

  /** Whether `^` holds is irrelevant at the end of the text or before a line terminator. */
  lemma LineStartIrrelevant(rest: string, atLineStart: bool)
    requires rest == [] || IsLineTerminator(rest[0])
    ensures StripLineFrom(rest, atLineStart) == StripLineFrom(rest, false)
  {
  }

  /** A line terminator is kept, and `^` holds after it. */
  lemma TerminatorStep(t: char, u: string, atLineStart: bool)
    requires IsLineTerminator(t)
    ensures StripLineFrom([t] + u, atLineStart) == [t] + StripLineFrom(u, true)
  {
    var s := [t] + u;
    assert s[1..] == u;
    if SlashesAt(u, 0) {
      assert SlashesAt(s, 1);
      var e := LineEnd(u, 2);
      LineEndAt(s, 3, e + 1);
      assert s[e + 1..] == u[e..];
    } else {
      assert !SlashesAt(s, 1);
    }
  }

  /** A comment at the start of a line is deleted up to the line end. */
  lemma CutAtStart(l: string, rest: string)
    requires forall j :: 0 <= j < |l| ==> !IsLineTerminator(l[j])
    requires rest == [] || IsLineTerminator(rest[0])
    requires SlashesAt(l + rest, 0)
    ensures StripLineFrom(l + rest, true) == StripLineFrom(rest, false)
  {
    var s := l + rest;
    assert |l| >= 2;
    LineEndAt(s, 2, |l|);
    assert s[|l|..] == rest;
  }

  /** A comment after a character other than `:` is deleted up to the line end, and that character is kept. */
  lemma CutAfterFirst(l: string, rest: string, atLineStart: bool)
    requires forall j :: 0 <= j < |l| ==> !IsLineTerminator(l[j])
    requires rest == [] || IsLineTerminator(rest[0])
    requires |l| >= 1
    requires !(atLineStart && SlashesAt(l + rest, 0))
    requires SlashesAt(l + rest, 1) && (l + rest)[0] != ':'
    ensures |l| >= 3 && SlashesAt(l, 1)
    ensures StripLineFrom(l + rest, atLineStart) == [l[0]] + StripLineFrom(rest, false)
  {
    var s := l + rest;
    assert |l| >= 3;
    LineEndAt(s, 3, |l|);
    assert s[|l|..] == rest;
  }

  /** A comment starting at i leaves nothing of the line from i on. */
  lemma KeptFromComment(line: string, atLineStart: bool, i: nat)
    requires i < |line| && CommentAt(line, atLineStart, i)
    ensures LineKeptFrom(line, atLineStart, i) == []
  {
  }

  /** A comment starting right after i leaves only the character at i. */
  lemma KeptBeforeComment(line: string, atLineStart: bool, i: nat)
    requires i + 1 < |line| && !CommentAt(line, atLineStart, i) && CommentAt(line, atLineStart, i + 1)
    ensures LineKeptFrom(line, atLineStart, i) == [line[i]]
  {
    assert CommentFrom(line, atLineStart, i) == Some(i + 1);
    assert line[i..i + 1] == [line[i]];
  }

  /** Copying a character that starts no comment extends the kept part of the line by that character. */
  lemma CopyStep(line: string, rest: string, atLineStart: bool, i: nat)
    requires i < |line| && !IsLineTerminator(line[i])
    requires !(i == 0 && atLineStart && SlashesAt(line[i..] + rest, 0))
    requires !(line[i] != ':' && SlashesAt(line[i..] + rest, 1))
    requires !CommentAt(line, atLineStart, i)
    requires StripLineFrom(line[i + 1..] + rest, false) == LineKeptFrom(line, atLineStart, i + 1) + StripLineFrom(rest, false)
    ensures StripLineFrom(line[i..] + rest, i == 0 && atLineStart) == LineKeptFrom(line, atLineStart, i) + StripLineFrom(rest, false)
  {
    var u := line[i + 1..] + rest;
    var k, t := LineKeptFrom(line, atLineStart, i + 1), StripLineFrom(rest, false);
    calc {
      StripLineFrom(line[i..] + rest, i == 0 && atLineStart);
      { SliceCons(line, i, rest); }
      StripLineFrom([line[i]] + u, i == 0 && atLineStart);
      { StripPlainCons(line[i], u, i == 0 && atLineStart); }
      [line[i]] + StripLineFrom(u, false);
      [line[i]] + (k + t);
      { ConcatAssoc([line[i]], k, t); }
      ([line[i]] + k) + t;
      { KeptFromStep(line, atLineStart, i); }
      LineKeptFrom(line, atLineStart, i) + t;
    }
  }

  lemma ConcatAssoc(a: string, b: string, c: string)
    ensures a + (b + c) == (a + b) + c
  {
  }

  lemma SliceCons(line: string, i: nat, rest: string)
    requires i < |line|
    ensures line[i..] + rest == [line[i]] + (line[i + 1..] + rest)
  {
    assert line[i..] == [line[i]] + line[i + 1..];
  }

  /** A character that is no terminator and starts no comment is copied, and the scan goes on inside the line. */
  lemma StripPlainCons(c: char, u: string, atLineStart: bool)
    requires !IsLineTerminator(c)
    requires !(atLineStart && SlashesAt([c] + u, 0)) && !(c != ':' && SlashesAt([c] + u, 1))
    ensures StripLineFrom([c] + u, atLineStart) == [c] + StripLineFrom(u, false)
  {
    assert ([c] + u)[1..] == u;
    StripPlainHead([c] + u, atLineStart);
  }

  /** The scan over a line from index i on, when no comment starts at i itself unless i is the line start. */
  lemma {:induction false} LinePassFrom(line: string, rest: string, atLineStart: bool, i: nat)
    requires i <= |line|
    requires forall j :: 0 <= j < |line| ==> !IsLineTerminator(line[j])
    requires rest == [] || IsLineTerminator(rest[0])
    requires i > 0 ==> !CommentAt(line, atLineStart, i)
    ensures StripLineFrom(line[i..] + rest, i == 0 && atLineStart) == LineKeptFrom(line, atLineStart, i) + StripLineFrom(rest, false)
    decreases |line| - i
  {
    var l := line[i..];
    var s := l + rest;
    var b := i == 0 && atLineStart;
    assert forall j :: 0 <= j < |l| ==> !IsLineTerminator(l[j]);
    if i == |line| {
      assert s == rest;
      LineStartIrrelevant(rest, b);
    } else if b && SlashesAt(s, 0) {
      CutAtStart(l, rest);
      assert SlashesAt(line, 0);
      KeptFromComment(line, atLineStart, 0);
    } else if s[0] != ':' && SlashesAt(s, 1) {
      CutAfterFirst(l, rest, b);
      assert !CommentAt(line, atLineStart, i) by {
        if i == 0 && SlashesAt(line, 0) { assert SlashesAt(s, 0); }
      }
      assert SlashesAt(line, i + 1);
      KeptBeforeComment(line, atLineStart, i);
    } else {
      assert !CommentAt(line, atLineStart, i) by {
        if i == 0 && SlashesAt(line, 0) { assert SlashesAt(s, 0); }
      }
      assert !CommentAt(line, atLineStart, i + 1) by {
        if SlashesAt(line, i + 1) { assert SlashesAt(s, 1); }
      }
      LinePassFrom(line, rest, atLineStart, i + 1);
      CopyStep(line, rest, atLineStart, i);
    }
  }

  /** On one line followed by the end of the text or a terminator, the pass keeps `LineKept` of the line and carries on after it. */
  lemma LinePass(line: string, rest: string, atLineStart: bool)
    requires forall j :: 0 <= j < |line| ==> !IsLineTerminator(line[j])
    requires rest == [] || IsLineTerminator(rest[0])
    ensures StripLineFrom(line + rest, atLineStart) == LineKept(line, atLineStart) + StripLineFrom(rest, false)
  {
    assert line[0..] == line;
    LinePassFrom(line, rest, atLineStart, 0);
  }

  /** The line-comment pass is the line-by-line cut: on every line, the first comment is deleted up to the line end. */
  lemma {:induction false} StripLineByLine(s: string, atLineStart: bool)
    ensures StripLineFrom(s, atLineStart) == LinewiseStrip(s, atLineStart)
    decreases |s|
  {
    var e := LineEnd(s, 0);
    var line, rest := s[..e], s[e..];
    assert s == line + rest;
    LinePass(line, rest, atLineStart);
    if e < |s| {
      assert rest == [s[e]] + s[e + 1..];
      TerminatorStep(s[e], s[e + 1..], false);
      StripLineByLine(s[e + 1..], true);
    }
  }

  /**
   * A line holding no comment, followed by a line that starts with `//`: the
   * first line and the terminator between them stay, the second line goes.
   */
  lemma CommentLineAfterPlainLine(first: string, second: string)
    requires forall j :: 0 <= j < |first| ==> !IsLineTerminator(first[j])
    requires forall j :: 0 <= j < |second| ==> !IsLineTerminator(second[j])
    requires CommentFrom(first, true, 0).None?
    requires SlashesAt(second, 0)
    ensures StripLineComments(first + "\n" + second) == first + "\n"
  {
    var tail := ['\n'] + second;
    calc {
      StripLineComments(first + "\n" + second);
      { ConcatAssoc(first, "\n", second); }
      StripLineFrom(first + tail, true);
      { LinePass(first, tail, true); }
      first + StripLineFrom(tail, false);
      { TerminatorStep('\n', second, false); }
      first + (['\n'] + StripLineFrom(second, true));
      { CommentLineRemoved(second); }
      first + "\n";
    }
  }

  /** A line that starts with `//` is deleted whole. */
  lemma CommentLineRemoved(line: string)
    requires forall j :: 0 <= j < |line| ==> !IsLineTerminator(line[j])
    requires SlashesAt(line, 0)
    ensures StripLineFrom(line, true) == []
  {
    assert line + [] == line;
    LinePass(line, [], true);
    assert line[0..] == line;
    KeptFromComment(line, true, 0);
  }

  /** `x` followed by a comment line leaves `x` and its terminator. */
  lemma SecondLineCommentRemoved()
    ensures StripLineComments("x\n// c") == "x\n"
  {
    assert "x\n// c" == "x" + "\n" + "// c";
    assert CommentFrom("x", true, 0).None?;
    CommentLineAfterPlainLine("x", "// c");
  }

  // ---------------------------------------------------------------------------
  // Pass 3: /,(?=\s*[\]}])/g  replaced by ''
  // ---------------------------------------------------------------------------

  /** `t` begins with optional whitespace followed by `]` or `}` (the lookahead). */
  predicate ClosesAfterSpace(t: string)
    decreases |t|
  {
    t != [] && (t[0] == ']' || t[0] == '}' || (IsRegexSpace(t[0]) && ClosesAfterSpace(t[1..])))
  }

  /** Index i holds a trailing comma: a `,` the lookahead accepts. */
  predicate TrailingCommaAt(s: string, i: int)
  {
    0 <= i < |s| && s[i] == ',' && ClosesAfterSpace(s[i + 1..])
  }

  /** worker.ts:62 -- the trailing-comma pass. */
  function StripTrailingCommas(s: string): (r: string)
    ensures |r| <= |s|
  {
    if s == [] then []
    else if s[0] == ',' && ClosesAfterSpace(s[1..]) then StripTrailingCommas(s[1..])
    else [s[0]] + StripTrailingCommas(s[1..])
  }

  predicate NotComma(c: char) { c != ',' }

  /** The comma pass keeps every character other than `,`, in order. */
  lemma {:induction false} OtherCharactersKept(s: string)
    ensures Filter(NotComma, StripTrailingCommas(s)) == Filter(NotComma, s)
  {
    if s != [] {
      OtherCharactersKept(s[1..]);
      if !(s[0] == ',' && ClosesAfterSpace(s[1..])) {
        FilterAppend(NotComma, [s[0]], StripTrailingCommas(s[1..]));
      }
    }
  }

  /** Text without a trailing comma passes the comma pass unchanged. */
  lemma {:induction false} NoTrailingCommaKept(s: string)
    requires forall i :: !TrailingCommaAt(s, i)
    ensures StripTrailingCommas(s) == s
  {
    if s != [] {
      assert !TrailingCommaAt(s, 0);
      forall i ensures !TrailingCommaAt(s[1..], i) {
        assert !TrailingCommaAt(s, i + 1);
        if 0 <= i < |s| - 1 { assert s[1..][i + 1..] == s[i + 2..]; }
      }
      NoTrailingCommaKept(s[1..]);
      assert s == [s[0]] + s[1..];
    }
  }

  /** The indices from `i` on of the characters the comma pass keeps: every index but those of trailing commas, in increasing order. */
  function KeptIndices(s: string, i: nat): (r: seq<nat>)
    requires i <= |s|
    decreases |s| - i
  {
    if i == |s| then []
    else (if TrailingCommaAt(s, i) then [] else [i]) + KeptIndices(s, i + 1)
  }

  /** The kept indices from `i` on lie in `[i, |s|)`. */
  lemma {:induction false} KeptIndicesBounded(s: string, i: nat)
    requires i <= |s|
    ensures forall k :: 0 <= k < |KeptIndices(s, i)| ==> i <= KeptIndices(s, i)[k] < |s|
    decreases |s| - i
  {
    if i < |s| {
      KeptIndicesBounded(s, i + 1);
    }
  }

  /** The kept indices from `i` on increase strictly. */
  lemma {:induction false} KeptIndicesIncrease(s: string, i: nat)
    requires i <= |s|
    ensures forall k, l :: 0 <= k < l < |KeptIndices(s, i)| ==> KeptIndices(s, i)[k] < KeptIndices(s, i)[l]
    decreases |s| - i
  {
    if i < |s| {
      var rest := KeptIndices(s, i + 1);
      var ks := KeptIndices(s, i);
      KeptIndicesIncrease(s, i + 1);
      KeptIndicesBounded(s, i + 1);
      if !TrailingCommaAt(s, i) {
        assert ks == [i] + rest;
        forall k, l | 0 <= k < l < |ks| ensures ks[k] < ks[l] {
          assert ks[l] == rest[l - 1];
          if k > 0 { assert ks[k] == rest[k - 1]; }
        }
      }
    }
  }

  /** An index from `i` on is kept exactly when it does not hold a trailing comma. */
  lemma {:induction false} KeptIndicesMembers(s: string, i: nat)
    requires i <= |s|
    ensures forall j :: i <= j < |s| ==> (j in KeptIndices(s, i) <==> !TrailingCommaAt(s, j))
    decreases |s| - i
  {
    if i < |s| {
      var rest := KeptIndices(s, i + 1);
      var ks := KeptIndices(s, i);
      KeptIndicesMembers(s, i + 1);
      KeptIndicesBounded(s, i + 1);
      assert i !in rest;
      assert ks == (if TrailingCommaAt(s, i) then [] else [i]) + rest;
      forall j | i <= j < |s| ensures j in ks <==> !TrailingCommaAt(s, j) {
        assert j in ks <==> (j == i && !TrailingCommaAt(s, i)) || j in rest;
      }
    }
  }

  /** The kept indices increase strictly, and an index from `i` on is kept exactly when it does not hold a trailing comma. */
  lemma KeptIndicesExactly(s: string, i: nat)
    requires i <= |s|
    ensures var ks := KeptIndices(s, i);
      && (forall k :: 0 <= k < |ks| ==> i <= ks[k] < |s|)
      && (forall k, l :: 0 <= k < l < |ks| ==> ks[k] < ks[l])
      && (forall j :: i <= j < |s| ==> (j in ks <==> !TrailingCommaAt(s, j)))
  {
    KeptIndicesBounded(s, i);
    KeptIndicesIncrease(s, i);
    KeptIndicesMembers(s, i);
  }

  /** Deciding a suffix's head by the suffix is deciding it by the whole text. */
  lemma TrailingCommaInSuffix(s: string, i: nat)
    requires i < |s|
    ensures (s[i..][0] == ',' && ClosesAfterSpace(s[i..][1..])) <==> TrailingCommaAt(s, i)
  {
    assert s[i..][1..] == s[i + 1..];
  }

  /** The pass on `s[i..]` yields `s` at the kept indices, in order. */
  lemma {:induction false} CommaPassFrom(s: string, i: nat)
    requires i <= |s|
    ensures var r := StripTrailingCommas(s[i..]); var ks := KeptIndices(s, i);
      |r| == |ks| && forall k :: 0 <= k < |r| ==> ks[k] < |s| && r[k] == s[ks[k]]
    decreases |s| - i
  {
    if i < |s| {
      CommaPassFrom(s, i + 1);
      KeptIndicesExactly(s, i + 1);
      TrailingCommaInSuffix(s, i);
      assert s[i..][1..] == s[i + 1..];
    }
  }

  /**
   * The comma pass deletes exactly the trailing commas: its result is the text
   * at the strictly increasing indices that do not hold one.
   */
  lemma CommaPassKeepsExactly(s: string)
    ensures var r := StripTrailingCommas(s); var ks := KeptIndices(s, 0);
      && |r| == |ks|
      && (forall k :: 0 <= k < |r| ==> ks[k] < |s| && r[k] == s[ks[k]])
      && (forall k, l :: 0 <= k < l < |ks| ==> ks[k] < ks[l])
      && (forall j :: 0 <= j < |s| ==> (j in ks <==> !TrailingCommaAt(s, j)))
  {
    CommaPassFrom(s, 0);
    KeptIndicesExactly(s, 0);
    assert s[0..] == s;
  }

  /** A comma followed by optional whitespace and a closing bracket or brace is deleted. */
  lemma TrailingCommaRemoved(w: string, closer: char, y: string)
    requires forall j :: 0 <= j < |w| ==> IsRegexSpace(w[j])
    requires closer == ']' || closer == '}'
    ensures StripTrailingCommas([','] + w + [closer] + y) == StripTrailingCommas(w + [closer] + y)
  {
    SpaceThenCloser(w, closer, y);
    assert ([','] + w + [closer] + y)[1..] == w + [closer] + y;
  }

  lemma {:induction false} SpaceThenCloser(w: string, closer: char, y: string)
    requires forall j :: 0 <= j < |w| ==> IsRegexSpace(w[j])
    requires closer == ']' || closer == '}'
    ensures ClosesAfterSpace(w + [closer] + y)
  {
    if w != [] {
      SpaceThenCloser(w[1..], closer, y);
      assert (w + [closer] + y)[1..] == w[1..] + [closer] + y;
    }
  }

  // ---------------------------------------------------------------------------
  // The whole normaliser
  // ---------------------------------------------------------------------------

  /** worker.ts:58-63 -- `stripJsonc`: the three passes in order. */
  function Strip(input: string): (r: string)
    ensures |r| <= |input|
  {
    StripTrailingCommas(StripLineComments(StripBlockComments(input)))
  }

  /**
   * Strict JSON passes unchanged: text with no block-comment opener, whose every
   * `//` follows a `:`, and with no trailing comma, is returned as it is.
   */
  lemma StrictTextUnchanged(s: string)
    requires forall i :: !OpensAt(s, i)
    requires forall i :: SlashesAt(s, i) ==> i >= 1 && s[i - 1] == ':'
    requires forall i :: !TrailingCommaAt(s, i)
    ensures Strip(s) == s
  {
    BlockPlainPrefix(s, []);
    assert s + [] == s;
    UrlSlashesKept(s);
    NoTrailingCommaKept(s);
  }
}
