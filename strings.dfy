/** Character classes and string operations of Python's `str` and Rust's `&str`
    that the ownership resolver relies on, each stated by what it returns. */
module Strings {

  /** Python's `str.isspace()`: the characters `strip()` and `split()` treat as whitespace. */
  predicate PyIsSpace(c: char) {
    || ('\t' <= c <= '\r')
    || ('\U{1C}' <= c <= ' ')
    || c == '\U{85}' || c == '\U{A0}' || c == '\U{1680}'
    || ('\U{2000}' <= c <= '\U{200A}')
    || c == '\U{2028}' || c == '\U{2029}' || c == '\U{202F}' || c == '\U{205F}' || c == '\U{3000}'
  }

  /** Rust's `char::is_whitespace` (the Unicode White_Space property). */
  predicate RustIsSpace(c: char) {
    || ('\t' <= c <= '\r')
    || c == ' '
    || c == '\U{85}' || c == '\U{A0}' || c == '\U{1680}'
    || ('\U{2000}' <= c <= '\U{200A}')
    || c == '\U{2028}' || c == '\U{2029}' || c == '\U{202F}' || c == '\U{205F}' || c == '\U{3000}'
  }

  /** The line boundaries of Python's `str.splitlines()`. */
  predicate PyLineBreak(c: char) {
    || ('\n' <= c <= '\r')
    || ('\U{1C}' <= c <= '\U{1E}')
    || c == '\U{85}' || c == '\U{2028}' || c == '\U{2029}'
  }

  predicate IsSlash(c: char) { c == '/' }

  predicate IsAt(c: char) { c == '@' }

  predicate IsStar(c: char) { c == '*' }

  predicate StartsWith(s: string, prefix: string) {
    |prefix| <= |s| && s[..|prefix|] == prefix
  }

  predicate EndsWith(s: string, suffix: string) {
    |suffix| <= |s| && s[|s| - |suffix|..] == suffix
  }

  /** Drops the longest prefix whose characters all satisfy `drop`. */
  function TrimStartBy(s: string, drop: char -> bool): (r: string)
    ensures |r| <= |s|
    ensures forall k :: 0 <= k < |s| - |r| ==> drop(s[k])
    ensures r == [] || !drop(r[0])
    decreases |s|
  {
    if s != [] && drop(s[0]) then TrimStartBy(s[1..], drop) else s
  }

  /** What `TrimStartBy` keeps is a suffix of its input. */
  lemma {:induction false} TrimStartBySuffix(s: string, drop: char -> bool)
    ensures TrimStartBy(s, drop) == s[|s| - |TrimStartBy(s, drop)|..]
    decreases |s|
  {
    if s != [] && drop(s[0]) {
      TrimStartBySuffix(s[1..], drop);
      assert s[1..][|s| - 1 - |TrimStartBy(s, drop)|..] == s[|s| - |TrimStartBy(s, drop)|..];
    }
  }

  /** Drops the longest suffix whose characters all satisfy `drop`. */
  function TrimEndBy(s: string, drop: char -> bool): (r: string)
    ensures |r| <= |s|
    ensures forall k :: |r| <= k < |s| ==> drop(s[k])
    ensures r == [] || !drop(r[|r| - 1])
    decreases |s|
  {
    if s != [] && drop(s[|s| - 1]) then TrimEndBy(s[..|s| - 1], drop) else s
  }

  /** What `TrimEndBy` keeps is a prefix of its input. */
  lemma {:induction false} TrimEndByPrefix(s: string, drop: char -> bool)
    ensures TrimEndBy(s, drop) == s[..|TrimEndBy(s, drop)|]
    decreases |s|
  {
    if s != [] && drop(s[|s| - 1]) {
      TrimEndByPrefix(s[..|s| - 1], drop);
      assert s[..|s| - 1][..|TrimEndBy(s, drop)|] == s[..|TrimEndBy(s, drop)|];
    }
  }

  /** Python's `str.strip()`. */
  function PyStrip(s: string): string {
    TrimEndBy(TrimStartBy(s, PyIsSpace), PyIsSpace)
  }

  /** Rust's `str::trim()`. */
  function RustTrim(s: string): string {
    TrimEndBy(TrimStartBy(s, RustIsSpace), RustIsSpace)
  }

  /** Every occurrence of `from` replaced by `to` (Python `replace`, Rust `replace` with a char). */
  function ReplaceChar(s: string, from: char, to: char): (r: string)
    ensures |r| == |s|
    ensures forall k :: 0 <= k < |s| ==> r[k] == if s[k] == from then to else s[k]
  {
    if s == [] then [] else [if s[0] == from then to else s[0]] + ReplaceChar(s[1..], from, to)
  }

  lemma {:induction false} ReplaceCharRemoves(s: string, from: char, to: char)
    requires from != to
    ensures from !in ReplaceChar(s, from, to)
  {
    var r := ReplaceChar(s, from, to);
    forall k | 0 <= k < |r| ensures r[k] != from { }
  }

  /** The index of the first character satisfying `stop`, or `|s|` when there is none. */
  function FirstWhere(s: string, stop: char -> bool): (k: nat)
    ensures k <= |s|
    ensures k < |s| ==> stop(s[k])
    ensures forall i :: 0 <= i < k ==> !stop(s[i])
  {
    if s == [] || stop(s[0]) then 0 else 1 + FirstWhere(s[1..], stop)
  }

  /** The index of the first `c` in `s`, or `|s|` when `c` does not occur. */
  function IndexOf(s: string, c: char): (k: nat)
    ensures k <= |s|
    ensures k < |s| ==> s[k] == c
    ensures c !in s[..k]
  {
    if s == [] || s[0] == c then 0 else 1 + IndexOf(s[1..], c)
  }

  /** The first `c` of `a + [c] + b` is the one after `a`, when `a` has none. */
  lemma {:induction false} IndexOfAfter(a: string, c: char, b: string)
    requires c !in a
    ensures IndexOf(a + [c] + b, c) == |a|
    decreases |a|
  {
    if a != [] {
      assert (a + [c] + b)[1..] == a[1..] + [c] + b;
      IndexOfAfter(a[1..], c, b);
    }
  }

  /** Python `s.split(c)` / Rust `s.split(c)`: every piece, empty ones included. */
  function SplitOn(s: string, c: char): (parts: seq<string>)
    ensures |parts| >= 1
    ensures forall i :: 0 <= i < |parts| ==> c !in parts[i]
    decreases |s|
  {
    var k := IndexOf(s, c);
    if k == |s| then [s] else [s[..k]] + SplitOn(s[k + 1..], c)
  }

  /** Joins `parts`, putting `c` between neighbours. */
  function JoinWith(parts: seq<string>, c: char): string {
    if parts == [] then []
    else if |parts| == 1 then parts[0]
    else parts[0] + [c] + JoinWith(parts[1..], c)
  }

  /** Splitting at `c` and joining with `c` gives the string back. */
  lemma {:induction false} SplitOnJoin(s: string, c: char)
    ensures JoinWith(SplitOn(s, c), c) == s
    decreases |s|
  {
    var k := IndexOf(s, c);
    if k < |s| {
      var rest := SplitOn(s[k + 1..], c);
      var parts := [s[..k]] + rest;
      assert SplitOn(s, c) == parts;
      assert parts[1..] == rest;
      assert JoinWith(parts, c) == s[..k] + [c] + JoinWith(rest, c);
      SplitOnJoin(s[k + 1..], c);
      assert s == s[..k] + [c] + s[k + 1..];
    }
  }

  /** No character of `w` satisfies `space`. */
  predicate NoneOf(w: string, space: char -> bool) {
    forall k :: 0 <= k < |w| ==> !space(w[k])
  }

  /** A non-empty run of characters none of which satisfies `space`. */
  predicate IsWord(w: string, space: char -> bool) {
    |w| > 0 && NoneOf(w, space)
  }

  /** Python `s.split()` and Rust `s.split_whitespace()`: the maximal runs of
      non-space characters, in order. */
  function Words(s: string, space: char -> bool): (ws: seq<string>)
    ensures forall i :: 0 <= i < |ws| ==> IsWord(ws[i], space)
    decreases |s|
  {
    var t := TrimStartBy(s, space);
    if t == [] then []
    else
      var n := FirstWhere(t, space);
      var w := t[..n];
      assert IsWord(w, space);
      var rest := Words(t[n..], space);
      AllWordsCons(w, rest, space);
      [w] + rest
  }

  lemma {:induction false} AllWordsCons(w: string, rest: seq<string>, space: char -> bool)
    requires IsWord(w, space)
    requires forall i :: 0 <= i < |rest| ==> IsWord(rest[i], space)
    ensures forall i :: 0 <= i < |[w] + rest| ==> IsWord(([w] + rest)[i], space)
  {
    var ws := [w] + rest;
    forall i | 0 <= i < |ws| ensures IsWord(ws[i], space) {
      if i > 0 { assert ws[i] == rest[i - 1]; }
    }
  }

  /** The pieces between the characters satisfying `sep`, empty ones included. */
  function SplitWhere(s: string, sep: char -> bool): (parts: seq<string>)
    ensures |parts| >= 1
    decreases |s|
  {
    var k := FirstWhere(s, sep);
    if k == |s| then [s] else [s[..k]] + SplitWhere(s[k + 1..], sep)
  }

  /** The non-empty strings of `parts`, in order. */
  function NonEmpty(parts: seq<string>): (r: seq<string>)
    ensures forall x {:trigger x in r} :: x in r <==> x in parts && x != []
    decreases |parts|
  {
    if parts == [] then []
    else
      var n := |parts| - 1;
      assert parts == parts[..n] + [parts[n]];
      NonEmpty(parts[..n]) + (if parts[n] != [] then [parts[n]] else [])
  }

  /** The non-empty strings of two lists in a row are those of the first, then
      those of the second. */
  lemma {:induction false} NonEmptyAppend(a: seq<string>, b: seq<string>)
    ensures NonEmpty(a + b) == NonEmpty(a) + NonEmpty(b)
    decreases |b|
  {
    if b == [] {
      assert a + b == a;
    } else {
      var n := |b| - 1;
      assert (a + b)[..|a + b| - 1] == a + b[..n];
      NonEmptyAppend(a, b[..n]);
    }
  }

  lemma NonEmptyCons(x: string, rest: seq<string>)
    ensures NonEmpty([x] + rest) == (if x == [] then [] else [x]) + NonEmpty(rest)
  {
    assert [x][..0] == [];
    assert NonEmpty([x]) == if x == [] then [] else [x];
    NonEmptyAppend([x], rest);
  }

  /** A space character ahead of the words changes nothing. */
  lemma WordsSkip(s: string, space: char -> bool)
    requires s != [] && space(s[0])
    ensures Words(s, space) == Words(s[1..], space)
  {
    assert TrimStartBy(s, space) == TrimStartBy(s[1..], space);
  }

  /** The words are exactly the non-empty pieces between space characters:
      runs of spaces act as one separator and leading or trailing spaces give
      no empty word. */
  lemma {:induction false} WordsArePieces(s: string, space: char -> bool)
    ensures Words(s, space) == NonEmpty(SplitWhere(s, space))
    decreases |s|
  {
    if s == [] {
      assert SplitWhere(s, space) == [[]];
      NonEmptyCons([], []);
    } else if space(s[0]) {
      WordsSkip(s, space);
      assert s[..0] == [];
      assert SplitWhere(s, space) == [[]] + SplitWhere(s[1..], space);
      NonEmptyCons([], SplitWhere(s[1..], space));
      WordsArePieces(s[1..], space);
    } else {
      var n := FirstWhere(s, space);
      var w := s[..n];
      assert Words(s, space) == [w] + Words(s[n..], space);
      if n == |s| {
        assert SplitWhere(s, space) == [s];
        NonEmptyCons(s, []);
        assert w == s && s[n..] == [];
        assert Words([], space) == [];
      } else {
        assert SplitWhere(s, space) == [w] + SplitWhere(s[n + 1..], space);
        NonEmptyCons(w, SplitWhere(s[n + 1..], space));
        WordsSkip(s[n..], space);
        assert s[n..][1..] == s[n + 1..];
        WordsArePieces(s[n + 1..], space);
      }
    }
  }

  /** Python `str.splitlines()`: pieces between line boundaries, a `\r\n` pair
      counting as one boundary and no empty piece after a final boundary. */
  function SplitLines(s: string): (lines: seq<string>)
    ensures forall i :: 0 <= i < |lines| ==> NoneOf(lines[i], PyLineBreak)
    ensures s != [] ==> lines != []
    decreases |s|
  {
    if s == [] then []
    else
      var k := FirstWhere(s, PyLineBreak);
      if k == |s| then [s]
      else
        [s[..k]] + SplitLines(s[BreakEnd(s, k)..])
  }

  /** `s` with each line boundary of `str.splitlines()` written as one `\n`. */
  function UnifyBreaks(s: string): string
    decreases |s|
  {
    if s == [] then []
    else if |s| >= 2 && s[0] == '\r' && s[1] == '\n' then "\n" + UnifyBreaks(s[2..])
    else if PyLineBreak(s[0]) then "\n" + UnifyBreaks(s[1..])
    else [s[0]] + UnifyBreaks(s[1..])
  }

  /** `s` ends with a line boundary. */
  predicate EndsInBreak(s: string) {
    s != [] && PyLineBreak(s[|s| - 1])
  }

  /** Text without line boundaries passes through `UnifyBreaks` unchanged. */
  lemma {:induction false} UnifyPlain(a: string, b: string)
    requires NoneOf(a, PyLineBreak)
    ensures UnifyBreaks(a + b) == a + UnifyBreaks(b)
    decreases |a|
  {
    if a != [] {
      assert (a + b)[0] == a[0] && !PyLineBreak(a[0]);
      assert (a + b)[1..] == a[1..] + b;
      assert NoneOf(a[1..], PyLineBreak) by {
        forall k | 0 <= k < |a| - 1 ensures !PyLineBreak(a[1..][k]) {
          assert a[1..][k] == a[k + 1];
        }
      }
      UnifyPlain(a[1..], b);
      assert UnifyBreaks(a + b) == [a[0]] + UnifyBreaks(a[1..] + b);
      assert [a[0]] + (a[1..] + UnifyBreaks(b)) == a + UnifyBreaks(b);
    } else {
      assert a + b == b;
    }
  }

  /** The lines joined with `\n`, followed by a `\n` when the text ends in a
      boundary, are the text with every boundary written as `\n`: the lines
      are the text's pieces between boundaries. */
  lemma {:induction false} SplitLinesJoin(s: string)
    ensures JoinWith(SplitLines(s), '\n') + (if EndsInBreak(s) then "\n" else "") == UnifyBreaks(s)
    decreases |s|
  {
    if s != [] {
      var k := FirstWhere(s, PyLineBreak);
      if k == |s| {
        UnifyPlain(s, []);
        assert s + [] == s;
      } else {
        var rest := s[BreakEnd(s, k)..];
        SplitLinesJoin(rest);
        SplitLinesStep(s, k);
        JoinCons(s[..k], SplitLines(rest), '\n');
        if rest == [] {
          assert s[..k] + "\n" == s[..k] + ("\n" + UnifyBreaks(rest));
        } else {
          LastOfSuffix(s, BreakEnd(s, k));
          var j := JoinWith(SplitLines(rest), '\n');
          var tail := if EndsInBreak(s) then "\n" else "";
          Assoc(s[..k], "\n", j, tail);
        }
      }
    }
  }

  /** Where the line boundary at `k` ends: after `\r\n` or after one character. */
  function BreakEnd(s: string, k: nat): nat
    requires k < |s|
  {
    if s[k] == '\r' && k + 1 < |s| && s[k + 1] == '\n' then k + 2 else k + 1
  }

  lemma SplitLinesStep(s: string, k: nat)
    requires k == FirstWhere(s, PyLineBreak) && k < |s|
    ensures SplitLines(s) == [s[..k]] + SplitLines(s[BreakEnd(s, k)..])
    ensures UnifyBreaks(s) == s[..k] + ("\n" + UnifyBreaks(s[BreakEnd(s, k)..]))
    ensures s[BreakEnd(s, k)..] == [] ==> EndsInBreak(s)
  {
    SplitLinesUnfold(s, k);
    PrefixNoBreak(s, k);
    UnifyStep(s, k);
    BreakAtEnd(s, k);
  }

  lemma SplitLinesUnfold(s: string, k: nat)
    requires k == FirstWhere(s, PyLineBreak) && k < |s|
    ensures SplitLines(s) == [s[..k]] + SplitLines(s[BreakEnd(s, k)..])
  {
  }

  lemma BreakAtEnd(s: string, k: nat)
    requires k < |s| && PyLineBreak(s[k])
    ensures s[BreakEnd(s, k)..] == [] ==> EndsInBreak(s)
  {
  }

  lemma PrefixNoBreak(s: string, k: nat)
    requires k == FirstWhere(s, PyLineBreak)
    ensures NoneOf(s[..k], PyLineBreak)
  {
  }

  /** A non-empty suffix ends where the string does. */
  lemma LastOfSuffix(s: string, i: nat)
    requires i < |s|
    ensures s[i..][|s| - i - 1] == s[|s| - 1]
  {
  }

  lemma Assoc3(a: string, b: string, c: string)
    ensures a + (b + c) == (a + b) + c
  {
  }

  lemma Assoc(a: string, b: string, c: string, d: string)
    ensures (a + (b + c)) + d == a + (b + (c + d))
  {
  }

  lemma UnifyStep(s: string, k: nat)
    requires k < |s| && NoneOf(s[..k], PyLineBreak) && PyLineBreak(s[k])
    ensures UnifyBreaks(s) == s[..k] + ("\n" + UnifyBreaks(s[BreakEnd(s, k)..]))
  {
    var t := s[k..];
    UnifyPlain(s[..k], t);
    SplitAtIndex(s, k);
    UnifyAtBreak(t);
    BreakEndShift(s, k);
  }

  lemma SplitAtIndex(s: string, k: nat)
    requires k <= |s|
    ensures s[..k] + s[k..] == s
  {
  }

  lemma BreakEndShift(s: string, k: nat)
    requires k < |s|
    ensures s[k..][BreakEnd(s[k..], 0)..] == s[BreakEnd(s, k)..]
  {
    assert BreakEnd(s[k..], 0) == BreakEnd(s, k) - k;
  }

  lemma UnifyAtBreak(t: string)
    requires t != [] && PyLineBreak(t[0])
    ensures UnifyBreaks(t) == "\n" + UnifyBreaks(t[BreakEnd(t, 0)..])
  {
  }

  lemma JoinCons(x: string, rest: seq<string>, c: char)
    ensures JoinWith([x] + rest, c) == if rest == [] then x else x + ([c] + JoinWith(rest, c))
  {
    assert ([x] + rest)[1..] == rest;
  }

  /** `a` without one `\r` at its end. */
  function DropCr(a: string): string {
    if a != [] && a[|a| - 1] == '\r' then a[..|a| - 1] else a
  }

  /** Rust `str::lines()`: pieces between `\n`s, one `\r` before a `\n` dropped,
      and no empty piece after a final `\n`. */
  function RustLines(s: string): (lines: seq<string>)
    ensures forall i :: 0 <= i < |lines| ==> '\n' !in lines[i]
    ensures s != [] ==> lines != []
    decreases |s|
  {
    if s == [] then []
    else
      var k := IndexOf(s, '\n');
      if k == |s| then [s]
      else [DropCr(s[..k])] + RustLines(s[k + 1..])
  }

  /** `s` with every `\r\n` written as `\n`. */
  function CrlfToLf(s: string): string
    decreases |s|
  {
    if s == [] then []
    else if |s| >= 2 && s[0] == '\r' && s[1] == '\n' then "\n" + CrlfToLf(s[2..])
    else [s[0]] + CrlfToLf(s[1..])
  }

  lemma {:induction false} CrlfKeep(a: string)
    requires '\n' !in a
    ensures CrlfToLf(a) == a
    decreases |a|
  {
    if a != [] {
      CrlfKeep(a[1..]);
    }
  }

  lemma {:induction false} CrlfBefore(a: string, b: string)
    requires '\n' !in a
    ensures CrlfToLf(a + ("\n" + b)) == DropCr(a) + ("\n" + CrlfToLf(b))
    decreases |a|
  {
    var s := a + ("\n" + b);
    if a == [] {
      assert s == "\n" + b;
      assert s[1..] == b;
    } else if a == ['\r'] {
      assert s[2..] == b;
    } else {
      assert s[0] == a[0];
      assert |a| >= 2 ==> s[1] == a[1];
      assert s[1..] == a[1..] + ("\n" + b);
      CrlfBefore(a[1..], b);
      DropCrCons(a);
      Assoc3([a[0]], DropCr(a[1..]), "\n" + CrlfToLf(b));
    }
  }

  lemma DropCrCons(a: string)
    requires a != [] && a != ['\r']
    ensures DropCr(a) == [a[0]] + DropCr(a[1..])
  {
    if |a| >= 2 {
      assert a[|a| - 1] == a[1..][|a| - 2];
      assert a[..|a| - 1] == [a[0]] + a[1..][..|a| - 2];
    } else {
      assert a == [a[0]] && a[1..] == [];
    }
  }

  lemma RustLinesUnfold(s: string, k: nat)
    requires k == IndexOf(s, '\n') && k < |s|
    ensures RustLines(s) == [DropCr(s[..k])] + RustLines(s[k + 1..])
    ensures s == s[..k] + ("\n" + s[k + 1..])
  {
    SplitAround(s, k);
    assert [s[k]] == "\n";
  }

  lemma SplitAround(s: string, k: nat)
    requires k < |s|
    ensures s == s[..k] + ([s[k]] + s[k + 1..])
  {
    assert s[k..] == [s[k]] + s[k + 1..];
    assert s == s[..k] + s[k..];
  }

  /** The lines joined with `\n`, followed by a `\n` when the text ends in
      one, are the text with `\r\n` written as `\n`: the lines are the text's
      pieces between `\n`s, each without the `\r` before its `\n`. */
  lemma {:induction false} RustLinesJoin(s: string)
    ensures JoinWith(RustLines(s), '\n') + (if s != [] && s[|s| - 1] == '\n' then "\n" else "") == CrlfToLf(s)
    decreases |s|
  {
    if s != [] {
      var k := IndexOf(s, '\n');
      if k == |s| {
        CrlfKeep(s);
        assert RustLines(s) == [s];
        assert s + [] == s;
      } else {
        var rest := s[k + 1..];
        RustLinesUnfold(s, k);
        CrlfBefore(s[..k], rest);
        RustLinesJoin(rest);
        var d := DropCr(s[..k]);
        JoinCons(d, RustLines(rest), '\n');
        if rest == [] {
          assert d + "\n" == d + ("\n" + CrlfToLf(rest));
        } else {
          LastOfSuffix(s, k + 1);
          var j := JoinWith(RustLines(rest), '\n');
          var tail := if rest[|rest| - 1] == '\n' then "\n" else "";
          Assoc(d, "\n", j, tail);
        }
      }
    }
  }

  /** ASCII lower-casing of one character. */
  function LowerChar(c: char): (r: char)
    ensures 'A' <= c <= 'Z' ==> 'a' <= r <= 'z' && r as int == c as int + 32
    ensures !('A' <= c <= 'Z') ==> r == c
  {
    if 'A' <= c <= 'Z' then (c as int + 32) as char else c
  }

  /** `f` applied to every character. */
  function MapChars(s: string, f: char -> char): (r: string)
    ensures |r| == |s|
    ensures forall k :: 0 <= k < |s| ==> r[k] == f(s[k])
  {
    if s == [] then [] else [f(s[0])] + MapChars(s[1..], f)
  }

  /** `str.lower()` / `str::to_lowercase()` on ASCII letters. */
  function Lower(s: string): (r: string)
    ensures |r| == |s|
    ensures forall k :: 0 <= k < |s| ==> r[k] == LowerChar(s[k]) && !('A' <= r[k] <= 'Z')
  {
    MapChars(s, LowerChar)
  }
}
