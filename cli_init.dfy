/** The `init` command of src/serviceowners/cli.py: it turns a CODEOWNERS
    text into a SERVICEOWNERS draft, guessing each rule's service from its
    pattern or, failing that, from its first owner. */
module CliInit {
  import opened Wrappers
  import opened Strings

  // ---------------------------------------------------------------------------
  // Guessing a service from a pattern
  // ---------------------------------------------------------------------------

  /** A glob character: `*`, `?`, `[` or `]`. */
  predicate GlobChar(c: char) {
    c == '*' || c == '?' || c == '[' || c == ']'
  }

  /** `is_literal`: a segment with no glob character. */
  predicate IsLiteral(seg: string) {
    forall k :: 0 <= k < |seg| ==> !GlobChar(seg[k])
  }

  /** The pattern as it is split: stripped, leading `/`s removed, trailing
      `/`s removed when there is one, then backslashes read as `/`. */
  function PreparedPattern(pattern: string): string {
    var p := TrimStartBy(PyStrip(pattern), IsSlash);
    var q := if p != [] && p[|p| - 1] == '/' then TrimEndBy(p, IsSlash) else p;
    ReplaceChar(q, '\\', '/')
  }

  /** The literal pieces of `parts`, in order. */
  function Literals(parts: seq<string>): (r: seq<string>)
    ensures forall x {:trigger x in r} :: x in r <==> x in parts && IsLiteral(x)
    decreases |parts|
  {
    if parts == [] then []
    else
      var n := |parts| - 1;
      assert parts == parts[..n] + [parts[n]];
      Literals(parts[..n]) + (if IsLiteral(parts[n]) then [parts[n]] else [])
  }

  /** The literals of two lists in a row are those of the first, then those
      of the second. */
  lemma {:induction false} LiteralsAppend(a: seq<string>, b: seq<string>)
    ensures Literals(a + b) == Literals(a) + Literals(b)
    decreases |b|
  {
    if b == [] {
      assert a + b == a;
    } else {
      var n := |b| - 1;
      assert (a + b)[..|a + b| - 1] == a + b[..n];
      LiteralsAppend(a, b[..n]);
    }
  }

  /** The non-empty `/` segments of the prepared pattern, in order. */
  function Segments(pattern: string): (segs: seq<string>)
    ensures forall x :: x in segs <==> x in SplitOn(PreparedPattern(pattern), '/') && x != []
  {
    NonEmpty(SplitOn(PreparedPattern(pattern), '/'))
  }

  /** No segment holds `/`. */
  lemma SegmentsSlashFree(pattern: string)
    ensures forall i :: 0 <= i < |Segments(pattern)| ==> '/' !in Segments(pattern)[i]
  {
    var parts := SplitOn(PreparedPattern(pattern), '/');
    var segs := Segments(pattern);
    forall i | 0 <= i < |segs| ensures '/' !in segs[i] {
      assert segs[i] in segs;
      var j :| 0 <= j < |parts| && parts[j] == segs[i];
    }
  }

  /** `_infer_service_from_pattern`: the last literal segment, stripped and
      lower-cased, or nothing. Naming one of the usual top-level directories
      changes nothing. */
  function InferServiceFromPattern(pattern: string): Option<string> {
    GuessFromSegments(Segments(pattern))
  }

  /** The guess from the segments of a pattern. */
  function GuessFromSegments(parts: seq<string>): Option<string> {
    if parts == [] then None
    else
      var literals := Literals(parts);
      if literals == [] then None
      else Guess(literals[|literals| - 1])
  }

  /** A segment stripped and lower-cased, unless that leaves nothing. */
  function Guess(seg: string): Option<string> {
    var candidate := Lower(PyStrip(seg));
    if candidate == [] then None else Some(candidate)
  }

  /** `parts[j]` is literal and no later part is. */
  predicate LastLiteralAt(parts: seq<string>, j: int) {
    && 0 <= j < |parts|
    && IsLiteral(parts[j])
    && forall j2 :: j < j2 < |parts| ==> !IsLiteral(parts[j2])
  }

  /** A non-empty string whose last character is not whitespace. */
  predicate EndsSolid(s: string) {
    s != [] && !PyIsSpace(s[|s| - 1])
  }

  /** No `/` and no glob character. */
  predicate PlainChars(s: string) {
    forall k :: 0 <= k < |s| ==> s[k] != '/' && !GlobChar(s[k])
  }

  /** No ASCII capital. */
  predicate NoCapitals(s: string) {
    forall k :: 0 <= k < |s| ==> !('A' <= s[k] <= 'Z')
  }

  /** A guessed service: lower-case, no `/`, no glob character, and not
      ending in whitespace. */
  predicate GoodGuess(c: string) {
    EndsSolid(c) && PlainChars(c) && NoCapitals(c)
  }

  /** Without a non-empty segment, or without a literal one, nothing is
      guessed; otherwise the guess is the last literal segment, stripped and
      lower-cased, or nothing when that leaves it empty, and it is a good
      guess. */
  lemma {:induction false} InferFromPatternSpec(pattern: string)
    ensures Segments(pattern) == [] ==> InferServiceFromPattern(pattern).None?
    ensures (forall i :: 0 <= i < |Segments(pattern)| ==> !IsLiteral(Segments(pattern)[i])) ==>
              InferServiceFromPattern(pattern).None?
    ensures (exists i :: 0 <= i < |Segments(pattern)| && IsLiteral(Segments(pattern)[i])) ==>
              exists j :: LastLiteralAt(Segments(pattern), j) &&
                InferServiceFromPattern(pattern) == Guess(Segments(pattern)[j])
    ensures InferServiceFromPattern(pattern).Some? ==> GoodGuess(InferServiceFromPattern(pattern).value)
  {
    SegmentsSlashFree(pattern);
    GuessSpec(Segments(pattern));
  }

  lemma {:induction false} GuessSpec(parts: seq<string>)
    requires forall i :: 0 <= i < |parts| ==> '/' !in parts[i]
    ensures (forall i :: 0 <= i < |parts| ==> !IsLiteral(parts[i])) ==> GuessFromSegments(parts).None?
    ensures (exists i :: 0 <= i < |parts| && IsLiteral(parts[i])) ==>
              exists j :: LastLiteralAt(parts, j) && GuessFromSegments(parts) == Guess(parts[j])
    ensures GuessFromSegments(parts).Some? ==> GoodGuess(GuessFromSegments(parts).value)
  {
    if forall i :: 0 <= i < |parts| ==> !IsLiteral(parts[i]) {
      NoLiterals(parts);
    } else {
      GuessOfLast(parts);
    }
    GuessGood(parts);
  }

  /** With a literal part, the guess is that of the last literal part. */
  lemma {:induction false} GuessOfLast(parts: seq<string>)
    requires exists i :: 0 <= i < |parts| && IsLiteral(parts[i])
    ensures exists j :: LastLiteralAt(parts, j) && GuessFromSegments(parts) == Guess(parts[j])
  {
    var i :| 0 <= i < |parts| && IsLiteral(parts[i]);
    var literals := Literals(parts);
    assert parts[i] in literals;
    LiteralsLast(parts);
  }

  lemma {:induction false} GuessGood(parts: seq<string>)
    requires forall i :: 0 <= i < |parts| ==> '/' !in parts[i]
    ensures GuessFromSegments(parts).Some? ==> GoodGuess(GuessFromSegments(parts).value)
  {
    var literals := Literals(parts);
    if parts != [] && literals != [] {
      var seg := literals[|literals| - 1];
      LastLiteralPlain(parts, literals, seg);
      GuessOfPlain(seg);
    }
  }

  lemma GuessOfPlain(seg: string)
    requires PlainChars(seg)
    ensures Guess(seg).Some? ==> GoodGuess(Guess(seg).value)
  {
    if Lower(PyStrip(seg)) != [] {
      StripLowerGood(seg);
    }
  }

  /** The last literal comes from a literal part that no literal part follows. */
  lemma {:induction false} LiteralsLast(parts: seq<string>)
    requires Literals(parts) != []
    ensures var ls := Literals(parts); exists j :: LastLiteralAt(parts, j) && parts[j] == ls[|ls| - 1]
    decreases |parts|
  {
    var n := |parts| - 1;
    if IsLiteral(parts[n]) {
      assert LastLiteralAt(parts, n);
    } else {
      LiteralsLast(parts[..n]);
      var ls := Literals(parts[..n]);
      var j :| LastLiteralAt(parts[..n], j) && parts[..n][j] == ls[|ls| - 1];
      assert LastLiteralAt(parts, j) by {
        forall j2 | j < j2 < |parts| ensures !IsLiteral(parts[j2]) {
          if j2 < n { assert parts[..n][j2] == parts[j2]; }
        }
      }
    }
  }

  /** No literal segment, no literals. */
  lemma {:induction false} NoLiterals(parts: seq<string>)
    requires forall i :: 0 <= i < |parts| ==> !IsLiteral(parts[i])
    ensures Literals(parts) == []
    decreases |parts|
  {
    if parts != [] {
      var n := |parts| - 1;
      NoLiterals(parts[..n]);
    }
  }

  lemma LastLiteralPlain(parts: seq<string>, literals: seq<string>, seg: string)
    requires forall i :: 0 <= i < |parts| ==> '/' !in parts[i]
    requires literals == Literals(parts) && literals != [] && seg == literals[|literals| - 1]
    ensures PlainChars(seg)
  {
    assert seg in literals;
    assert seg in parts && IsLiteral(seg);
  }

  /** Stripping keeps a run of the string's own characters. */
  lemma {:induction false} StripInside(s: string)
    ensures exists a, b :: 0 <= a <= b <= |s| && PyStrip(s) == s[a..b]
  {
    var t := TrimStartBy(s, PyIsSpace);
    TrimStartBySuffix(s, PyIsSpace);
    TrimEndByPrefix(t, PyIsSpace);
    var a := |s| - |t|;
    var b := a + |PyStrip(s)|;
    assert PyStrip(s) == t[..|PyStrip(s)|];
    assert t[..|PyStrip(s)|] == s[a..b];
  }

  lemma {:induction false} StripLowerGood(seg: string)
    requires PlainChars(seg)
    requires Lower(PyStrip(seg)) != []
    ensures GoodGuess(Lower(PyStrip(seg)))
  {
    var t := PyStrip(seg);
    StripInside(seg);
    var a, b :| 0 <= a <= b <= |seg| && t == seg[a..b];
    SlicePlain(seg, a, b);
    LowerGood(t);
  }

  lemma SlicePlain(s: string, a: int, b: int)
    requires 0 <= a <= b <= |s| && PlainChars(s)
    ensures PlainChars(s[a..b])
  {
    assert forall k :: 0 <= k < b - a ==> s[a..b][k] == s[a + k];
  }

  /** Lower-casing keeps plain characters plain and a solid end solid. */
  lemma LowerGood(t: string)
    requires PlainChars(t) && EndsSolid(t)
    ensures GoodGuess(Lower(t))
  {
    LowerKeeps(t);
  }

  /** Lower-casing only changes ASCII capitals. */
  lemma LowerKeeps(t: string)
    ensures |Lower(t)| == |t| && NoCapitals(Lower(t))
    ensures forall k :: 0 <= k < |t| ==> Lower(t)[k] == LowerChar(t[k])
  {
  }

  // ---------------------------------------------------------------------------
  // Guessing a service from an owner
  // ---------------------------------------------------------------------------

  /** The owner without its `@` and, when it has a `/`, only what follows the first one. */
  function OwnerTail(o: string): string {
    var a := if o != [] && o[0] == '@' then o[1..] else o;
    if '/' in a then a[IndexOf(a, '/') + 1..] else a
  }

  /** `_infer_service_from_owner`. */
  function InferServiceFromOwner(owner: string): Option<string> {
    var o := PyStrip(owner);
    if o == [] then None
    else
      var r := Lower(ReplaceChar(OwnerTail(o), '-', '_'));
      if r == [] then None else Some(r)
  }

  /** A guess from an owner is lower-case, has no `-`, and does not end in
      whitespace; a blank owner gives none. */
  lemma {:induction false} InferFromOwnerSpec(owner: string)
    ensures PyStrip(owner) == [] ==> InferServiceFromOwner(owner).None?
    ensures InferServiceFromOwner(owner).Some? ==>
      var c := InferServiceFromOwner(owner).value;
      EndsSolid(c) && NoCapitals(c) && '-' !in c
  {
    var o := PyStrip(owner);
    if o != [] {
      var tail := OwnerTail(o);
      if tail != [] {
        StripEndsSolid(owner);
        TailSolid(o);
        MapsKeepSolid(tail);
      }
    }
  }

  lemma StripEndsSolid(s: string)
    requires PyStrip(s) != []
    ensures EndsSolid(PyStrip(s))
  {
  }

  /** The tail of an owner is a suffix of it. */
  lemma TailSuffix(o: string)
    ensures |OwnerTail(o)| <= |o| && OwnerTail(o) == o[|o| - |OwnerTail(o)|..]
  {
    var a := if o != [] && o[0] == '@' then o[1..] else o;
    assert a == o[|o| - |a|..];
    if '/' in a {
      var k := IndexOf(a, '/') + 1;
      assert a[k..] == o[|o| - |a| + k..];
    }
  }

  lemma {:induction false} TailSolid(o: string)
    requires EndsSolid(o) && OwnerTail(o) != []
    ensures EndsSolid(OwnerTail(o))
  {
    TailSuffix(o);
    var t := OwnerTail(o);
    assert t[|t| - 1] == o[|o| - 1];
  }

  /** `-` becoming `_` and lower-casing keep a solid end and leave no `-`. */
  lemma MapsKeepSolid(t: string)
    requires EndsSolid(t)
    ensures var c := Lower(ReplaceChar(t, '-', '_')); EndsSolid(c) && NoCapitals(c) && '-' !in c
  {
    var u := ReplaceChar(t, '-', '_');
    LowerKeeps(u);
    var c := Lower(u);
    assert forall k :: 0 <= k < |c| ==> c[k] != '-';
  }

  /** A GitHub team `@org/team-name` gives its team name with `_` for `-`. */
  lemma {:induction false} TeamOwner(org: string, team: string)
    requires '/' !in org && team != []
    requires PyStrip("@" + org + "/" + team) == "@" + org + "/" + team
    ensures InferServiceFromOwner("@" + org + "/" + team) == Some(Lower(ReplaceChar(team, '-', '_')))
  {
    var o := "@" + org + "/" + team;
    var a := o[1..];
    assert a == org + "/" + team;
    IndexOfAfter(org, '/', team);
    assert org + "/" + team == org + ['/'] + team;
    assert a[|org| + 1..] == team;
  }

  /** An owner `org/team` without `@` gives what follows its first `/`. */
  lemma {:induction false} SlashOwner(org: string, team: string)
    requires '/' !in org && (org == [] || org[0] != '@') && team != []
    requires PyStrip(org + "/" + team) == org + "/" + team
    ensures InferServiceFromOwner(org + "/" + team) == Some(Lower(ReplaceChar(team, '-', '_')))
  {
    SlashTail(org, team, org + "/" + team);
  }

  lemma {:induction false} SlashTail(org: string, team: string, o: string)
    requires '/' !in org && (org == [] || org[0] != '@')
    requires o == org + ['/'] + team
    ensures OwnerTail(o) == team
  {
    assert o[0] != '@' by {
      if org == [] { assert o[0] == '/'; } else { assert o[0] == org[0]; }
    }
    IndexOfAfter(org, '/', team);
    assert o[|org|] == '/';
    assert o[|org| + 1..] == team;
  }

  /** A user `@alice-b` without `/` gives `alice_b`. */
  lemma {:induction false} AtOwner(user: string)
    requires '/' !in user && user != []
    requires PyStrip("@" + user) == "@" + user
    ensures InferServiceFromOwner("@" + user) == Some(Lower(ReplaceChar(user, '-', '_')))
  {
    var o := "@" + user;
    assert o[1..] == user;
  }

  /** A plain owner such as `alice-b`, without `@` or `/`, gives `alice_b`. */
  lemma {:induction false} PlainOwner(user: string)
    requires '/' !in user && user != [] && user[0] != '@'
    requires PyStrip(user) == user
    ensures InferServiceFromOwner(user) == Some(Lower(ReplaceChar(user, '-', '_')))
  {
  }

  // ---------------------------------------------------------------------------
  // The text `init` writes
  // ---------------------------------------------------------------------------

  /** The two header lines. */
  const Header: seq<string> := ["# Generated from CODEOWNERS", "# pattern    service"]

  /** The service of a rule: from the pattern, else from the first owner,
      else `service`. */
  function ServiceFor(pattern: string, owner: string): string {
    match InferServiceFromPattern(pattern)
    case Some(s) => s
    case None =>
      match InferServiceFromOwner(owner)
      case Some(s) => s
      case None => "service"
  }

  /** The output line for one CODEOWNERS line, if it gives one: a line that
      is neither blank nor a comment and has a pattern and an owner. */
  function InitRow(raw: string): Option<string> {
    var line := PyStrip(raw);
    if line == [] || line[0] == '#' then None
    else
      var parts := Words(line, PyIsSpace);
      if |parts| < 2 then None
      else Some(parts[0] + "\t" + ServiceFor(parts[0], parts[1]))
  }

  /** The output line each CODEOWNERS line gives, if any. */
  function RowResults(lines: seq<string>): (rs: seq<Option<string>>)
    ensures |rs| == |lines|
  {
    seq(|lines|, i requires 0 <= i < |lines| => InitRow(lines[i]))
  }

  lemma RowResultsAt(lines: seq<string>, i: int)
    requires 0 <= i < |lines|
    ensures RowResults(lines)[i] == InitRow(lines[i])
  {
  }

  /** The values present, in order. */
  function Somes(rs: seq<Option<string>>): (xs: seq<string>)
    ensures |xs| <= |rs|
    decreases |rs|
  {
    if rs == [] then []
    else
      var n := |rs| - 1;
      Somes(rs[..n]) + (match rs[n] case Some(x) => [x] case None => [])
  }

  /** The output lines for the CODEOWNERS lines, in order. */
  function InitRows(lines: seq<string>): (rows: seq<string>)
    ensures |rows| <= |lines|
  {
    Somes(RowResults(lines))
  }

  /** The text `init` prints or writes. */
  function InitText(txt: string): string {
    TextOf(Header + InitRows(SplitLines(txt)))
  }

  /** Lines joined by newlines, with a final newline. */
  function TextOf(lines: seq<string>): string {
    JoinWith(lines, '\n') + "\n"
  }

  /** The loop of `cmd_init`, appending one line per rule. */
  method CmdInitText(txt: string) returns (out: string)
    ensures out == InitText(txt)
  {
    var lines := SplitLines(txt);
    ghost var rs := RowResults(lines);
    var linesOut: seq<string> := [];
    linesOut := linesOut + ["# Generated from CODEOWNERS"];
    linesOut := linesOut + ["# pattern    service"];
    assert linesOut == Header + Somes(rs[..0]);
    for i := 0 to |lines|
      invariant linesOut == Header + Somes(rs[..i])
    {
      RowResultsAt(lines, i);
      RowStep(rs, i, linesOut);
      var line := PyStrip(lines[i]);
      if line == [] || line[0] == '#' {
        assert rs[i] == None;
        continue;
      }
      var parts := Words(line, PyIsSpace);
      if |parts| < 2 {
        assert rs[i] == None;
        continue;
      }
      var pattern := parts[0];
      var svc := ServiceFor(pattern, parts[1]);
      assert rs[i] == Some(pattern + "\t" + svc);
      linesOut := linesOut + [pattern + "\t" + svc];
    }
    assert rs[..|lines|] == rs;
    out := JoinWith(linesOut, '\n') + "\n";
    assert out == TextOf(Header + InitRows(lines));
  }

  lemma {:induction false} RowStep(rs: seq<Option<string>>, i: nat, out: seq<string>)
    requires i < |rs| && out == Header + Somes(rs[..i])
    ensures rs[i].None? ==> Header + Somes(rs[..i + 1]) == out
    ensures rs[i].Some? ==> Header + Somes(rs[..i + 1]) == out + [rs[i].value]
  {
    assert rs[..i + 1][..i] == rs[..i];
  }

  /** Exactly the lines that give a row do, in order: a row comes from a
      line, and each line's row is in the output. */
  lemma {:induction false} InitRowsMembers(lines: seq<string>, row: string)
    ensures row in InitRows(lines) <==> exists i :: 0 <= i < |lines| && InitRow(lines[i]) == Some(row)
  {
    var rs := RowResults(lines);
    SomesMembers(rs, row);
    if exists i :: 0 <= i < |lines| && InitRow(lines[i]) == Some(row) {
      var i :| 0 <= i < |lines| && InitRow(lines[i]) == Some(row);
      RowResultsAt(lines, i);
    }
    if exists i :: 0 <= i < |rs| && rs[i] == Some(row) {
      var i :| 0 <= i < |rs| && rs[i] == Some(row);
      RowResultsAt(lines, i);
    }
  }

  lemma {:induction false} SomesMembers(rs: seq<Option<string>>, x: string)
    ensures x in Somes(rs) <==> exists i :: 0 <= i < |rs| && rs[i] == Some(x)
    decreases |rs|
  {
    if rs != [] {
      var n := |rs| - 1;
      SomesMembers(rs[..n], x);
      assert forall i :: 0 <= i < n ==> rs[..n][i] == rs[i];
    }
  }

  /** The rows of two runs of lines follow each other. */
  lemma {:induction false} InitRowsAppend(a: seq<string>, b: seq<string>)
    ensures InitRows(a + b) == InitRows(a) + InitRows(b)
  {
    assert forall i :: 0 <= i < |a| ==> RowResults(a + b)[i] == InitRow(a[i]);
    assert forall i :: |a| <= i < |a + b| ==> RowResults(a + b)[i] == InitRow(b[i - |a|]);
    assert RowResults(a + b) == RowResults(a) + RowResults(b);
    SomesAppend(RowResults(a), RowResults(b));
  }

  lemma {:induction false} SomesAppend(a: seq<Option<string>>, b: seq<Option<string>>)
    ensures Somes(a + b) == Somes(a) + Somes(b)
    decreases |b|
  {
    if b == [] {
      assert a + b == a;
    } else {
      var n := |b| - 1;
      assert (a + b)[..|a + b| - 1] == a + b[..n];
      SomesAppend(a, b[..n]);
    }
  }

  /** A row is the pattern, a tab and a service that does not end in
      whitespace; blank lines, comments and lines without an owner give none. */
  lemma {:induction false} InitRowShape(raw: string)
    ensures PyStrip(raw) == [] ==> InitRow(raw).None?
    ensures PyStrip(raw) != [] && PyStrip(raw)[0] == '#' ==> InitRow(raw).None?
    ensures InitRow(raw).Some? ==>
      var parts := Words(PyStrip(raw), PyIsSpace);
      && |parts| >= 2
      && InitRow(raw).value == parts[0] + "\t" + ServiceFor(parts[0], parts[1])
      && EndsSolid(ServiceFor(parts[0], parts[1]))
  {
    var line := PyStrip(raw);
    if line != [] && line[0] != '#' {
      var parts := Words(line, PyIsSpace);
      if |parts| >= 2 {
        ServiceEndsSolid(parts[0], parts[1]);
      }
    }
  }

  lemma {:induction false} ServiceEndsSolid(pattern: string, owner: string)
    ensures EndsSolid(ServiceFor(pattern, owner))
  {
    InferFromPatternSpec(pattern);
    InferFromOwnerSpec(owner);
    var s := "service";
    assert s[|s| - 1] == 'e';
  }

  /** A row ends with a character that is not whitespace. */
  lemma {:induction false} RowSolid(raw: string)
    requires InitRow(raw).Some?
    ensures EndsSolid(InitRow(raw).value)
  {
    InitRowShape(raw);
    var parts := Words(PyStrip(raw), PyIsSpace);
    var svc := ServiceFor(parts[0], parts[1]);
    assert InitRow(raw).value == (parts[0] + "\t") + svc;
  }

  /** Every row ends with a character that is not whitespace. */
  lemma {:induction false} RowsEndSolid(lines: seq<string>)
    ensures forall i :: 0 <= i < |InitRows(lines)| ==> EndsSolid(InitRows(lines)[i])
  {
    var rs := RowResults(lines);
    forall i | 0 <= i < |rs| && rs[i].Some?
      ensures EndsSolid(rs[i].value)
    {
      RowResultSolid(lines, i);
    }
    SomesSolid(rs);
  }

  lemma RowResultSolid(lines: seq<string>, i: int)
    requires 0 <= i < |lines| && RowResults(lines)[i].Some?
    ensures EndsSolid(RowResults(lines)[i].value)
  {
    RowResultsAt(lines, i);
    RowSolid(lines[i]);
  }

  lemma {:induction false} SomesSolid(rs: seq<Option<string>>)
    requires forall i :: 0 <= i < |rs| && rs[i].Some? ==> EndsSolid(rs[i].value)
    ensures forall j :: 0 <= j < |Somes(rs)| ==> EndsSolid(Somes(rs)[j])
    decreases |rs|
  {
    if rs != [] {
      var n := |rs| - 1;
      assert forall i :: 0 <= i < n ==> rs[..n][i] == rs[i];
      SomesSolid(rs[..n]);
    }
  }

  /** The text starts with the two header lines and ends with exactly one newline. */
  lemma {:induction false} InitTextShape(txt: string)
    ensures StartsWith(InitText(txt), Header[0] + "\n" + Header[1] + "\n")
    ensures var out := InitText(txt); |out| >= 2 && out[|out| - 1] == '\n' && out[|out| - 2] != '\n'
  {
    var rows := InitRows(SplitLines(txt));
    RowsEndSolid(SplitLines(txt));
    TextShape(rows);
    TextStartsWithTwo(Header + rows);
  }

  /** A text of two or more lines starts with the first two, each ended by a newline. */
  lemma {:induction false} TextStartsWithTwo(lines: seq<string>)
    requires |lines| >= 2
    ensures StartsWith(TextOf(lines), lines[0] + "\n" + lines[1] + "\n")
  {
    var rest := JoinWith(lines[1..], '\n');
    JoinCons(lines[0], lines[1..], '\n');
    assert [lines[0]] + lines[1..] == lines;
    assert lines[1..] == [lines[1]] + lines[2..];
    JoinCons(lines[1], lines[2..], '\n');
    assert StartsWith(rest + "\n", lines[1] + "\n");
    var t := TextOf(lines);
    assert t == lines[0] + "\n" + (rest + "\n");
  }

  lemma {:induction false} TextShape(rows: seq<string>)
    requires forall i :: 0 <= i < |rows| ==> EndsSolid(rows[i])
    ensures StartsWith(TextOf(Header + rows), "# Generated from CODEOWNERS\n")
    ensures var out := TextOf(Header + rows); |out| >= 2 && out[|out| - 1] == '\n' && out[|out| - 2] != '\n'
  {
    var lines := Header + rows;
    var last := lines[|lines| - 1];
    assert EndsSolid(last) by {
      if rows == [] {
        assert last == "# pattern    service";
      } else {
        assert last == rows[|rows| - 1];
      }
    }
    JoinEndsWithLast(lines, '\n');
    JoinStartsWithFirst(lines, '\n');
    var j := JoinWith(lines, '\n');
    assert j[|j| - 1] == last[|last| - 1];
    assert TextOf(lines) == j + "\n";
  }

  lemma {:induction false} JoinEndsWithLast(parts: seq<string>, c: char)
    requires parts != []
    ensures |JoinWith(parts, c)| >= |parts[|parts| - 1]|
    ensures JoinWith(parts, c)[|JoinWith(parts, c)| - |parts[|parts| - 1]|..] == parts[|parts| - 1]
    decreases |parts|
  {
    if |parts| > 1 {
      JoinEndsWithLast(parts[1..], c);
      var rest := JoinWith(parts[1..], c);
      assert JoinWith(parts, c) == parts[0] + [c] + rest;
      var last := parts[|parts| - 1];
      assert parts[1..][|parts[1..]| - 1] == last;
      assert (parts[0] + [c] + rest)[|parts[0] + [c] + rest| - |last|..] == rest[|rest| - |last|..];
    }
  }

  lemma {:induction false} JoinStartsWithFirst(parts: seq<string>, c: char)
    requires |parts| >= 2
    ensures StartsWith(JoinWith(parts, c), parts[0] + [c])
  {
    assert JoinWith(parts, c) == parts[0] + [c] + JoinWith(parts[1..], c);
  }
}
