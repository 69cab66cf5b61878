/** The pattern compiler of src/serviceowners/patterns.py: a raw SERVICEOWNERS
    pattern is normalised, translated glob token by glob token into regex
    fragments, and anchored either at the repository root (patterns with a `/`)
    or at any basename (patterns without one). */
module Patterns {
  import opened Wrappers
  import opened Strings

  /** The reasons compile_pattern raises PatternSyntaxError. */
  datatype PatternSyntaxError =
    | EmptyPattern   // nothing is left after `strip()`
    | RootPattern    // only `./` prefixes and one `/` were given: the repository root
    | InvalidClass   // the regex engine rejects a translated character class

  /** One member of a regex character class: a character or a range `lo-hi`. */
  datatype ClassItem = Single(c: char) | Range(lo: char, hi: char)

  /** The regex fragments `_glob_to_regex` emits, one constructor per fragment. */
  datatype Frag =
    | Segment                                     // `*`,  emitted as `[^/]*`
    | Anything                                    // `**`, emitted as `.*`
    | OneChar                                     // `?`,  emitted as `[^/]`
    | Class(negated: bool, items: seq<ClassItem>) // `[...]`, emitted as `[...]` or `[^...]`
    | Lit(c: char)                                // any other character, escaped

  // `^body$` for patterns containing `/`; `(^|.*/)body$` for the others.
  datatype Anchoring = Rooted | Basename

  datatype CompiledPattern = CompiledPattern(raw: string, normalized: string, anchoring: Anchoring, body: seq<Frag>)

  // ---------------------------------------------------------------------------
  // Normalisation (`_normalize_pattern`)
  // ---------------------------------------------------------------------------

  /** `s` starts with `./`. */
  predicate DotSlashFirst(s: string) {
    |s| >= 2 && s[0] == '.' && s[1] == '/'
  }

  /** `s` starts with `/`. */
  predicate SlashFirst(s: string) {
    s != [] && s[0] == '/'
  }

  /** `s` ends with `/`. */
  predicate SlashLast(s: string) {
    s != [] && s[|s| - 1] == '/'
  }

  /** `while pat.startswith("./"): pat = pat[2:]` */
  function StripDotSlash(s: string): (r: string)
    ensures |r| <= |s|
    ensures !DotSlashFirst(r)
    decreases |s|
  {
    if DotSlashFirst(s) then StripDotSlash(s[2..]) else s
  }

  /** `if pat.startswith("/"): pat = pat[1:]` */
  function StripOneSlash(s: string): string {
    if SlashFirst(s) then s[1..] else s
  }

  /** The normalised pattern, or the error `_normalize_pattern` raises. */
  function Normalized(pat: string): Result<string, PatternSyntaxError> {
    var t := PyStrip(pat);
    if t == [] then Failure(EmptyPattern) else NormalizedPath(ReplaceChar(t, '\\', '/'))
  }

  /** The steps after stripping and turning backslashes into `/`. */
  function NormalizedPath(q: string): Result<string, PatternSyntaxError> {
    NormalizedRest(StripDotSlash(q))
  }

  // The steps after the leading `./`s are gone: one `/` is dropped, nothing
  // left means the root, and a trailing `/` becomes `/**`.
  function NormalizedRest(e: string): Result<string, PatternSyntaxError> {
    var p := StripOneSlash(e);
    if p == [] then Failure(RootPattern)
    else if SlashLast(p) then Success(TrimEndBy(p, IsSlash) + "/**")
    else Success(p)
  }

  /** `_normalize_pattern`: reassigns `pat` step by step as the source does. */
  method NormalizePattern(pat: string) returns (r: Result<string, PatternSyntaxError>)
    ensures r == Normalized(pat)
  {
    var p := PyStrip(pat);
    if p == [] {
      return Failure(EmptyPattern);
    }
    p := ReplaceChar(p, '\\', '/');
    ghost var replaced := p;
    while DotSlashFirst(p)
      invariant StripDotSlash(p) == StripDotSlash(replaced)
      decreases |p|
    {
      p := p[2..];
    }
    if SlashFirst(p) {
      p := p[1..];
    }
    if p == [] {
      return Failure(RootPattern);
    }
    if SlashLast(p) {
      p := TrimEndBy(p, IsSlash) + "/**";
    }
    return Success(p);
  }

  // ---------------------------------------------------------------------------
  // Glob translation (`_glob_to_regex`)
  // ---------------------------------------------------------------------------

  /** How the regex engine reads the members of a class body that holds no `]`:
      `a-b` is a range, a `-` with nothing after it is literal. */
  function ClassItems(s: string): seq<ClassItem>
    decreases |s|
  {
    if s == [] then []
    else if |s| >= 3 && s[1] == '-' then [Range(s[0], s[2])] + ClassItems(s[3..])
    else [Single(s[0])] + ClassItems(s[1..])
  }

  /** The class for the text between `[` and `]`: a leading `!` is turned into
      `^`, and a leading `^` is kept, so both negate. */
  function ClassOf(inner: string): Frag {
    if inner != [] && (inner[0] == '!' || inner[0] == '^') then Class(true, ClassItems(inner[1..]))
    else Class(false, ClassItems(inner))
  }

  /** Where the search for the closing `]` starts, counted from the `[` at `s[0]`. */
  function ClassSearchStart(s: string): nat {
    if |s| > 1 && (s[1] == '!' || s[1] == '^') then 2 else 1
  }

  /** The index of the `]` closing the class opened by `s[0]`, or `|s|` when none does. */
  function ClassEnd(s: string): (j: nat)
    requires s != []
    ensures ClassSearchStart(s) <= j <= |s|
    ensures j < |s| ==> s[j] == ']'
  {
    var start := ClassSearchStart(s);
    if start >= |s| then |s| else start + IndexOf(s[start..], ']')
  }

  predicate NotStar(c: char) { c != '*' }

  /** The fragment for the glob token at the front of `s`, and how many
      characters that token takes. */
  function NextToken(s: string): (t: (Frag, nat))
    requires s != []
    ensures 1 <= t.1 <= |s|
  {
    if s[0] == '*' then
      if |s| > 1 && s[1] == '*' then (Anything, FirstWhere(s, NotStar)) else (Segment, 1)
    else if s[0] == '?' then (OneChar, 1)
    else if s[0] == '[' then
      var j := ClassEnd(s);
      if j >= |s| then (Lit('['), 1) else (ClassOf(s[1..j]), j + 1)
    else (Lit(s[0]), 1)
  }

  /** The fragments emitted for the glob `s`, token by token. */
  function Translate(s: string): seq<Frag>
    decreases |s|
  {
    if s == [] then [] else var t := NextToken(s); [t.0] + Translate(s[t.1..])
  }

  /** The translation of `s` is the fragment of its first token followed by
      the translation of the rest. */
  lemma {:induction false} TranslateCons(s: string, f: Frag, k: nat)
    requires s != [] && NextToken(s) == (f, k)
    ensures Translate(s) == [f] + Translate(s[k..])
  {
  }

  /** One token of `pat`, read at index `i`, ends at `next`. */
  lemma {:induction false} TranslateStep(pat: string, i: nat, f: Frag, next: nat)
    requires i < next <= |pat| && NextToken(pat[i..]) == (f, next - i)
    ensures Translate(pat[i..]) == [f] + Translate(pat[next..])
  {
    TranslateCons(pat[i..], f, next - i);
    assert pat[i..][next - i..] == pat[next..];
  }

  /** A run of `n >= 2` stars is one `**` token. */
  lemma {:induction false} StarRunToken(s: string, n: nat)
    requires 2 <= n <= |s|
    requires forall k :: 0 <= k < n ==> s[k] == '*'
    requires n == |s| || s[n] != '*'
    ensures NextToken(s) == (Anything, n)
  {
    var m := FirstWhere(s, NotStar);
    assert m == n;
  }

  /** The `[` at `s[0]` whose closing-bracket search stops at `j`. */
  lemma {:induction false} ClassToken(s: string, j: nat)
    requires s != [] && s[0] == '[' && ClassSearchStart(s) <= j <= |s|
    requires ']' !in s[ClassSearchStart(s)..j]
    requires j == |s| || s[j] == ']'
    ensures NextToken(s) == if j == |s| then (Lit('['), 1) else (ClassOf(s[1..j]), j + 1)
  {
    var start := ClassSearchStart(s);
    if start < |s| {
      var k := IndexOf(s[start..], ']');
      assert k == j - start;
    }
  }

  /** The inner loop of `_glob_to_regex` that moves `i` to the last star of a
      `**` run starting at `i`. */
  method SkipStarRun(pat: string, i: nat) returns (last: nat)
    requires i + 1 < |pat| && pat[i] == '*' && pat[i + 1] == '*'
    ensures i < last < |pat|
    ensures NextToken(pat[i..]) == (Anything, last + 1 - i)
  {
    last := i;
    while last + 1 < |pat| && pat[last + 1] == '*'
      invariant i <= last < |pat|
      invariant forall k :: i <= k <= last ==> pat[k] == '*'
    {
      last := last + 1;
    }
    StarRunToken(pat[i..], last + 1 - i);
  }

  /** The inner loop of `_glob_to_regex` that looks for the `]` closing the
      class opened at `i`; `|pat|` when there is none. */
  method FindClassEnd(pat: string, i: nat) returns (j: nat)
    requires i < |pat| && pat[i] == '['
    ensures i < j <= |pat|
    ensures NextToken(pat[i..]) == if j == |pat| then (Lit('['), 1) else (ClassOf(pat[i + 1..j]), j + 1 - i)
  {
    j := i + 1;
    if j < |pat| && (pat[j] == '!' || pat[j] == '^') {
      j := j + 1;
    }
    ghost var j0 := j;
    while j < |pat| && pat[j] != ']'
      invariant j0 <= j <= |pat|
      invariant ']' !in pat[j0..j]
    {
      j := j + 1;
    }
    ClassTokenAt(pat, i, j0, j);
  }

  /** `ClassToken` for the token read at index `i` of `pat`. */
  lemma {:induction false} ClassTokenAt(pat: string, i: nat, j0: nat, j: nat)
    requires i < |pat| && pat[i] == '['
    requires j0 == i + ClassSearchStart(pat[i..]) && j0 <= j <= |pat|
    requires ']' !in pat[j0..j]
    requires j == |pat| || pat[j] == ']'
    ensures NextToken(pat[i..]) == if j == |pat| then (Lit('['), 1) else (ClassOf(pat[i + 1..j]), j + 1 - i)
  {
    var rest := pat[i..];
    assert rest[j0 - i..j - i] == pat[j0..j];
    ClassToken(rest, j - i);
    if j < |pat| {
      assert rest[1..j - i] == pat[i + 1..j];
    }
  }

  /** One pass of the `_glob_to_regex` loop body: the fragment appended for the
      token at `i`, and the index the loop continues from. */
  method ReadToken(pat: string, i: nat) returns (frag: Frag, next: nat)
    requires i < |pat|
    ensures i < next <= |pat|
    ensures NextToken(pat[i..]) == (frag, next - i)
  {
    var c := pat[i];
    if c == '*' {
      if i + 1 < |pat| && pat[i + 1] == '*' {
        var last := SkipStarRun(pat, i);
        frag, next := Anything, last + 1;
      } else {
        frag, next := Segment, i + 1;
      }
    } else if c == '?' {
      frag, next := OneChar, i + 1;
    } else if c == '[' {
      var j := FindClassEnd(pat, i);
      if j >= |pat| {
        frag, next := Lit('['), i + 1;
      } else {
        frag, next := ClassOf(pat[i + 1..j]), j + 1;
      }
    } else {
      frag, next := Lit(c), i + 1;
    }
  }

  /** `_glob_to_regex`: walks `pat` with the index `i`, appending to `out`. */
  method GlobToFrags(pat: string) returns (out: seq<Frag>)
    ensures out == Translate(pat)
  {
    out := [];
    var i := 0;
    while i < |pat|
      invariant 0 <= i <= |pat|
      invariant out + Translate(pat[i..]) == Translate(pat)
    {
      var frag, next := ReadToken(pat, i);
      TranslateStep(pat, i, frag, next);
      out := out + [frag];
      i := next;
    }
  }

  // ---------------------------------------------------------------------------
  // Meaning of the fragments
  // ---------------------------------------------------------------------------

  predicate ItemHas(item: ClassItem, c: char) {
    match item
    case Single(x) => c == x
    case Range(lo, hi) => lo <= c <= hi
  }

  predicate ClassHas(items: seq<ClassItem>, c: char) {
    exists k :: 0 <= k < |items| && ItemHas(items[k], c)
  }

  /** `s` is in the language of the regex `body` (what `re.match` with `$` decides). */
  predicate Matches(body: seq<Frag>, s: string)
    decreases |body|, |s|
  {
    if body == [] then s == []
    else match body[0]
      case Segment => Matches(body[1..], s) || (s != [] && s[0] != '/' && Matches(body, s[1..]))
      case Anything => Matches(body[1..], s) || (s != [] && Matches(body, s[1..]))
      case OneChar => s != [] && s[0] != '/' && Matches(body[1..], s[1..])
      case Class(negated, items) => s != [] && ClassHas(items, s[0]) != negated && Matches(body[1..], s[1..])
      case Lit(c) => s != [] && s[0] == c && Matches(body[1..], s[1..])
  }

  /** What `re.compile` rejects among the fragments: an empty class (`[]`,
      `[!]`, `[^]`) or a range whose ends are in the wrong order. */
  predicate FragValid(f: Frag) {
    f.Class? ==> f.items != [] && forall k :: 0 <= k < |f.items| ==> (f.items[k].Range? ==> f.items[k].lo <= f.items[k].hi)
  }

  predicate AllValid(body: seq<Frag>) {
    forall k :: 0 <= k < |body| ==> FragValid(body[k])
  }

  /** `compile_pattern`. */
  function Compile(raw: string): Result<CompiledPattern, PatternSyntaxError> {
    var norm :- Normalized(raw);
    var body := Translate(norm);
    if !AllValid(body) then Failure(InvalidClass)
    else Success(CompiledPattern(raw, norm, if '/' in norm then Rooted else Basename, body))
  }

  /** `compile_pattern`, built from the two translation steps. */
  method CompilePattern(raw: string) returns (r: Result<CompiledPattern, PatternSyntaxError>)
    ensures r == Compile(raw)
  {
    var norm := NormalizePattern(raw);
    if norm.Failure? {
      return Failure(norm.error);
    }
    var body := GlobToFrags(norm.value);
    if !AllValid(body) {
      return Failure(InvalidClass);
    }
    var anchoring := if '/' in norm.value then Rooted else Basename;
    return Success(CompiledPattern(raw, norm.value, anchoring, body));
  }

  /** `CompiledPattern.matches`: the anchored regex accepts the whole path. */
  predicate PatternMatches(cp: CompiledPattern, path: string) {
    match cp.anchoring
    case Rooted => Matches(cp.body, path)
    case Basename => Matches(cp.body, path) || Matches([Anything, Lit('/')] + cp.body, path)
  }

  // ---------------------------------------------------------------------------
  // Normalisation properties
  // ---------------------------------------------------------------------------

  /** `t` is some number of `./` followed by at most one `/`: what names the
      repository root once the leading `./`s and one `/` are gone. */
  predicate OnlyRootPrefix(t: string)
    decreases |t|
  {
    t == [] || t == "/" || (DotSlashFirst(t) && OnlyRootPrefix(t[2..]))
  }

  lemma {:induction false} StripLeadingEmptyIff(t: string)
    ensures StripOneSlash(StripDotSlash(t)) == [] <==> OnlyRootPrefix(t)
    decreases |t|
  {
    if DotSlashFirst(t) {
      StripLeadingEmptyIff(t[2..]);
    }
  }

  /** A pattern fails to normalise exactly when it is blank (EmptyPattern) or,
      with backslashes read as `/`, names only the repository root (RootPattern). */
  lemma {:induction false} NormalizedFailure(pat: string)
    ensures Normalized(pat) == Failure(EmptyPattern) <==> PyStrip(pat) == []
    ensures Normalized(pat).Failure? <==>
      (PyStrip(pat) == [] || OnlyRootPrefix(ReplaceChar(PyStrip(pat), '\\', '/')))
  {
    var t := PyStrip(pat);
    if t != [] {
      var q := ReplaceChar(t, '\\', '/');
      assert Normalized(pat) == NormalizedPath(q);
      NormalizedPathFailure(q);
    }
  }

  lemma {:induction false} NormalizedPathFailure(q: string)
    ensures NormalizedPath(q) != Failure(EmptyPattern)
    ensures NormalizedPath(q).Failure? <==> OnlyRootPrefix(q)
  {
    StripLeadingEmptyIff(q);
  }

  /** A normalised pattern is non-empty, has no backslash and no trailing `/`. */
  lemma {:induction false} NormalizedShape(pat: string)
    requires Normalized(pat).Success?
    ensures var n := Normalized(pat).value;
      n != [] && '\\' !in n && !SlashLast(n)
  {
    var t := PyStrip(pat);
    var q := ReplaceChar(t, '\\', '/');
    ReplaceCharRemoves(t, '\\', '/');
    NormalizedPathShape(q);
  }

  /** What `StripDotSlash` leaves is a suffix of its input. */
  lemma {:induction false} StripDotSlashSuffix(s: string)
    ensures StripDotSlash(s) == s[|s| - |StripDotSlash(s)|..]
    decreases |s|
  {
    if DotSlashFirst(s) {
      StripDotSlashSuffix(s[2..]);
      assert s[2..][|s| - 2 - |StripDotSlash(s)|..] == s[|s| - |StripDotSlash(s)|..];
    }
  }

  /** A character absent from `s` is absent from every suffix of it. */
  lemma {:induction false} SuffixAvoids(s: string, k: nat, c: char)
    requires k <= |s| && c !in s
    ensures c !in s[k..]
  {
  }

  lemma {:induction false} NormalizedPathShape(q: string)
    requires NormalizedPath(q).Success? && '\\' !in q
    ensures var n := NormalizedPath(q).value;
      n != [] && '\\' !in n && !SlashLast(n)
  {
    var e := StripDotSlash(q);
    StripDotSlashSuffix(q);
    SuffixAvoids(q, |q| - |e|, '\\');
    NormalizedRestShape(e);
  }

  lemma {:induction false} NormalizedRestShape(e: string)
    requires NormalizedRest(e).Success? && '\\' !in e
    ensures var n := NormalizedRest(e).value;
      n != [] && '\\' !in n && !SlashLast(n)
  {
    var p := StripOneSlash(e);
    assert '\\' !in p by {
      if SlashFirst(e) { SuffixAvoids(e, 1, '\\'); }
    }
    if SlashLast(p) {
      var b := TrimEndBy(p, IsSlash);
      TrimEndByPrefix(p, IsSlash);
      assert forall k :: 0 <= k < |b| ==> b[k] in p;
      assert NormalizedRest(e).value == b + "/**";
    }
  }

  lemma {:induction false} TrimmedAlready(s: string, drop: char -> bool)
    requires s != [] && !drop(s[0]) && !drop(s[|s| - 1])
    ensures TrimEndBy(TrimStartBy(s, drop), drop) == s
  {
  }

  lemma {:induction false} ReplaceCharAbsent(s: string, from: char, to: char)
    requires from !in s
    ensures ReplaceChar(s, from, to) == s
  {
    var r := ReplaceChar(s, from, to);
    assert forall k :: 0 <= k < |s| ==> r[k] == s[k];
  }

  /** Trailing `drop` characters after a part that does not end in one are
      exactly what `TrimEndBy` removes. */
  lemma {:induction false} TrimEndByAppended(g: string, t: string, drop: char -> bool)
    requires g == [] || !drop(g[|g| - 1])
    requires forall k :: 0 <= k < |t| ==> drop(t[k])
    ensures TrimEndBy(g + t, drop) == g
    decreases |t|
  {
    if t != [] {
      assert (g + t)[..|g + t| - 1] == g + t[..|t| - 1];
      TrimEndByAppended(g, t[..|t| - 1], drop);
    } else {
      assert g + t == g;
    }
  }

  /** Stripping `./` from `r + t`, where `t` starts with `/` and `r` does not
      end with one, strips the same prefix of `r` and leaves `t`, unless all
      of `r` but a single `.` is stripped (then that `.` and `t[0]` go too). */
  lemma {:induction false} StripDotSlashAppend(r: string, t: string)
    requires r != [] && r[|r| - 1] != '/'
    requires t != [] && t[0] == '/'
    ensures StripDotSlash(r + t) ==
      if StripDotSlash(r) == "." then StripDotSlash(t[1..]) else StripDotSlash(r) + t
    decreases |r|
  {
    if DotSlashFirst(r) {
      DotSlashAppendStep(r, t);
      StripDotSlashAppend(r[2..], t);
      assert StripDotSlash(r) == StripDotSlash(r[2..]);
    } else {
      DotSlashAppendStop(r, t);
    }
  }

  /** What is left of a string not ending in `/` keeps its last character. */
  lemma {:induction false} StripDotSlashKeepsLast(r: string)
    requires r != [] && r[|r| - 1] != '/'
    ensures StripDotSlash(r) != [] && StripDotSlash(r)[|StripDotSlash(r)| - 1] == r[|r| - 1]
    decreases |r|
  {
    if DotSlashFirst(r) {
      StripDotSlashKeepsLast(r[2..]);
    }
  }

  lemma {:induction false} DotSlashAppendStep(r: string, t: string)
    requires DotSlashFirst(r)
    ensures StripDotSlash(r + t) == StripDotSlash(r[2..] + t)
  {
    assert (r + t)[2..] == r[2..] + t;
  }

  lemma {:induction false} DotSlashAppendStop(r: string, t: string)
    requires r != [] && !DotSlashFirst(r)
    requires t != [] && t[0] == '/'
    ensures StripDotSlash(r + t) == if r == "." then StripDotSlash(t[1..]) else r + t
  {
    assert (r + t)[0] == r[0];
    if r == "." {
      assert (r + t)[1] == '/';
      assert (r + t)[2..] == t[1..];
    } else {
      assert |r| >= 2 ==> (r + t)[1] == r[1];
    }
  }

  /** A run of slashes names the repository root or, when longer than one,
      normalises to the whole-tree pattern. */
  lemma {:induction false} SlashesNormalized(p: string)
    requires forall k :: 0 <= k < |p| ==> p[k] == '/'
    ensures |p| <= 1 ==> NormalizedPath(p) == Failure(RootPattern)
    ensures |p| > 1 ==> NormalizedPath(p) == Success("/**")
  {
    assert !DotSlashFirst(p);
    assert StripDotSlash(p) == p;
    if |p| > 1 {
      var rest := p[1..];
      assert StripOneSlash(p) == rest && SlashLast(rest);
      assert [] + rest == rest;
      TrimEndByAppended([], rest, IsSlash);
      assert TrimEndBy(rest, IsSlash) + "/**" == "/**";
    }
  }

  // The directory shorthand: a pattern ending in `/` behaves as the same
  // pattern with its trailing slashes replaced by `/**` (for patterns without
  // surrounding blanks or backslashes, and apart from the degenerate ones that
  // normalise to `/**`).
  lemma {:induction false} DirectoryShorthand(pat: string)
    requires pat != [] && !PyIsSpace(pat[0]) && SlashLast(pat) && '\\' !in pat
    requires Normalized(pat).Success? && Normalized(pat).value != "/**"
    ensures Normalized(TrimEndBy(pat, IsSlash) + "/**") == Normalized(pat)
  {
    NormalizedPlain(pat);
    var r := TrimEndBy(pat, IsSlash);
    if r == [] {
      OnlySlashes(pat);
    } else {
      ShorthandPlain(pat);
      DirectoryShorthandPath(pat);
    }
  }

  /** A pattern made only of slashes names the root or the whole tree. */
  lemma {:induction false} OnlySlashes(pat: string)
    requires TrimEndBy(pat, IsSlash) == []
    ensures NormalizedPath(pat) == Failure(RootPattern) || NormalizedPath(pat) == Success("/**")
  {
    assert forall k :: 0 <= k < |pat| ==> pat[k] == '/';
    SlashesNormalized(pat);
  }

  /** The rewritten pattern has no surrounding blanks or backslashes either. */
  lemma {:induction false} ShorthandPlain(pat: string)
    requires pat != [] && !PyIsSpace(pat[0]) && '\\' !in pat && TrimEndBy(pat, IsSlash) != []
    ensures Normalized(TrimEndBy(pat, IsSlash) + "/**") == NormalizedPath(TrimEndBy(pat, IsSlash) + "/**")
  {
    var r := TrimEndBy(pat, IsSlash);
    TrimEndByPrefix(pat, IsSlash);
    assert forall k :: 0 <= k < |r| ==> r[k] == pat[k];
    var q := r + "/**";
    assert q[0] == pat[0] && q[|q| - 1] == '*';
    NormalizedPlain(q);
  }

  lemma {:induction false} DirectoryShorthandPath(pat: string)
    requires SlashLast(pat) && TrimEndBy(pat, IsSlash) != []
    requires NormalizedPath(pat) != Failure(RootPattern) && NormalizedPath(pat) != Success("/**")
    ensures NormalizedPath(TrimEndBy(pat, IsSlash) + "/**") == NormalizedPath(pat)
  {
    var r := TrimEndBy(pat, IsSlash);
    SplitTrailingSlashes(pat);
    var slashes := pat[|r|..];
    if StripDotSlash(r) == "." {
      LoneDotShorthand(r, slashes);
    } else {
      DirectoryShorthandParts(r, slashes);
    }
  }

  /** For text without surrounding blanks or backslashes, normalisation is
      just the path steps. */
  lemma {:induction false} NormalizedPlain(s: string)
    requires s != [] && !PyIsSpace(s[0]) && !PyIsSpace(s[|s| - 1]) && '\\' !in s
    ensures Normalized(s) == NormalizedPath(s)
  {
    TrimmedAlready(s, PyIsSpace);
    ReplaceCharAbsent(s, '\\', '/');
  }

  /** A string ending in `/` is its trimmed part followed by a run of slashes. */
  lemma {:induction false} SplitTrailingSlashes(pat: string)
    requires SlashLast(pat) && TrimEndBy(pat, IsSlash) != []
    ensures var r := TrimEndBy(pat, IsSlash);
      && pat == r + pat[|r|..] && r[|r| - 1] != '/'
      && pat[|r|..] != [] && forall k :: 0 <= k < |pat[|r|..]| ==> pat[|r|..][k] == '/'
  {
    var r := TrimEndBy(pat, IsSlash);
    TrimEndByPrefix(pat, IsSlash);
    assert pat == r + pat[|r|..];
  }

  lemma {:induction false} DirectoryShorthandParts(r: string, slashes: string)
    requires r != [] && r[|r| - 1] != '/' && StripDotSlash(r) != "."
    requires slashes != [] && forall k :: 0 <= k < |slashes| ==> slashes[k] == '/'
    ensures NormalizedPath(r + "/**") == NormalizedPath(r + slashes)
  {
    StripDotSlashAppend(r, slashes);
    StripDotSlashAppend(r, "/**");
    StripDotSlashKeepsLast(r);
    var e := StripDotSlash(r);
    assert StripDotSlash(r + slashes) == e + slashes;
    assert StripDotSlash(r + "/**") == e + "/**";
    TrailingSlashesRest(e, slashes);
  }

  /** `./.` followed by slashes names the root or the whole tree. */
  lemma {:induction false} LoneDotShorthand(r: string, slashes: string)
    requires r != [] && r[|r| - 1] != '/' && StripDotSlash(r) == "."
    requires slashes != [] && forall k :: 0 <= k < |slashes| ==> slashes[k] == '/'
    ensures NormalizedPath(r + slashes) == Failure(RootPattern) || NormalizedPath(r + slashes) == Success("/**")
  {
    StripDotSlashAppend(r, slashes);
    var rest := slashes[1..];
    assert forall k :: 0 <= k < |rest| ==> rest[k] == '/';
    SlashesNormalized(rest);
    assert NormalizedPath(r + slashes) == NormalizedPath(rest);
  }

  lemma {:induction false} TrailingSlashesRest(e: string, slashes: string)
    requires e != [] && e[|e| - 1] != '/'
    requires slashes != [] && forall k :: 0 <= k < |slashes| ==> slashes[k] == '/'
    ensures NormalizedRest(e + slashes) == NormalizedRest(e + "/**")
  {
    var g := StripOneSlash(e);
    assert g != [] && g[|g| - 1] != '/';
    assert StripOneSlash(e + slashes) == g + slashes;
    assert StripOneSlash(e + "/**") == g + "/**";
    TrimEndByAppended(g, slashes, IsSlash);
  }

  // ---------------------------------------------------------------------------
  // What each glob token becomes
  // ---------------------------------------------------------------------------

  /** `n` stars. */
  function Stars(n: nat): (s: string)
    ensures |s| == n && forall k :: 0 <= k < n ==> s[k] == '*'
  {
    if n == 0 then [] else "*" + Stars(n - 1)
  }

  /** Two or more stars in a row become one `.*`. */
  lemma {:induction false} TranslateStarRun(n: nat, t: string)
    requires n >= 2 && (t == [] || t[0] != '*')
    ensures Translate(Stars(n) + t) == [Anything] + Translate(t)
  {
    var s := Stars(n) + t;
    assert forall k :: 0 <= k < n ==> s[k] == '*';
    assert n < |s| ==> s[n] == t[0];
    StarRunToken(s, n);
    TranslateCons(s, Anything, n);
    assert s[n..] == t;
  }

  /** A single star becomes `[^/]*`. */
  lemma {:induction false} TranslateStar(t: string)
    requires t == [] || t[0] != '*'
    ensures Translate("*" + t) == [Segment] + Translate(t)
  {
    var s := "*" + t;
    assert |s| > 1 ==> s[1] == t[0];
    TranslateCons(s, Segment, 1);
    assert s[1..] == t;
  }

  /** `?` becomes `[^/]`. */
  lemma {:induction false} TranslateQuestion(t: string)
    ensures Translate("?" + t) == [OneChar] + Translate(t)
  {
    var s := "?" + t;
    TranslateCons(s, OneChar, 1);
    assert s[1..] == t;
  }

  /** A `[` that no `]` closes is an escaped literal `[`. */
  lemma {:induction false} TranslateUnclosedBracket(t: string)
    requires ']' !in t
    ensures Translate("[" + t) == [Lit('[')] + Translate(t)
  {
    var s := "[" + t;
    var start := ClassSearchStart(s);
    assert ']' !in s[start..|s|] by {
      assert forall k :: start <= k < |s| ==> s[k] == t[k - 1];
    }
    ClassToken(s, |s|);
    TranslateCons(s, Lit('['), 1);
    assert s[1..] == t;
  }

  /** `[body]` becomes one class; a leading `!` or `^` in `body` negates it. */
  lemma {:induction false} TranslateBracketClass(body: string, t: string)
    requires ']' !in body
    ensures Translate("[" + body + "]" + t) == [ClassOf(body)] + Translate(t)
  {
    var s := "[" + body + "]" + t;
    var j := |body| + 1;
    assert s[j] == ']';
    assert forall k :: 1 <= k < j ==> s[k] == body[k - 1];
    var start := ClassSearchStart(s);
    assert start <= j;
    assert ']' !in s[start..j];
    ClassToken(s, j);
    assert s[1..j] == body;
    TranslateCons(s, ClassOf(body), j + 1);
    assert s[j + 1..] == t;
  }

  // ---------------------------------------------------------------------------
  // What the fragments match
  // ---------------------------------------------------------------------------

  /** A lone `*` fragment matches exactly the strings without `/`. */
  lemma {:induction false} SegmentMatchesIff(s: string)
    ensures Matches([Segment], s) <==> '/' !in s
    decreases |s|
  {
    assert [Segment][1..] == [];
    if s != [] {
      SegmentMatchesIff(s[1..]);
      assert s == [s[0]] + s[1..];
    }
  }

  /** A lone `**` fragment matches every string. */
  lemma {:induction false} AnythingMatchesAll(s: string)
    ensures Matches([Anything], s)
    decreases |s|
  {
    if s != [] {
      AnythingMatchesAll(s[1..]);
    }
  }

  /** `*` in front of `body`: some run of non-`/` characters, then `body`. */
  lemma {:induction false} SegmentThen(body: seq<Frag>, s: string)
    ensures Matches([Segment] + body, s) <==>
      exists k :: 0 <= k <= |s| && '/' !in s[..k] && Matches(body, s[k..])
    decreases |s|
  {
    var fs := [Segment] + body;
    assert fs[0] == Segment && fs[1..] == body;
    if s == [] {
      assert s[0..] == s;
    } else {
      SegmentThen(body, s[1..]);
      if Matches(fs, s) {
        if Matches(body, s) {
          assert s[..0] == [] && s[0..] == s;
        } else {
          var k :| 0 <= k <= |s[1..]| && '/' !in s[1..][..k] && Matches(body, s[1..][k..]);
          assert s[1..][k..] == s[k + 1..];
          assert s[..k + 1] == [s[0]] + s[1..][..k];
        }
      }
      if exists k :: 0 <= k <= |s| && '/' !in s[..k] && Matches(body, s[k..]) {
        var k :| 0 <= k <= |s| && '/' !in s[..k] && Matches(body, s[k..]);
        if k > 0 {
          assert s[..k][0] == s[0];
          assert s[1..][k - 1..] == s[k..];
          assert s[1..][..k - 1] == s[1..k];
          assert forall c :: c in s[1..k] ==> c in s[..k];
        } else {
          assert s[0..] == s;
        }
      }
    }
  }

  /** `**` in front of `body`: any characters at all, then `body`. */
  lemma {:induction false} AnythingThen(body: seq<Frag>, s: string)
    ensures Matches([Anything] + body, s) <==> exists k :: 0 <= k <= |s| && Matches(body, s[k..])
    decreases |s|
  {
    var fs := [Anything] + body;
    assert fs[0] == Anything && fs[1..] == body;
    if s == [] {
      assert s[0..] == s;
    } else {
      AnythingThen(body, s[1..]);
      if Matches(fs, s) {
        if Matches(body, s) {
          assert s[0..] == s;
        } else {
          var k :| 0 <= k <= |s[1..]| && Matches(body, s[1..][k..]);
          assert s[1..][k..] == s[k + 1..];
        }
      }
      if exists k :: 0 <= k <= |s| && Matches(body, s[k..]) {
        var k :| 0 <= k <= |s| && Matches(body, s[k..]);
        if k > 0 {
          assert s[1..][k - 1..] == s[k..];
        } else {
          assert s[0..] == s;
        }
      }
    }
  }

  /** `?` matches exactly one character that is not `/`. */
  lemma {:induction false} OneCharMatchesIff(s: string)
    ensures Matches([OneChar], s) <==> |s| == 1 && s[0] != '/'
  {
    assert [OneChar][1..] == [];
  }

  /** A class matches one character, the ones it lists unless it is negated. */
  lemma {:induction false} ClassMatchesIff(negated: bool, items: seq<ClassItem>, s: string)
    ensures Matches([Class(negated, items)], s) <==> |s| == 1 && ClassHas(items, s[0]) != negated
  {
    assert [Class(negated, items)][1..] == [];
  }

  /** The fragments of a run of plain characters. */
  function Lits(w: string): (fs: seq<Frag>)
    ensures |fs| == |w|
    ensures forall k :: 0 <= k < |w| ==> fs[k] == Lit(w[k])
  {
    if w == [] then [] else [Lit(w[0])] + Lits(w[1..])
  }

  /** Plain characters in front of `body` match themselves and nothing else. */
  lemma {:induction false} LitsThen(w: string, body: seq<Frag>, s: string)
    ensures Matches(Lits(w) + body, s) <==> StartsWith(s, w) && Matches(body, s[|w|..])
    decreases |w|
  {
    if w == [] {
      assert Lits(w) + body == body && s[0..] == s;
    } else {
      var fs := Lits(w) + body;
      assert fs[0] == Lit(w[0]) && fs[1..] == Lits(w[1..]) + body;
      if s != [] {
        LitsThen(w[1..], body, s[1..]);
        if |w| <= |s| {
          assert s[1..][|w| - 1..] == s[|w|..];
          assert s[..|w|] == [s[0]] + s[1..][..|w| - 1];
          assert w == [w[0]] + w[1..];
        }
      }
    }
  }

  /** A character glob syntax gives no meaning to. */
  predicate Plain(c: char) {
    c != '*' && c != '?' && c != '['
  }

  /** Plain characters translate to literal fragments, one each. */
  lemma {:induction false} TranslatePlainPrefix(w: string, t: string)
    requires forall k :: 0 <= k < |w| ==> Plain(w[k])
    ensures Translate(w + t) == Lits(w) + Translate(t)
    decreases |w|
  {
    if w == [] {
      assert w + t == t;
    } else {
      var s := w + t;
      assert s[0] == w[0];
      TranslateCons(s, Lit(w[0]), 1);
      assert s[1..] == w[1..] + t;
      TranslatePlainPrefix(w[1..], t);
    }
  }

  /** `w` begins with the longest run of plain characters of `n`. */
  function PlainPrefix(n: string): (w: string)
    ensures |w| <= |n| && w == n[..|w|]
    ensures forall k :: 0 <= k < |w| ==> Plain(w[k])
  {
    var k := FirstWhere(n, c => !Plain(c));
    n[..k]
  }

  /** What a successful compilation holds: the normalised text, its
      translation (every class of which the regex engine accepts), and the
      anchoring chosen by whether the text has a `/`. */
  lemma {:induction false} CompiledParts(raw: string)
    requires Compile(raw).Success?
    ensures var cp := Compile(raw).value;
      && Normalized(raw) == Success(cp.normalized)
      && cp.raw == raw
      && cp.body == Translate(cp.normalized)
      && AllValid(cp.body)
      && cp.anchoring == (if '/' in cp.normalized then Rooted else Basename)
  {
  }

  /** A glob matches only strings beginning with its leading plain characters. */
  lemma {:induction false} LiteralPrefixNeeded(n: string, path: string)
    requires Matches(Translate(n), path)
    ensures StartsWith(path, PlainPrefix(n))
  {
    var w := PlainPrefix(n);
    var rest := n[|w|..];
    assert n == w + rest;
    TranslatePlainPrefix(w, rest);
    LitsThen(w, Translate(rest), path);
  }

  /** A pattern anchored at the root matches only paths that begin with the
      plain characters its normalised text begins with. */
  lemma {:induction false} RootedLiteralPrefix(raw: string, path: string)
    requires Compile(raw).Success? && Compile(raw).value.anchoring == Rooted
    requires PatternMatches(Compile(raw).value, path)
    ensures StartsWith(path, PlainPrefix(Compile(raw).value.normalized))
  {
    CompiledParts(raw);
    LiteralPrefixNeeded(Compile(raw).value.normalized, path);
  }

  // ---------------------------------------------------------------------------
  // Basename anchoring
  // ---------------------------------------------------------------------------

  /** The index just after the last `/` of `s`, or 0 when there is none. */
  function LastSlashEnd(s: string): (e: nat)
    ensures e <= |s|
    ensures e > 0 ==> s[e - 1] == '/'
    ensures forall i :: e <= i < |s| ==> s[i] != '/'
    decreases |s|
  {
    if s == [] then 0 else if s[|s| - 1] == '/' then |s| else LastSlashEnd(s[..|s| - 1])
  }

  /** The last `/`-separated segment of a path: what a basename pattern is
      meant to be matched against. */
  function LastSegment(s: string): (r: string)
    ensures '/' !in r
  {
    s[LastSlashEnd(s)..]
  }

  /** A path without `/` is its own last segment. */
  lemma {:induction false} NoSlashLastSegment(s: string)
    requires '/' !in s
    ensures LastSegment(s) == s
  {
    assert LastSlashEnd(s) == 0;
  }

  /** The last `/` is the one at `k` when none follows it. */
  lemma {:induction false} LastSlashAt(s: string, k: nat)
    requires k < |s| && s[k] == '/'
    requires forall i :: k < i < |s| ==> s[i] != '/'
    ensures LastSlashEnd(s) == k + 1
  {
  }

  /** Fragments that stay within one path segment: no `**`, no class, no `/`. */
  predicate SegmentLocal(body: seq<Frag>) {
    forall k :: 0 <= k < |body| ==> (body[k].Segment? || body[k].OneChar? || (body[k].Lit? && body[k].c != '/'))
  }

  /** Segment-local fragments only match strings without `/`. */
  lemma {:induction false} SegmentLocalNoSlash(body: seq<Frag>, s: string)
    requires SegmentLocal(body) && Matches(body, s)
    ensures '/' !in s
    decreases |body|, |s|
  {
    if body != [] && s != [] {
      assert SegmentLocal(body[1..]);
      match body[0]
      case Segment =>
        if Matches(body[1..], s) {
          SegmentLocalNoSlash(body[1..], s);
        } else {
          SegmentLocalNoSlash(body, s[1..]);
        }
      case OneChar =>
        SegmentLocalNoSlash(body[1..], s[1..]);
      case Lit(c) =>
        SegmentLocalNoSlash(body[1..], s[1..]);
      assert s == [s[0]] + s[1..];
    }
  }

  /** `s` has two stars next to each other. */
  predicate HasDoubleStar(s: string) {
    exists k :: 0 <= k < |s| - 1 && s[k] == '*' && s[k + 1] == '*'
  }

  /** A glob with no `/`, `[` or `**` translates to segment-local fragments. */
  lemma {:induction false} TranslateSegmentLocal(n: string)
    requires '/' !in n && '[' !in n && !HasDoubleStar(n)
    ensures SegmentLocal(Translate(n))
    decreases |n|
  {
    if n != [] {
      var t := NextToken(n);
      assert n[0] == '*' && |n| > 1 ==> n[1] != '*';
      assert t.1 == 1;
      TranslateCons(n, t.0, 1);
      assert '/' !in n[1..] && '[' !in n[1..];
      assert !HasDoubleStar(n[1..]);
      TranslateSegmentLocal(n[1..]);
      var fs := Translate(n);
      assert forall k :: 1 <= k < |fs| ==> fs[k] == Translate(n[1..])[k - 1];
    }
  }

  // Basename anchoring (the regex `(^|.*/)` in front of `body`), for a body
  // that stays within one segment, is matching the last segment of the path.
  lemma {:induction false} BasenameMatchesLastSegment(body: seq<Frag>, path: string)
    requires SegmentLocal(body)
    ensures (Matches(body, path) || Matches([Anything, Lit('/')] + body, path)) <==> Matches(body, LastSegment(path))
  {
    var e := LastSlashEnd(path);
    var tail := [Lit('/')] + body;
    assert [Anything, Lit('/')] + body == [Anything] + tail;
    assert tail[0] == Lit('/') && tail[1..] == body;
    AnythingThen(tail, path);
    if Matches(body, path) {
      SegmentLocalNoSlash(body, path);
      assert e == 0;
      assert path[0..] == path;
    }
    if Matches([Anything] + tail, path) {
      var k :| 0 <= k <= |path| && Matches(tail, path[k..]);
      assert path[k..][1..] == path[k + 1..];
      SegmentLocalNoSlash(body, path[k + 1..]);
      forall i | k < i < |path| ensures path[i] != '/' {
        assert path[i] == path[k + 1..][i - k - 1];
      }
      LastSlashAt(path, k);
    }
    if Matches(body, LastSegment(path)) {
      if e == 0 {
        assert path[0..] == path;
      } else {
        assert path[e - 1..][1..] == path[e..];
        assert Matches(tail, path[e - 1..]);
      }
    }
  }

  /** For a compiled basename pattern with no `[` and no `**`, a path matches
      exactly when its last segment does. */
  lemma {:induction false} BasenamePatternMatches(raw: string, path: string)
    requires Compile(raw).Success? && Compile(raw).value.anchoring == Basename
    requires '[' !in Compile(raw).value.normalized && !HasDoubleStar(Compile(raw).value.normalized)
    ensures PatternMatches(Compile(raw).value, path) <==> Matches(Compile(raw).value.body, LastSegment(path))
  {
    var cp := Compile(raw).value;
    CompiledParts(raw);
    TranslateSegmentLocal(cp.normalized);
    BasenameMatchesLastSegment(cp.body, path);
  }

  // ---------------------------------------------------------------------------
  // Literal runs followed by one wildcard, and the cases of the pattern tests
  // ---------------------------------------------------------------------------

  /** Plain characters alone match exactly themselves. */
  lemma {:induction false} LitsExactly(w: string, s: string)
    ensures Matches(Lits(w), s) <==> s == w
  {
    assert Lits(w) + [] == Lits(w);
    LitsThen(w, [], s);
  }

  /** `*` then plain characters: the path ends with them and has no `/` before them. */
  lemma {:induction false} SegmentThenLits(w: string, s: string)
    ensures Matches([Segment] + Lits(w), s) <==> EndsWith(s, w) && '/' !in s[..|s| - |w|]
  {
    SegmentThen(Lits(w), s);
    forall k | 0 <= k <= |s| ensures Matches(Lits(w), s[k..]) <==> s[k..] == w {
      LitsExactly(w, s[k..]);
    }
  }

  /** Plain characters then `**`: exactly the paths that begin with them. */
  lemma {:induction false} LitsThenAnything(w: string, s: string)
    ensures Matches(Lits(w) + [Anything], s) <==> StartsWith(s, w)
  {
    LitsThen(w, [Anything], s);
    if |w| <= |s| {
      AnythingMatchesAll(s[|w|..]);
    }
  }

  /** Plain characters then `*`: the paths that begin with them and have no `/` after. */
  lemma {:induction false} LitsThenSegment(w: string, s: string)
    ensures Matches(Lits(w) + [Segment], s) <==> StartsWith(s, w) && '/' !in s[|w|..]
  {
    LitsThen(w, [Segment], s);
    if |w| <= |s| {
      SegmentMatchesIff(s[|w|..]);
    }
  }

  /** Every character of `w` is plain. */
  predicate AllPlain(w: string) {
    forall k :: 0 <= k < |w| ==> Plain(w[k])
  }

  /** `*` then plain characters translate to `[^/]*` then literals. */
  lemma {:induction false} TranslateSuffix(w: string)
    requires AllPlain(w)
    ensures Translate("*" + w) == [Segment] + Lits(w)
  {
    TranslateStar(w);
    TranslatePlainPrefix(w, []);
    assert w + [] == w && Lits(w) + [] == Lits(w);
  }

  /** Plain characters, `/` and two stars translate to literals then `.*`. */
  lemma {:induction false} TranslateTree(d: string)
    requires AllPlain(d)
    ensures Translate(d + "/**") == Lits(d + "/") + [Anything]
  {
    var w := d + "/";
    assert d + "/**" == w + (Stars(2) + []);
    assert AllPlain(w) by {
      assert forall k :: 0 <= k < |d| ==> w[k] == d[k];
    }
    TranslatePlainPrefix(w, Stars(2) + []);
    TranslateStarRun(2, []);
  }

  /** Plain characters, `/` and one star translate to literals then `[^/]*`. */
  lemma {:induction false} TranslateChild(d: string)
    requires AllPlain(d)
    ensures Translate(d + "/*") == Lits(d + "/") + [Segment]
  {
    var w := d + "/";
    assert d + "/*" == w + ("*" + []);
    assert AllPlain(w) by {
      assert forall k :: 0 <= k < |d| ==> w[k] == d[k];
    }
    TranslatePlainPrefix(w, "*" + []);
    TranslateStar([]);
  }

  /** A pattern normalised to `*` and plain characters without `/` (such as
      `*.md`) matches a path exactly when the path's last segment ends with
      those characters. */
  lemma {:induction false} SuffixPatternMatches(raw: string, w: string, path: string)
    requires Compile(raw).Success? && Compile(raw).value.normalized == "*" + w
    requires AllPlain(w) && '/' !in w
    ensures PatternMatches(Compile(raw).value, path) <==> EndsWith(LastSegment(path), w)
  {
    var cp := Compile(raw).value;
    CompiledParts(raw);
    assert '/' !in cp.normalized;
    TranslateSuffix(w);
    BasenameSuffix(w, path);
  }

  /** Basename anchoring of `*` then plain characters without `/`. */
  lemma {:induction false} BasenameSuffix(w: string, path: string)
    requires '/' !in w
    ensures var body := [Segment] + Lits(w);
      (Matches(body, path) || Matches([Anything, Lit('/')] + body, path)) <==> EndsWith(LastSegment(path), w)
  {
    var body := [Segment] + Lits(w);
    assert SegmentLocal(body);
    BasenameMatchesLastSegment(body, path);
    SegmentThenLits(w, LastSegment(path));
  }

  // A pattern normalised to plain characters and a trailing slash-star-star
  // (`docs/`, and `docs/` followed by two stars) matches exactly the paths
  // under that directory.
  lemma {:induction false} TreePatternMatches(raw: string, d: string, path: string)
    requires Compile(raw).Success? && Compile(raw).value.normalized == d + "/**"
    requires AllPlain(d)
    ensures PatternMatches(Compile(raw).value, path) <==> StartsWith(path, d + "/")
  {
    var cp := Compile(raw).value;
    CompiledParts(raw);
    assert cp.normalized[|d|] == '/';
    TranslateTree(d);
    LitsThenAnything(d + "/", path);
  }

  // A pattern normalised to plain characters and a trailing slash-star
  // (`docs/` followed by one star) matches exactly the paths directly inside
  // that directory.
  lemma {:induction false} ChildPatternMatches(raw: string, d: string, path: string)
    requires Compile(raw).Success? && Compile(raw).value.normalized == d + "/*"
    requires AllPlain(d)
    ensures PatternMatches(Compile(raw).value, path) <==> StartsWith(path, d + "/") && '/' !in path[|d| + 1..]
  {
    var cp := Compile(raw).value;
    CompiledParts(raw);
    assert cp.normalized[|d|] == '/';
    TranslateChild(d);
    LitsThenSegment(d + "/", path);
  }
}
