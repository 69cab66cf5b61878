/** The Rust port of the matcher, src/lib.rs: its own pattern normalisation,
    the SERVICEOWNERS line parser that builds a `ServiceMapper`, the
    last-match-wins lookup and its explanation, and the `init` heuristics.
    The glob engine is not visible: whether a compiled glob matches a path,
    and whether a normalised pattern compiles at all, are parameters. */
module RustLib {
  import opened Wrappers
  import opened Strings
  import P = Patterns

  // ---------------------------------------------------------------------------
  // normalize_pattern
  // ---------------------------------------------------------------------------

  /** The pattern after the first four steps: trimmed, backslashes read as
      `/`, every leading `./` removed, then one leading `/` removed. */
  function Stem(pat: string): string {
    P.StripOneSlash(P.StripDotSlash(ReplaceChar(RustTrim(pat), '\\', '/')))
  }

  // The last two steps on a stem: a stem of exactly `/` is `**`; a trailing
  // `/` is replaced by `/**`; a stem then without `/` gains `**/`.
  function Anchored(s: string): string {
    if s == "/" then "**"
    else
      var t := if P.SlashLast(s) then s[..|s| - 1] + "/**" else s;
      if '/' in t then t else "**/" + t
  }

  /** What `normalize_pattern` returns (it never fails). */
  function NormalizedPattern(pat: string): string {
    if RustTrim(pat) == [] then [] else Anchored(Stem(pat))
  }

  /** `normalize_pattern`, reassigning `s` step by step as the source does. */
  method NormalizePattern(pat: string) returns (r: string)
    ensures r == NormalizedPattern(pat)
  {
    var s := RustTrim(pat);
    if s == [] {
      return s;
    }
    s := ReplaceChar(s, '\\', '/');
    ghost var replaced := s;
    while P.DotSlashFirst(s)
      invariant P.StripDotSlash(s) == P.StripDotSlash(replaced)
      decreases |s|
    {
      s := s[2..];
    }
    if P.SlashFirst(s) {
      s := s[1..];
    }
    if P.SlashLast(s) {
      if s == "/" {
        return "**";
      }
      s := s[..|s| - 1];
      s := s + "/**";
    }
    if '/' !in s {
      s := "**/" + s;
    }
    return s;
  }

  /** A blank pattern gives the empty string and any other pattern a
      non-empty one; a non-empty result holds a `/` unless it is `**`, which
      exactly a stem of `/` gives; no backslash survives. */
  lemma {:induction false} NormalizedPatternShape(pat: string)
    ensures NormalizedPattern(pat) == [] <==> RustTrim(pat) == []
    ensures NormalizedPattern(pat) != [] ==> '/' in NormalizedPattern(pat) || NormalizedPattern(pat) == "**"
    ensures NormalizedPattern(pat) == "**" <==> RustTrim(pat) != [] && Stem(pat) == "/"
    ensures '\\' !in NormalizedPattern(pat)
  {
    if RustTrim(pat) != [] {
      StemNoBackslash(pat);
      AnchoredShape(Stem(pat));
    }
  }

  lemma {:induction false} StemNoBackslash(pat: string)
    ensures '\\' !in Stem(pat)
  {
    var t := RustTrim(pat);
    var q := ReplaceChar(t, '\\', '/');
    ReplaceCharRemoves(t, '\\', '/');
    var e := P.StripDotSlash(q);
    P.StripDotSlashSuffix(q);
    P.SuffixAvoids(q, |q| - |e|, '\\');
    if P.SlashFirst(e) {
      P.SuffixAvoids(e, 1, '\\');
    }
  }

  lemma {:induction false} AnchoredShape(s: string)
    requires '\\' !in s
    ensures var a := Anchored(s); a != [] && ('/' in a || a == "**") && '\\' !in a
    ensures Anchored(s) == "**" <==> s == "/"
  {
    if s != "/" {
      var t := if P.SlashLast(s) then s[..|s| - 1] + "/**" else s;
      assert '\\' !in t by {
        if P.SlashLast(s) {
          assert forall k :: 0 <= k < |t| ==> t[k] == (if k < |s| - 1 then s[k] else "/**"[k - |s| + 1]);
        }
      }
      if '/' !in t {
        var a := "**/" + t;
        assert a[2] == '/';
        assert forall k :: 0 <= k < |a| ==> a[k] == (if k < 3 then "**/"[k] else t[k - 3]);
      } else {
        assert t != "**";
      }
    }
  }

  // A stem ending in `/` other than `/` itself loses that single `/` and
  // gains `/**`, so `docs//` keeps one of its slashes; a stem without `/`
  // is anchored anywhere with `**/`; any other stem is kept as it is.
  lemma {:induction false} AnchoredCases(s: string)
    ensures s != "/" && P.SlashLast(s) ==> Anchored(s) == s[..|s| - 1] + "/**" && EndsWith(Anchored(s), "/**")
    ensures '/' !in s ==> Anchored(s) == "**/" + s && StartsWith(Anchored(s), "**/")
    ensures '/' in s && !P.SlashLast(s) ==> Anchored(s) == s
  {
    if s != "/" && P.SlashLast(s) {
      var t := s[..|s| - 1] + "/**";
      assert t[|t| - 3] == '/';
    }
  }

  /** Where the stem holds a `/` that is not its last character, the Rust and
      the Python normalisations agree (when both trims remove the same
      whitespace). */
  lemma {:induction false} AgreesWithPython(pat: string)
    requires PyStrip(pat) == RustTrim(pat)
    requires '/' in Stem(pat) && !P.SlashLast(Stem(pat))
    ensures P.Normalized(pat) == Success(NormalizedPattern(pat))
  {
  }

  // A stem the trims, the `./` loop and the leading-`/` step all leave alone.
  predicate PlainStem(d: string) {
    && d != [] && d[0] != '/' && d[0] != '.' && d[|d| - 1] != '/' && '\\' !in d
    && !PyIsSpace(d[0]) && !RustIsSpace(d[0]) && !PyIsSpace(d[|d| - 1]) && !RustIsSpace(d[|d| - 1])
  }

  // The two normalisations part ways on a pattern without `/`, which only
  // the Rust one anchors with `**/`, on several trailing slashes, of which
  // only the Rust one keeps all but one, and on the bare root.
  lemma {:induction false} NoSlashDiffers(d: string)
    requires PlainStem(d) && '/' !in d
    ensures NormalizedPattern(d) == "**/" + d && P.Normalized(d) == Success(d)
  {
    P.TrimmedAlready(d, RustIsSpace);
    P.TrimmedAlready(d, PyIsSpace);
    P.ReplaceCharAbsent(d, '\\', '/');
    assert Stem(d) == d;
  }

  lemma {:induction false} TrailingSlashesDiffer(d: string)
    requires PlainStem(d)
    ensures NormalizedPattern(d + "//") == d + "//**" && P.Normalized(d + "//") == Success(d + "/**")
  {
    var s := d + "//";
    assert s[0] == d[0] && s[|s| - 1] == '/' && !P.DotSlashFirst(s);
    assert '\\' !in s by {
      assert forall k :: 0 <= k < |s| ==> s[k] == if k < |d| then d[k] else '/';
    }
    P.TrimmedAlready(s, RustIsSpace);
    P.TrimmedAlready(s, PyIsSpace);
    P.ReplaceCharAbsent(s, '\\', '/');
    assert Stem(s) == s;
    assert s[..|s| - 1] + "/**" == d + "//**";
    P.TrimEndByAppended(d, "//", IsSlash);
    assert P.NormalizedRest(s) == Success(d + "/**");
  }

  lemma RootDiffers()
    ensures NormalizedPattern("//") == "**" && P.Normalized("//") == Success("/**")
  {
    var s := "//";
    P.TrimmedAlready(s, RustIsSpace);
    P.TrimmedAlready(s, PyIsSpace);
    P.ReplaceCharAbsent(s, '\\', '/');
    assert P.StripDotSlash(s) == s;
    var p := P.StripOneSlash(s);
    assert p == "/";
    var e := TrimEndBy(p, IsSlash);
    assert e == [];
    assert e + "/**" == "/**";
    assert P.NormalizedRest(s) == Success(e + "/**");
  }

  // ---------------------------------------------------------------------------
  // ServiceMapper::parse
  // ---------------------------------------------------------------------------

  /** A parse error, with the 1-based number of the offending line. */
  datatype ParseError =
    | InvalidLine(line: nat, text: string)      // a line with only one column
    | InvalidGlob(line: nat, pattern: string)   // a pattern the glob engine refuses

  /** One rule line: the raw pattern, its service, and the glob built from it. */
  datatype Rule = Rule(pattern: string, service: string, glob: string)

  /** `ServiceMapper`: the compiled globs with, at the same index, each
      rule's service and original pattern. */
  datatype ServiceMapper = ServiceMapper(globs: seq<string>, serviceNames: seq<string>, patterns: seq<string>)

  /** The three vectors of a mapper run in step. */
  predicate Valid(m: ServiceMapper) {
    |m.globs| == |m.serviceNames| == |m.patterns|
  }

  /** What one line contributes. */
  datatype LineOutcome = Skip | Add(rule: Rule) | Reject(error: ParseError)

  /** The outcome of line `idx` (0-based): blank and `#` lines are skipped;
      the rest are split at the first whitespace character, the service is
      the trimmed remainder, and the pattern must normalise to a glob that
      compiles. */
  function LineOutcomeOf(idx: nat, raw: string, compiles: string -> bool): LineOutcome {
    var line := RustTrim(raw);
    if line == [] || line[0] == '#' then Skip
    else
      var k := FirstWhere(line, RustIsSpace);
      if k == |line| then Reject(InvalidLine(idx + 1, line))
      else
        var pattern := line[..k];
        var glob := NormalizedPattern(pattern);
        if !compiles(glob) then Reject(InvalidGlob(idx + 1, pattern))
        else Add(Rule(pattern, RustTrim(line[k + 1..]), glob))
  }

  /** The outcome of every line. */
  function LineOutcomes(lines: seq<string>, compiles: string -> bool): (os: seq<LineOutcome>)
    ensures |os| == |lines|
  {
    seq(|lines|, i requires 0 <= i < |lines| => LineOutcomeOf(i, lines[i], compiles))
  }

  lemma LineOutcomesAt(lines: seq<string>, compiles: string -> bool, i: int)
    requires 0 <= i < |lines|
    ensures LineOutcomes(lines, compiles)[i] == LineOutcomeOf(i, lines[i], compiles)
  {
  }

  /** The mapper the outcomes build, or the first rejection among them. */
  function Collect(os: seq<LineOutcome>): (r: Result<ServiceMapper, ParseError>)
    ensures r.Success? ==> Valid(r.value) && |r.value.patterns| <= |os|
    decreases |os|
  {
    if os == [] then Success(ServiceMapper([], [], []))
    else
      var n := |os| - 1;
      var m :- Collect(os[..n]);
      match os[n]
      case Skip => Success(m)
      case Add(rule) =>
        Success(ServiceMapper(m.globs + [rule.glob], m.serviceNames + [rule.service], m.patterns + [rule.pattern]))
      case Reject(e) => Failure(e)
  }

  /** What `parse` returns for a text. */
  function Parsed(content: string, compiles: string -> bool): Result<ServiceMapper, ParseError> {
    Collect(LineOutcomes(RustLines(content), compiles))
  }

  /** `ServiceMapper::parse`: pushes one entry per rule line onto the three
      vectors and bails out at the first bad line. */
  method Parse(content: string, compiles: string -> bool) returns (r: Result<ServiceMapper, ParseError>)
    ensures r == Parsed(content, compiles)
  {
    var lines := RustLines(content);
    ghost var os := LineOutcomes(lines, compiles);
    var globs: seq<string> := [];
    var serviceNames: seq<string> := [];
    var patterns: seq<string> := [];
    for i := 0 to |lines|
      invariant Collect(os[..i]) == Success(ServiceMapper(globs, serviceNames, patterns))
    {
      LineOutcomesAt(lines, compiles, i);
      ParseStep(os, i, ServiceMapper(globs, serviceNames, patterns));
      var line := RustTrim(lines[i]);
      if line == [] || line[0] == '#' {
        assert os[i] == Skip;
        continue;
      }
      var k := FirstWhere(line, RustIsSpace);
      if k == |line| {
        assert os[i] == Reject(InvalidLine(i + 1, line));
        CollectStops(os, i + 1);
        return Failure(InvalidLine(i + 1, line));
      }
      var rawPattern := line[..k];
      var service := RustTrim(line[k + 1..]);
      var globStr := NormalizePattern(rawPattern);
      if !compiles(globStr) {
        assert os[i] == Reject(InvalidGlob(i + 1, rawPattern));
        CollectStops(os, i + 1);
        return Failure(InvalidGlob(i + 1, rawPattern));
      }
      assert os[i] == Add(Rule(rawPattern, service, globStr));
      globs := globs + [globStr];
      serviceNames := serviceNames + [service];
      patterns := patterns + [rawPattern];
    }
    assert os[..|lines|] == os;
    return Success(ServiceMapper(globs, serviceNames, patterns));
  }

  lemma {:induction false} ParseStep(os: seq<LineOutcome>, i: nat, m: ServiceMapper)
    requires i < |os| && Collect(os[..i]) == Success(m)
    ensures os[i].Skip? ==> Collect(os[..i + 1]) == Success(m)
    ensures os[i].Add? ==> (Collect(os[..i + 1]) ==
      Success(ServiceMapper(m.globs + [os[i].rule.glob], m.serviceNames + [os[i].rule.service], m.patterns + [os[i].rule.pattern])))
    ensures os[i].Reject? ==> Collect(os[..i + 1]) == Failure(os[i].error)
  {
    assert os[..i + 1][..i] == os[..i];
  }

  /** Once a prefix of the outcomes fails, the whole fails the same way. */
  lemma {:induction false} CollectStops(os: seq<LineOutcome>, j: nat)
    requires j <= |os| && Collect(os[..j]).Failure?
    ensures Collect(os) == Collect(os[..j])
    decreases |os| - j
  {
    if j < |os| {
      assert os[..j + 1][..j] == os[..j];
      CollectStops(os, j + 1);
    } else {
      assert os[..j] == os;
    }
  }

  /** The rules of the outcomes, in order. */
  function Rules(os: seq<LineOutcome>): (rs: seq<Rule>)
    ensures |rs| <= |os|
    decreases |os|
  {
    if os == [] then []
    else
      var n := |os| - 1;
      Rules(os[..n]) + (if os[n].Add? then [os[n].rule] else [])
  }

  /** The `k`th entry of a mapper, read back as a rule. */
  function RuleAt(m: ServiceMapper, k: nat): Rule
    requires Valid(m) && k < |m.patterns|
  {
    Rule(m.patterns[k], m.serviceNames[k], m.globs[k])
  }

  /** A successful parse holds exactly the rules of the rule lines, in file
      order, each with its pattern and service at the same index. */
  lemma {:induction false} CollectKeepsRules(os: seq<LineOutcome>)
    requires Collect(os).Success?
    ensures var m := Collect(os).value;
      |m.patterns| == |Rules(os)| && forall k :: 0 <= k < |m.patterns| ==> RuleAt(m, k) == Rules(os)[k]
    decreases |os|
  {
    if os != [] {
      var n := |os| - 1;
      CollectKeepsRules(os[..n]);
    }
  }

  /** A parse fails exactly when some line is rejected, and then with the
      error of the first such line. */
  lemma {:induction false} CollectFirstReject(os: seq<LineOutcome>)
    ensures Collect(os).Failure? <==> exists i :: 0 <= i < |os| && os[i].Reject?
    ensures Collect(os).Failure? ==>
      exists i :: (0 <= i < |os| && os[i] == Reject(Collect(os).error) && forall j :: 0 <= j < i ==> !os[j].Reject?)
    decreases |os|
  {
    if os != [] {
      var n := |os| - 1;
      CollectFirstReject(os[..n]);
      assert forall j :: 0 <= j < n ==> os[..n][j] == os[j];
    }
  }

  /** A rule is in the parse exactly when some line added it. */
  lemma {:induction false} RulesMembers(os: seq<LineOutcome>, r: Rule)
    ensures r in Rules(os) <==> exists i :: 0 <= i < |os| && os[i] == Add(r)
    decreases |os|
  {
    if os != [] {
      var n := |os| - 1;
      RulesMembers(os[..n], r);
      assert forall i :: 0 <= i < n ==> os[..n][i] == os[i];
    }
  }

  /** Blank and comment lines are skipped; a line with a single column is
      rejected with its 1-based number, and so is every other rejected line. */
  lemma {:induction false} LineOutcomeCases(idx: nat, raw: string, compiles: string -> bool)
    ensures RustTrim(raw) == [] || RustTrim(raw)[0] == '#' ==> LineOutcomeOf(idx, raw, compiles) == Skip
    ensures RustTrim(raw) != [] && RustTrim(raw)[0] != '#' && NoneOf(RustTrim(raw), RustIsSpace) ==>
      LineOutcomeOf(idx, raw, compiles) == Reject(InvalidLine(idx + 1, RustTrim(raw)))
    ensures LineOutcomeOf(idx, raw, compiles).Reject? ==> LineOutcomeOf(idx, raw, compiles).error.line == idx + 1
  {
    var line := RustTrim(raw);
    if line != [] && line[0] != '#' && NoneOf(line, RustIsSpace) {
      assert FirstWhere(line, RustIsSpace) == |line|;
    }
  }

  /** A rule has a non-empty pattern free of whitespace, a non-empty trimmed
      service, and the normalised pattern as its glob. */
  lemma {:induction false} RuleLineShape(idx: nat, raw: string, compiles: string -> bool)
    requires LineOutcomeOf(idx, raw, compiles).Add?
    ensures var rule := LineOutcomeOf(idx, raw, compiles).rule;
      && IsWord(rule.pattern, RustIsSpace)
      && rule.service != [] && RustTrim(rule.service) == rule.service
      && rule.glob == NormalizedPattern(rule.pattern)
  {
    var line := RustTrim(raw);
    var k := FirstWhere(line, RustIsSpace);
    TrimmedEnds(raw);
    P.TrimmedAlready(line, RustIsSpace);
    SplitAtSpace(line, k);
  }

  lemma {:induction false} SplitAtSpace(line: string, k: nat)
    requires line != [] && RustTrim(line) == line && k == FirstWhere(line, RustIsSpace) && k < |line|
    ensures IsWord(line[..k], RustIsSpace)
    ensures RustTrim(line[k + 1..]) != [] && RustTrim(RustTrim(line[k + 1..])) == RustTrim(line[k + 1..])
  {
    TrimmedEnds(line);
    var rest := line[k + 1..];
    assert k < |line| - 1;
    assert rest[|rest| - 1] == line[|line| - 1];
    SolidEndTrims(rest);
  }

  /** A trimmed non-empty string starts and ends with a non-space. */
  lemma {:induction false} TrimmedEnds(s: string)
    requires RustTrim(s) != []
    ensures !RustIsSpace(RustTrim(s)[0]) && !RustIsSpace(RustTrim(s)[|RustTrim(s)| - 1])
  {
    var t := TrimStartBy(s, RustIsSpace);
    TrimEndByPrefix(t, RustIsSpace);
  }

  /** Trimming a string that ends in a non-space leaves a non-empty string,
      and trimming twice changes nothing more. */
  lemma {:induction false} SolidEndTrims(s: string)
    requires s != [] && !RustIsSpace(s[|s| - 1])
    ensures RustTrim(s) != [] && RustTrim(RustTrim(s)) == RustTrim(s)
  {
    var t := TrimStartBy(s, RustIsSpace);
    TrimStartBySuffix(s, RustIsSpace);
    assert TrimEndBy(t, RustIsSpace) == t;
    TrimmedEnds(s);
    var u := RustTrim(s);
    assert TrimStartBy(u, RustIsSpace) == u;
  }

  // ---------------------------------------------------------------------------
  // find_service and explain_service
  // ---------------------------------------------------------------------------

  /** The indices of the globs that match `path`, in increasing order, as
      `GlobSet::matches` returns them. */
  function MatchIndices(globs: seq<string>, path: string, matches: (string, string) -> bool): (ix: seq<nat>)
    ensures forall k :: 0 <= k < |ix| ==> ix[k] < |globs| && matches(globs[ix[k]], path)
    ensures forall a, b :: 0 <= a < b < |ix| ==> ix[a] < ix[b]
    decreases |globs|
  {
    if globs == [] then []
    else
      var n := |globs| - 1;
      var ix := MatchIndices(globs[..n], path, matches);
      assert forall k :: 0 <= k < |ix| ==> globs[..n][ix[k]] == globs[ix[k]];
      ix + (if matches(globs[n], path) then [n] else [])
  }

  /** Every matching glob is listed. */
  lemma {:induction false} MatchIndicesComplete(globs: seq<string>, path: string, matches: (string, string) -> bool, i: nat)
    requires i < |globs| && matches(globs[i], path)
    ensures i in MatchIndices(globs, path, matches)
    decreases |globs|
  {
    var n := |globs| - 1;
    if i < n {
      assert globs[..n][i] == globs[i];
      MatchIndicesComplete(globs[..n], path, matches, i);
    }
  }

  /** `find_service`: the service of the matching glob with the largest index. */
  function FindService(m: ServiceMapper, path: string, matches: (string, string) -> bool): Option<string>
    requires Valid(m)
  {
    var ix := MatchIndices(m.globs, path, matches);
    if ix == [] then None else Some(m.serviceNames[ix[|ix| - 1]])
  }

  /** Last match wins: there is no service exactly when no glob matches, and
      otherwise the service is that of a matching rule after which no rule
      matches. */
  lemma {:induction false} FindServiceLastMatch(m: ServiceMapper, path: string, matches: (string, string) -> bool)
    requires Valid(m)
    ensures FindService(m, path, matches).None? <==> forall i :: 0 <= i < |m.globs| ==> !matches(m.globs[i], path)
    ensures FindService(m, path, matches).Some? ==>
      exists i :: 0 <= i < |m.globs| && matches(m.globs[i], path)
        && FindService(m, path, matches).value == m.serviceNames[i]
        && forall j :: i < j < |m.globs| ==> !matches(m.globs[j], path)
  {
    var ix := MatchIndices(m.globs, path, matches);
    forall i | 0 <= i < |m.globs| && matches(m.globs[i], path)
      ensures i in ix
    {
      MatchIndicesComplete(m.globs, path, matches, i);
    }
    if ix != [] {
      var last := ix[|ix| - 1];
      assert matches(m.globs[last], path) && FindService(m, path, matches).value == m.serviceNames[last];
      assert forall j :: last < j < |m.globs| ==> !matches(m.globs[j], path);
    }
  }

  /** One explained match: the service and the original pattern. */
  datatype ExplainMatch = ExplainMatch(service: string, pattern: string)

  /** What `explain_service` returns: the matching rules in index order. */
  function Explained(m: ServiceMapper, path: string, matches: (string, string) -> bool): (es: seq<ExplainMatch>)
    requires Valid(m)
    ensures |es| == |MatchIndices(m.globs, path, matches)|
  {
    var ix := MatchIndices(m.globs, path, matches);
    seq(|ix|, k requires 0 <= k < |ix| => ExplainMatch(m.serviceNames[ix[k]], m.patterns[ix[k]]))
  }

  /** `explain_service`: pushes one entry per matching glob. */
  method ExplainService(m: ServiceMapper, path: string, matches: (string, string) -> bool) returns (result: seq<ExplainMatch>)
    requires Valid(m)
    ensures result == Explained(m, path, matches)
  {
    var ix := MatchIndices(m.globs, path, matches);
    result := [];
    for k := 0 to |ix|
      invariant result == Explained(m, path, matches)[..k]
    {
      var idx := ix[k];
      result := result + [ExplainMatch(m.serviceNames[idx], m.patterns[idx])];
    }
  }

  /** The explanation lists exactly the matching rules, and its last entry
      names the service `find_service` picks. */
  lemma {:induction false} ExplainedAgreesWithFind(m: ServiceMapper, path: string, matches: (string, string) -> bool)
    requires Valid(m)
    ensures var es := Explained(m, path, matches);
      && (FindService(m, path, matches).None? <==> es == [])
      && (es != [] ==> FindService(m, path, matches) == Some(es[|es| - 1].service))
      && forall k :: 0 <= k < |es| ==>
           exists i :: (0 <= i < |m.globs| && matches(m.globs[i], path) && es[k] == ExplainMatch(m.serviceNames[i], m.patterns[i]))
  {
    var ix := MatchIndices(m.globs, path, matches);
    var es := Explained(m, path, matches);
    forall k | 0 <= k < |es|
      ensures exists i :: (0 <= i < |m.globs| && matches(m.globs[i], path) && es[k] == ExplainMatch(m.serviceNames[i], m.patterns[i]))
    {
      assert es[k] == ExplainMatch(m.serviceNames[ix[k]], m.patterns[ix[k]]);
    }
  }

  // ---------------------------------------------------------------------------
  // infer_service_name
  // ---------------------------------------------------------------------------

  /** The segments that never name a service. */
  predicate Skipped(seg: string) {
    seg == "*" || seg == "**" || seg == "src" || seg == "lib" || seg == "packages" || seg == "apps"
  }

  /** The segments that are not skipped, in order. */
  function Candidates(segs: seq<string>): (cs: seq<string>)
    ensures forall x {:trigger x in cs} :: x in cs <==> x in segs && !Skipped(x)
    decreases |segs|
  {
    if segs == [] then []
    else
      var n := |segs| - 1;
      assert segs == segs[..n] + [segs[n]];
      Candidates(segs[..n]) + (if Skipped(segs[n]) then [] else [segs[n]])
  }

  /** The candidates of two segment lists in a row are those of the first,
      then those of the second. */
  lemma {:induction false} CandidatesAppend(a: seq<string>, b: seq<string>)
    ensures Candidates(a + b) == Candidates(a) + Candidates(b)
    decreases |b|
  {
    if b == [] {
      assert a + b == a;
    } else {
      var n := |b| - 1;
      assert (a + b)[..|a + b| - 1] == a + b[..n];
      CandidatesAppend(a, b[..n]);
    }
  }

  /** The `/` segments of a pattern with its leading and trailing `/`s trimmed,
      empty segments included. */
  function PatternSegments(pattern: string): (segs: seq<string>)
    ensures forall i :: 0 <= i < |segs| ==> '/' !in segs[i]
  {
    SplitOn(TrimEndBy(TrimStartBy(pattern, IsSlash), IsSlash), '/')
  }

  /** An ASCII letter or digit (Rust's `is_alphanumeric` restricted to ASCII). */
  predicate AsciiAlnum(c: char) {
    ('a' <= c <= 'z') || ('A' <= c <= 'Z') || ('0' <= c <= '9')
  }

  /** Every character that is not a letter or digit replaced by `_`. */
  function Sanitized(seg: string): (r: string)
    ensures |r| == |seg|
    ensures forall k :: 0 <= k < |r| ==> r[k] == if AsciiAlnum(seg[k]) then seg[k] else '_'
  {
    MapChars(seg, (c: char) => if AsciiAlnum(c) then c else '_')
  }

  /** The owner with its leading `@`s trimmed and, when it has a `/`, only
      what follows the first one. */
  function OwnerName(owner: string): string {
    var o := TrimStartBy(owner, IsAt);
    if '/' in o then o[IndexOf(o, '/') + 1..] else o
  }

  /** `infer_service_name`: the last non-skipped segment, sanitised and
      lower-cased; failing that the first owner's name with `_` for `-`,
      lower-cased; failing that `unknown_service`. */
  function InferServiceName(pattern: string, owners: seq<string>): string {
    var cs := Candidates(PatternSegments(pattern));
    if cs != [] && Sanitized(cs[|cs| - 1]) != [] then Lower(Sanitized(cs[|cs| - 1]))
    else if owners != [] then Lower(ReplaceChar(OwnerName(owners[0]), '-', '_'))
    else "unknown_service"
  }

  /** Lower-case ASCII letters, digits and `_`, at least one. */
  predicate IdentName(s: string) {
    s != [] && forall k :: 0 <= k < |s| ==> ('a' <= s[k] <= 'z') || ('0' <= s[k] <= '9') || s[k] == '_'
  }

  /** The last candidate comes from a segment that only skipped segments follow. */
  lemma {:induction false} CandidatesLast(segs: seq<string>)
    requires Candidates(segs) != []
    ensures var cs := Candidates(segs);
      exists j :: 0 <= j < |segs| && segs[j] == cs[|cs| - 1] && forall j2 :: j < j2 < |segs| ==> Skipped(segs[j2])
    decreases |segs|
  {
    var n := |segs| - 1;
    if Skipped(segs[n]) {
      CandidatesLast(segs[..n]);
      var cs := Candidates(segs[..n]);
      var j :| 0 <= j < n && segs[..n][j] == cs[|cs| - 1] && forall j2 :: j < j2 < n ==> Skipped(segs[..n][j2]);
      assert segs[j] == cs[|cs| - 1];
      assert forall j2 :: j < j2 < |segs| ==> Skipped(segs[j2]) by {
        forall j2 | j < j2 < |segs| ensures Skipped(segs[j2]) {
          if j2 < n { assert segs[..n][j2] == segs[j2]; }
        }
      }
    }
  }

  /** Every segment skipped: no candidate. */
  lemma {:induction false} AllSkipped(segs: seq<string>)
    requires forall i :: 0 <= i < |segs| ==> Skipped(segs[i])
    ensures Candidates(segs) == []
    decreases |segs|
  {
    if segs != [] {
      AllSkipped(segs[..|segs| - 1]);
    }
  }

  /** A name guessed from the pattern comes from its last non-skipped segment
      and is an identifier; otherwise the first owner decides, and without
      owners the name is `unknown_service`. */
  lemma {:induction false} InferServiceNameSpec(pattern: string, owners: seq<string>)
    ensures var segs := PatternSegments(pattern); var cs := Candidates(segs);
      cs != [] && cs[|cs| - 1] != [] ==>
        && InferServiceName(pattern, owners) == Lower(Sanitized(cs[|cs| - 1]))
        && IdentName(InferServiceName(pattern, owners))
        && exists j :: 0 <= j < |segs| && segs[j] == cs[|cs| - 1] && forall j2 :: j < j2 < |segs| ==> Skipped(segs[j2])
    ensures (forall i :: 0 <= i < |PatternSegments(pattern)| ==> Skipped(PatternSegments(pattern)[i])) ==>
      InferServiceName(pattern, owners) == (if owners == [] then "unknown_service" else InferServiceName("", owners))
    ensures var cs := Candidates(PatternSegments(pattern));
      cs == [] || cs[|cs| - 1] == [] ==> InferServiceName(pattern, owners) == InferServiceName("", owners)
  {
    EmptyPatternFallsBack(owners);
    var segs := PatternSegments(pattern);
    var cs := Candidates(segs);
    if cs != [] && cs[|cs| - 1] != [] {
      CandidatesLast(segs);
      SanitizedLowerIdent(cs[|cs| - 1]);
    }
    if forall i :: 0 <= i < |segs| ==> Skipped(segs[i]) {
      AllSkipped(segs);
      EmptyPatternFallsBack(owners);
    }
  }

  lemma SanitizedLowerIdent(seg: string)
    requires seg != []
    ensures IdentName(Lower(Sanitized(seg)))
  {
    var t := Sanitized(seg);
    assert forall k :: 0 <= k < |t| ==> Lower(t)[k] == LowerChar(t[k]);
  }

  /** The empty pattern leaves the decision to the owners. */
  lemma EmptyPatternFallsBack(owners: seq<string>)
    ensures InferServiceName("", owners) == (if owners == [] then "unknown_service" else Lower(ReplaceChar(OwnerName(owners[0]), '-', '_')))
  {
    var e: seq<string> := [[]];
    assert PatternSegments("") == e;
    assert Candidates(e) == e;
  }

  /** A GitHub team `@org/team-name` gives its team name with `_` for `-`. */
  lemma {:induction false} TeamOwnerName(org: string, team: string)
    requires '/' !in org && (org == [] || org[0] != '@')
    ensures OwnerName("@" + org + "/" + team) == team
  {
    var o := "@" + org + "/" + team;
    var a := TrimStartBy(o, IsAt);
    assert o[1..] == org + ['/'] + team;
    assert TrimStartBy(o[1..], IsAt) == o[1..];
    assert a == org + ['/'] + team;
    IndexOfAfter(org, '/', team);
    assert a[|org| + 1..] == team;
  }

  /** A name taken from an owner has no `-` and no capital. */
  lemma OwnerFallbackShape(owner: string)
    ensures var r := Lower(ReplaceChar(OwnerName(owner), '-', '_'));
      '-' !in r && forall k :: 0 <= k < |r| ==> !('A' <= r[k] <= 'Z')
  {
    var u := ReplaceChar(OwnerName(owner), '-', '_');
    var r := Lower(u);
    assert forall k :: 0 <= k < |u| ==> r[k] == LowerChar(u[k]);
    assert forall k :: 0 <= k < |r| ==> r[k] != '-';
  }

  // ---------------------------------------------------------------------------
  // init_from_codeowners
  // ---------------------------------------------------------------------------

  /** The two header lines. */
  const HeaderTitle: string := "# Generated from CODEOWNERS by serviceowners (init)\n"
  const HeaderColumns: string := "# pattern            service\n"
  const InitHeader: string := HeaderTitle + HeaderColumns

  /** `n` spaces. */
  function Spaces(n: nat): (r: string)
    ensures |r| == n && forall k :: 0 <= k < n ==> r[k] == ' '
  {
    if n == 0 then [] else Spaces(n - 1) + " "
  }

  /** `{:<20}`: the pattern left-aligned in a column of at least 20 characters. */
  function Padded(p: string): (r: string)
    ensures |r| == if |p| < 20 then 20 else |p|
    ensures r[..|p|] == p && forall k :: |p| <= k < |r| ==> r[k] == ' '
  {
    if |p| < 20 then p + Spaces(20 - |p|) else p
  }

  /** The output line of one CODEOWNERS line, if it gives one. */
  function InitLine(raw: string): Option<string> {
    var line := RustTrim(raw);
    if line == [] || line[0] == '#' then None
    else
      var parts := Words(line, RustIsSpace);
      if |parts| < 2 then None
      else Some(Padded(parts[0]) + " " + InferServiceName(parts[0], parts[1..]) + "\n")
  }

  /** The output line of every CODEOWNERS line. */
  function InitLines(lines: seq<string>): (rs: seq<Option<string>>)
    ensures |rs| == |lines|
  {
    seq(|lines|, i requires 0 <= i < |lines| => InitLine(lines[i]))
  }

  /** The lines present, one after the other. */
  function Emitted(rs: seq<Option<string>>): string
    decreases |rs|
  {
    if rs == [] then []
    else
      var n := |rs| - 1;
      Emitted(rs[..n]) + (match rs[n] case Some(x) => x case None => [])
  }

  /** The text `init_from_codeowners` returns for a CODEOWNERS text. */
  function InitText(content: string): string {
    InitHeader + Emitted(InitLines(RustLines(content)))
  }

  /** `init_from_codeowners` once the file is read: appends one line per rule. */
  method InitFromCodeowners(content: string) returns (out: string)
    ensures out == InitText(content)
  {
    var lines := RustLines(content);
    ghost var rs := InitLines(lines);
    out := [];
    out := out + HeaderTitle;
    out := out + HeaderColumns;
    assert rs[..0] == [];
    assert out == InitHeader + Emitted(rs[..0]);
    for i := 0 to |lines|
      invariant out == InitHeader + Emitted(rs[..i])
    {
      EmitStep(rs, i, out);
      var line := RustTrim(lines[i]);
      if line == [] || line[0] == '#' {
        assert rs[i] == None;
        continue;
      }
      var parts := Words(line, RustIsSpace);
      if |parts| < 2 {
        assert rs[i] == None;
        continue;
      }
      var pattern := parts[0];
      var owners := parts[1..];
      var service := InferServiceName(pattern, owners);
      assert rs[i] == Some(Padded(pattern) + " " + service + "\n");
      out := out + (Padded(pattern) + " " + service + "\n");
    }
    assert rs[..|lines|] == rs;
  }

  lemma {:induction false} EmitStep(rs: seq<Option<string>>, i: nat, out: string)
    requires i < |rs| && out == InitHeader + Emitted(rs[..i])
    ensures rs[i].None? ==> InitHeader + Emitted(rs[..i + 1]) == out
    ensures rs[i].Some? ==> InitHeader + Emitted(rs[..i + 1]) == out + rs[i].value
  {
    assert rs[..i + 1][..i] == rs[..i];
  }

  /** The output of two runs of lines follow each other. */
  lemma {:induction false} EmittedAppend(a: seq<Option<string>>, b: seq<Option<string>>)
    ensures Emitted(a + b) == Emitted(a) + Emitted(b)
    decreases |b|
  {
    if b == [] {
      assert a + b == a;
    } else {
      var n := |b| - 1;
      assert (a + b)[..|a + b| - 1] == a + b[..n];
      EmittedAppend(a, b[..n]);
    }
  }

  /** Blank lines, comments and lines with a single column give no output; a
      rule gives its pattern padded to 20 columns, a space and the inferred
      service, on a line of its own. */
  lemma {:induction false} InitLineShape(raw: string)
    ensures RustTrim(raw) == [] || RustTrim(raw)[0] == '#' ==> InitLine(raw).None?
    ensures RustTrim(raw) != [] && RustTrim(raw)[0] != '#' && |Words(RustTrim(raw), RustIsSpace)| < 2 ==> InitLine(raw).None?
    ensures InitLine(raw).Some? ==>
      var parts := Words(RustTrim(raw), RustIsSpace);
      && |parts| >= 2
      && InitLine(raw).value == Row(parts[0], parts[1..])
      && RowOnOneLine(parts[0], parts[1..])
  {
    var line := RustTrim(raw);
    if line != [] && line[0] != '#' {
      var parts := Words(line, RustIsSpace);
      if |parts| >= 2 {
        assert forall i :: 0 <= i < |parts[1..]| ==> parts[1..][i] == parts[i + 1];
        RowShape(parts[0], parts[1..]);
      }
    }
  }

  /** The output line of a rule. */
  function Row(pattern: string, owners: seq<string>): string {
    Padded(pattern) + " " + InferServiceName(pattern, owners) + "\n"
  }

  /** The row starts with the padded pattern and a space, ends with the
      service and a newline, and holds no other newline. */
  predicate RowOnOneLine(pattern: string, owners: seq<string>) {
    var row := Row(pattern, owners);
    && StartsWith(row, Padded(pattern) + " ")
    && EndsWith(row, InferServiceName(pattern, owners) + "\n")
    && '\n' !in row[..|row| - 1]
  }

  lemma {:induction false} RowShape(pattern: string, owners: seq<string>)
    requires IsWord(pattern, RustIsSpace)
    requires forall i :: 0 <= i < |owners| ==> IsWord(owners[i], RustIsSpace)
    ensures RowOnOneLine(pattern, owners)
  {
    ServiceNoNewline(pattern, owners);
    PaddedNoNewline(pattern);
    OneLine(Padded(pattern) + " ", InferServiceName(pattern, owners));
  }

  lemma PaddedNoNewline(pattern: string)
    requires IsWord(pattern, RustIsSpace)
    ensures '\n' !in Padded(pattern) + " "
  {
    var head := Padded(pattern) + " ";
    assert forall k :: 0 <= k < |head| ==> head[k] == (if k < |pattern| then pattern[k] else ' ');
  }

  lemma OneLine(head: string, svc: string)
    requires '\n' !in head && '\n' !in svc
    ensures var row := head + svc + "\n";
      StartsWith(row, head) && EndsWith(row, svc + "\n") && '\n' !in row[..|row| - 1]
  {
    var row := head + svc + "\n";
    assert row[..|head|] == head;
    assert row[|row| - |svc + "\n"|..] == svc + "\n";
    assert row[..|row| - 1] == head + svc;
  }

  /** An inferred name, from words without whitespace, holds no newline. */
  lemma {:induction false} ServiceNoNewline(pattern: string, owners: seq<string>)
    requires forall i :: 0 <= i < |owners| ==> IsWord(owners[i], RustIsSpace)
    ensures '\n' !in InferServiceName(pattern, owners)
  {
    var cs := Candidates(PatternSegments(pattern));
    if cs != [] && Sanitized(cs[|cs| - 1]) != [] {
      LowerAvoids(Sanitized(cs[|cs| - 1]), '\n');
    } else if owners != [] {
      OwnerNameNoNewline(owners[0]);
      var u := ReplaceChar(OwnerName(owners[0]), '-', '_');
      assert '\n' !in u;
      LowerAvoids(u, '\n');
    }
  }

  /** Lower-casing introduces no character outside `a`..`z`. */
  lemma LowerAvoids(t: string, c: char)
    requires c !in t && !('a' <= c <= 'z')
    ensures c !in Lower(t)
  {
    assert forall k :: 0 <= k < |t| ==> Lower(t)[k] == LowerChar(t[k]);
  }

  lemma {:induction false} OwnerNameNoNewline(owner: string)
    requires IsWord(owner, RustIsSpace)
    ensures '\n' !in OwnerName(owner)
  {
    assert '\n' !in owner;
    var o := TrimStartBy(owner, IsAt);
    TrimStartBySuffix(owner, IsAt);
    P.SuffixAvoids(owner, |owner| - |o|, '\n');
    if '/' in o {
      P.SuffixAvoids(o, IndexOf(o, '/') + 1, '\n');
    }
  }
}
