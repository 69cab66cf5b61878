/** The ownership index of src/serviceowners/ownership.py: every rule whose
    compiled pattern matches a path is a candidate, in file order, and the
    last candidate wins. */
module Ownership {
  import opened Wrappers
  import opened Strings
  import opened Patterns
  import opened ServiceownersFile

  /** The outcome of matching one path: the winning rule, if any, and every
      matching rule in file order. */
  datatype Match = Match(path: string, chosen: Option<Rule>, matches: seq<Rule>) {
    /** `Match.service`: the service of the winning rule. */
    function Service(): Option<string> {
      if chosen.Some? then Some(chosen.value.service) else None
    }
  }

  predicate RuleMatches(r: Rule, path: string) {
    PatternMatches(r.compiled, path)
  }

  /** The rules whose pattern matches `path`, in their original order. */
  function Matching(rules: seq<Rule>, path: string): (ms: seq<Rule>)
    ensures |ms| <= |rules|
    decreases |rules|
  {
    if rules == [] then []
    else
      var ms := Matching(rules[..|rules| - 1], path);
      if RuleMatches(rules[|rules| - 1], path) then ms + [rules[|rules| - 1]] else ms
  }

  /** The services of some rules, in order: `[r.service for r in matches]`. */
  function ServicesOf(ms: seq<Rule>): (ss: seq<string>)
    ensures |ss| == |ms|
    ensures forall i :: 0 <= i < |ms| ==> ss[i] == ms[i].service
  {
    seq(|ms|, i requires 0 <= i < |ms| => ms[i].service)
  }

  /** The match record for a list of candidates: the last one is chosen. */
  function MatchFrom(path: string, ms: seq<Rule>): Match {
    Match(path, if ms == [] then None else Some(ms[|ms| - 1]), ms)
  }

  /** What `OwnershipIndex.match` returns for the rules `rules`. */
  function MatchOf(rules: seq<Rule>, path: string): Match {
    MatchFrom(path, Matching(rules, path))
  }

  /** `OwnershipIndex`: the rules of a SERVICEOWNERS file, kept in order. */
  class OwnershipIndex {
    const rules: seq<Rule>

    constructor (rules: seq<Rule>)
      ensures this.rules == rules
    {
      this.rules := rules;
    }

    /** The `rules` property: the stored rules, as a value of their own. */
    method Rules() returns (rs: seq<Rule>)
      ensures rs == rules
    {
      rs := rules;
    }

    /** `match`: scans the rules in order, collecting every one whose pattern
        matches, and chooses the last. */
    method Match(path: string) returns (m: Match)
      ensures m == MatchOf(rules, path)
    {
      var matches: seq<Rule> := [];
      for i := 0 to |rules|
        invariant matches == Matching(rules[..i], path)
      {
        assert rules[..i + 1][..i] == rules[..i];
        if PatternMatches(rules[i].compiled, path) {
          matches := matches + [rules[i]];
        }
      }
      assert rules[..|rules|] == rules;
      m := MatchFrom(path, matches);
    }
  }

  // ---------------------------------------------------------------------------
  // Properties of the candidates
  // ---------------------------------------------------------------------------

  /** Matching distributes over concatenation: the candidates of two rule
      lists in a row are those of the first followed by those of the second. */
  lemma {:induction false} MatchingAppend(a: seq<Rule>, b: seq<Rule>, path: string)
    ensures Matching(a + b, path) == Matching(a, path) + Matching(b, path)
    decreases |b|
  {
    if b == [] {
      assert a + b == a;
    } else {
      var n := |b| - 1;
      assert (a + b)[..|a + b| - 1] == a + b[..n];
      MatchingAppend(a, b[..n], path);
    }
  }

  /** One rule is a candidate exactly when its pattern matches. */
  lemma {:induction false} MatchingOne(r: Rule, path: string)
    ensures Matching([r], path) == if RuleMatches(r, path) then [r] else []
  {
    assert [r][..0] == [];
  }

  /** A rule is a candidate iff it is one of the rules and its pattern matches. */
  lemma {:induction false} MatchingMembers(rules: seq<Rule>, path: string, r: Rule)
    ensures r in Matching(rules, path) <==> r in rules && RuleMatches(r, path)
    decreases |rules|
  {
    if rules != [] {
      var n := |rules| - 1;
      MatchingMembers(rules[..n], path, r);
      assert rules == rules[..n] + [rules[n]];
      assert r in rules <==> r in rules[..n] || r == rules[n];
    }
  }

  /** `rules[i]` is the last rule whose pattern matches `path`. */
  predicate LastMatchAt(rules: seq<Rule>, path: string, i: int) {
    && 0 <= i < |rules|
    && RuleMatches(rules[i], path)
    && forall j :: i < j < |rules| ==> !RuleMatches(rules[j], path)
  }

  /** The chosen rule is the last rule whose pattern matches. */
  lemma {:induction false} ChosenIsLast(rules: seq<Rule>, path: string)
    requires MatchOf(rules, path).chosen.Some?
    ensures exists i :: LastMatchAt(rules, path, i) && rules[i] == MatchOf(rules, path).chosen.value
    decreases |rules|
  {
    var n := |rules| - 1;
    var prefix := rules[..n];
    if RuleMatches(rules[n], path) {
      assert LastMatchAt(rules, path, n);
    } else {
      ChosenIsLast(prefix, path);
      var i :| LastMatchAt(prefix, path, i) && prefix[i] == MatchOf(prefix, path).chosen.value;
      assert LastMatchAt(rules, path, i);
    }
  }

  /** The last rule whose pattern matches is the chosen one. */
  lemma {:induction false} LastIsChosen(rules: seq<Rule>, path: string, i: int)
    requires LastMatchAt(rules, path, i)
    ensures MatchOf(rules, path).chosen == Some(rules[i])
    decreases |rules|
  {
    var n := |rules| - 1;
    if i < n {
      var prefix := rules[..n];
      assert LastMatchAt(prefix, path, i);
      LastIsChosen(prefix, path, i);
    }
  }

  /** No rule is chosen, and no rule is a candidate, iff no pattern matches. */
  lemma {:induction false} NoneChosen(rules: seq<Rule>, path: string)
    ensures MatchOf(rules, path).chosen.None? <==> forall i :: 0 <= i < |rules| ==> !RuleMatches(rules[i], path)
    ensures MatchOf(rules, path).chosen.None? <==> MatchOf(rules, path).matches == []
  {
    if MatchOf(rules, path).chosen.Some? {
      ChosenIsLast(rules, path);
    } else {
      forall i | 0 <= i < |rules|
        ensures !RuleMatches(rules[i], path)
      {
        NotCandidate(rules, path, i);
      }
    }
  }

  lemma {:induction false} NotCandidate(rules: seq<Rule>, path: string, i: int)
    requires 0 <= i < |rules| && Matching(rules, path) == []
    ensures !RuleMatches(rules[i], path)
  {
    MatchingMembers(rules, path, rules[i]);
  }

  /** The service of a match is that of the last matching rule, and there is
      none when no rule matches. */
  lemma {:induction false} ServiceOfLastMatch(rules: seq<Rule>, path: string, i: int)
    requires LastMatchAt(rules, path, i)
    ensures MatchOf(rules, path).Service() == Some(rules[i].service)
  {
    LastIsChosen(rules, path, i);
  }

  lemma {:induction false} NoServiceWithoutMatch(rules: seq<Rule>, path: string)
    requires forall i :: 0 <= i < |rules| ==> !RuleMatches(rules[i], path)
    ensures MatchOf(rules, path).Service() == None
    ensures MatchOf(rules, path).matches == []
  {
    NoneChosen(rules, path);
  }

  /** An index with no rules matches nothing. */
  lemma {:induction false} EmptyIndex(path: string)
    ensures MatchOf([], path) == Match(path, None, [])
  {
  }

  // Two compiled rules: a basename suffix pattern `*<w>` then a tree pattern
  // `<d>/**` (such as `*.py core` then `src/** platform`). A path matching
  // both gets both as candidates, in order, and the later one's service.
  lemma {:induction false} LaterTreeRuleWins(r1: Rule, r2: Rule, w: string, d: string, path: string)
    requires Compile(r1.pattern) == Success(r1.compiled) && r1.compiled.normalized == "*" + w
    requires AllPlain(w) && '/' !in w
    requires Compile(r2.pattern) == Success(r2.compiled) && r2.compiled.normalized == d + "/**"
    requires AllPlain(d)
    requires EndsWith(LastSegment(path), w) && StartsWith(path, d + "/")
    ensures MatchOf([r1, r2], path).matches == [r1, r2]
    ensures MatchOf([r1, r2], path).Service() == Some(r2.service)
  {
    SuffixRule(r1, w, path);
    TreeRule(r2, d, path);
    BothMatch(r1, r2, path);
  }

  // A rule whose pattern normalises to `*<w>` matches the paths whose last
  // segment ends in `<w>`.
  lemma {:induction false} SuffixRule(r: Rule, w: string, path: string)
    requires Compile(r.pattern) == Success(r.compiled) && r.compiled.normalized == "*" + w
    requires AllPlain(w) && '/' !in w
    ensures RuleMatches(r, path) <==> EndsWith(LastSegment(path), w)
  {
    SuffixPatternMatches(r.pattern, w, path);
  }

  // A rule whose pattern normalises to `<d>/**` matches the paths under `<d>/`.
  lemma {:induction false} TreeRule(r: Rule, d: string, path: string)
    requires Compile(r.pattern) == Success(r.compiled) && r.compiled.normalized == d + "/**"
    requires AllPlain(d)
    ensures RuleMatches(r, path) <==> StartsWith(path, d + "/")
  {
    TreePatternMatches(r.pattern, d, path);
  }

  /** When both of two rules match, both are candidates and the second wins. */
  lemma {:induction false} BothMatch(r1: Rule, r2: Rule, path: string)
    requires RuleMatches(r1, path) && RuleMatches(r2, path)
    ensures MatchOf([r1, r2], path) == Match(path, Some(r2), [r1, r2])
  {
    MatchingAppend([r1], [r2], path);
    MatchingOne(r1, path);
    MatchingOne(r2, path);
    assert [r1] + [r2] == [r1, r2];
  }
}
