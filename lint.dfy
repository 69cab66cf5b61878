/** The linter of src/serviceowners/lint.py: duplicate patterns, references to
    undeclared services, services nobody can be reached for, patterns that
    match no tracked file and files claimed by several services. The list of
    git-tracked files is an input: a success holding the files, or the error
    the git call reported. */
module Lint {
  import opened Wrappers
  import opened ServiceownersFile
  import opened Ownership
  import opened Patterns
  import SF = ServicesFile

  datatype Severity = Error | Warn

  /** A file that several services claim, with the services of its matching
      rules in rule order. */
  datatype Example = Example(path: string, services: seq<string>)

  /** The issue codes, each with the facts its message reports. */
  datatype IssueCode =
    | DuplicatePattern(pattern: string, previousService: string)
    | UnknownService(service: string)
    | ServiceHasNoContact(name: string)
    | GitRequired
    | GitError(message: string)
    | PatternMatchesNothing(pattern: string)
    | OverlappingRules(examples: seq<Example>)

  /** `Issue`: the message and hint texts are not modelled. */
  datatype Issue = Issue(severity: Severity, code: IssueCode, file: Option<string>, line: Option<nat>)

  /** Some issue has severity `sev`. */
  function AnyWith(issues: seq<Issue>, sev: Severity): (b: bool)
    ensures b <==> exists i :: 0 <= i < |issues| && issues[i].severity == sev
    decreases |issues|
  {
    if issues == [] then false
    else
      var n := |issues| - 1;
      var b := AnyWith(issues[..n], sev);
      assert forall i :: 0 <= i < n ==> issues[..n][i] == issues[i];
      b || issues[n].severity == sev
  }

  /** `LintResult`. */
  datatype LintResult = LintResult(issues: seq<Issue>) {
    /** Some issue is an error. */
    function HasErrors(): (b: bool)
      ensures b <==> exists i :: 0 <= i < |issues| && issues[i].severity == Error
    {
      AnyWith(issues, Error)
    }

    /** Some issue is a warning. */
    function HasWarnings(): (b: bool)
      ensures b <==> exists i :: 0 <= i < |issues| && issues[i].severity == Warn
    {
      AnyWith(issues, Warn)
    }
  }

  /** The keyword options of `lint_rules`; `hasRepoRoot` says whether a
      repository root was given. */
  datatype LintOptions = LintOptions(strict: bool, checkMatches: bool, checkOverlaps: bool, hasRepoRoot: bool)

  /** The severity of the checks that `strict` promotes. */
  function Level(strict: bool): Severity {
    if strict then Error else Warn
  }

  // ---------------------------------------------------------------------------
  // Duplicate patterns
  // ---------------------------------------------------------------------------

  /** The remembered rule per pattern and the issues so far. */
  datatype DupState = DupState(seen: map<string, Rule>, issues: seq<Issue>)

  function DupIssue(r: Rule, previous: string, strict: bool): Issue {
    Issue(Level(strict), DuplicatePattern(r.pattern, previous), Some(r.source), Some(r.line))
  }

  /** One pass of the duplicate loop: a rule whose pattern is remembered with
      another service is reported and the remembered rule kept; otherwise
      the rule becomes the remembered one and nothing is reported. */
  function DupStep(st: DupState, r: Rule, strict: bool): (s: DupState)
    ensures || (s.seen == st.seen && |s.issues| == |st.issues| + 1)
            || (s.issues == st.issues && r.pattern in s.seen && s.seen[r.pattern] == r)
  {
    if r.pattern in st.seen && st.seen[r.pattern].service != r.service then
      DupState(st.seen, st.issues + [DupIssue(r, st.seen[r.pattern].service, strict)])
    else
      DupState(st.seen[r.pattern := r], st.issues)
  }

  /** The duplicate loop over `rules`. */
  function DupScan(rules: seq<Rule>, strict: bool): DupState
    decreases |rules|
  {
    if rules == [] then DupState(map[], [])
    else DupStep(DupScan(rules[..|rules| - 1], strict), rules[|rules| - 1], strict)
  }

  /** `rules[j]` is the first rule with pattern `p`. */
  predicate FirstWith(rules: seq<Rule>, p: string, j: int) {
    && 0 <= j < |rules|
    && rules[j].pattern == p
    && forall i :: 0 <= i < j ==> rules[i].pattern != p
  }

  /** The service of the first rule with pattern `p`, if there is one. */
  function FirstService(rules: seq<Rule>, p: string): (f: Option<string>)
    ensures f.None? <==> forall j :: 0 <= j < |rules| ==> rules[j].pattern != p
    ensures f.Some? ==> exists j :: FirstWith(rules, p, j) && rules[j].service == f.value
    decreases |rules|
  {
    if rules == [] then None
    else
      var n := |rules| - 1;
      var f := FirstService(rules[..n], p);
      assert forall j :: 0 <= j < n ==> rules[..n][j] == rules[j];
      if f.Some? then
        assert exists j :: FirstWith(rules, p, j) && rules[j].service == f.value by {
          var j :| FirstWith(rules[..n], p, j) && rules[..n][j].service == f.value;
          assert FirstWith(rules, p, j);
        }
        f
      else if rules[n].pattern == p then
        assert FirstWith(rules, p, n);
        Some(rules[n].service)
      else None
  }

  /** Reference definition of the duplicate issues: rule `k` is reported iff
      an earlier rule has its pattern and the first such rule has another
      service, which is then the one reported as previous. */
  function DupReference(rules: seq<Rule>, strict: bool): seq<Issue>
    decreases |rules|
  {
    if rules == [] then []
    else
      var n := |rules| - 1;
      var f := FirstService(rules[..n], rules[n].pattern);
      DupReference(rules[..n], strict)
        + (if f.Some? && f.value != rules[n].service then [DupIssue(rules[n], f.value, strict)] else [])
  }

  /** The remembered rules hold, for every pattern seen, the service of its
      first rule. */
  ghost predicate SeenFirst(seen: map<string, Rule>, rules: seq<Rule>) {
    && (forall p :: p in seen <==> FirstService(rules, p).Some?)
    && (forall p :: p in seen ==> seen[p].service == FirstService(rules, p).value)
  }

  /** The duplicate loop reports exactly the reference issues, and its
      remembered rules keep the service of each pattern's first rule. */
  lemma {:induction false} DuplicatesByFirstRule(rules: seq<Rule>, strict: bool)
    ensures DupScan(rules, strict).issues == DupReference(rules, strict)
    ensures SeenFirst(DupScan(rules, strict).seen, rules)
    decreases |rules|
  {
    if rules != [] {
      var n := |rules| - 1;
      DuplicatesByFirstRule(rules[..n], strict);
      DupStepFirst(DupScan(rules[..n], strict), rules, strict);
    }
  }

  lemma {:induction false} DupStepFirst(st: DupState, rules: seq<Rule>, strict: bool)
    requires rules != []
    requires SeenFirst(st.seen, rules[..|rules| - 1])
    ensures var n := |rules| - 1;
      var f := FirstService(rules[..n], rules[n].pattern);
      && DupStep(st, rules[n], strict).issues
         == st.issues + (if f.Some? && f.value != rules[n].service then [DupIssue(rules[n], f.value, strict)] else [])
      && SeenFirst(DupStep(st, rules[n], strict).seen, rules)
  {
    var n := |rules| - 1;
    var r := rules[n];
    var s := DupStep(st, r, strict);
    forall p
      ensures (p in s.seen <==> FirstService(rules, p).Some?)
      ensures p in s.seen ==> s.seen[p].service == FirstService(rules, p).value
    {
      FirstServiceSnoc(rules, p);
    }
  }

  lemma {:induction false} FirstServiceSnoc(rules: seq<Rule>, p: string)
    requires rules != []
    ensures var n := |rules| - 1;
      FirstService(rules, p) ==
        if FirstService(rules[..n], p).Some? then FirstService(rules[..n], p)
        else if rules[n].pattern == p then Some(rules[n].service) else None
  {
  }

  /** When all rules sharing a pattern name the same service, nothing is
      reported as a duplicate. */
  lemma {:induction false} SameServiceRepeatsAllowed(rules: seq<Rule>, strict: bool)
    requires forall i, j :: 0 <= i < j < |rules| && rules[i].pattern == rules[j].pattern ==> rules[i].service == rules[j].service
    ensures DupScan(rules, strict).issues == []
    decreases |rules|
  {
    DuplicatesByFirstRule(rules, strict);
    DupReferenceEmpty(rules, strict);
  }

  lemma {:induction false} DupReferenceEmpty(rules: seq<Rule>, strict: bool)
    requires forall i, j :: 0 <= i < j < |rules| && rules[i].pattern == rules[j].pattern ==> rules[i].service == rules[j].service
    ensures DupReference(rules, strict) == []
    decreases |rules|
  {
    if rules != [] {
      var n := |rules| - 1;
      var prefix := rules[..n];
      assert forall i, j :: 0 <= i < j < |prefix| && prefix[i].pattern == prefix[j].pattern ==> prefix[i].service == prefix[j].service;
      DupReferenceEmpty(prefix, strict);
      var f := FirstService(prefix, rules[n].pattern);
      if f.Some? {
        var j :| FirstWith(prefix, rules[n].pattern, j) && prefix[j].service == f.value;
        assert rules[j] == prefix[j];
      }
    }
  }

  /** Two rules with one pattern: a different service is reported once, on
      the second rule; the same service is not reported. */
  lemma {:induction false} DuplicateOfTwo(r1: Rule, r2: Rule, strict: bool)
    requires r1.pattern == r2.pattern
    ensures r1.service != r2.service ==> DupScan([r1, r2], strict).issues == [DupIssue(r2, r1.service, strict)]
    ensures r1.service == r2.service ==> DupScan([r1, r2], strict).issues == []
  {
    assert [r1, r2][..1] == [r1];
    assert [r1][..0] == [];
    var st1 := DupScan([r1], strict);
    assert st1 == DupStep(DupScan([], strict), r1, strict);
    assert st1.seen == map[r1.pattern := r1] && st1.issues == [];
    assert DupScan([r1, r2], strict) == DupStep(st1, r2, strict);
  }

  /** The duplicate loop of `lint_rules`. */
  method DuplicateScan(rules: seq<Rule>, strict: bool) returns (issues: seq<Issue>)
    ensures issues == DupScan(rules, strict).issues
  {
    var seen: map<string, Rule> := map[];
    issues := [];
    for i := 0 to |rules|
      invariant DupState(seen, issues) == DupScan(rules[..i], strict)
    {
      assert rules[..i + 1][..i] == rules[..i];
      var r := rules[i];
      if r.pattern in seen && seen[r.pattern].service != r.service {
        issues := issues + [DupIssue(r, seen[r.pattern].service, strict)];
      } else {
        seen := seen[r.pattern := r];
      }
    }
    assert rules[..|rules|] == rules;
  }

  // ---------------------------------------------------------------------------
  // Services metadata
  // ---------------------------------------------------------------------------

  /** `name in services`: services are keyed by their names. */
  predicate Declared(services: seq<SF.Service>, name: string) {
    exists k :: 0 <= k < |services| && services[k].name == name
  }

  function UnknownIssue(r: Rule, strict: bool): Issue {
    Issue(Level(strict), UnknownService(r.service), Some(r.source), Some(r.line))
  }

  /** One issue per rule naming an undeclared service, in rule order. */
  function UnknownIssues(rules: seq<Rule>, services: seq<SF.Service>, strict: bool): seq<Issue>
    decreases |rules|
  {
    if rules == [] then []
    else
      var n := |rules| - 1;
      UnknownIssues(rules[..n], services, strict)
        + (if !Declared(services, rules[n].service) then [UnknownIssue(rules[n], strict)] else [])
  }

  /** An issue is reported iff it is that of a rule naming an undeclared service. */
  lemma {:induction false} UnknownIssuesExact(rules: seq<Rule>, services: seq<SF.Service>, strict: bool, x: Issue)
    ensures x in UnknownIssues(rules, services, strict) <==>
              exists k :: 0 <= k < |rules| && !Declared(services, rules[k].service) && x == UnknownIssue(rules[k], strict)
    decreases |rules|
  {
    if rules != [] {
      var n := |rules| - 1;
      UnknownIssuesExact(rules[..n], services, strict, x);
      assert forall k :: 0 <= k < n ==> rules[..n][k] == rules[k];
    }
  }

  method UnknownServiceScan(rules: seq<Rule>, services: seq<SF.Service>, strict: bool) returns (issues: seq<Issue>)
    ensures issues == UnknownIssues(rules, services, strict)
  {
    issues := [];
    for i := 0 to |rules|
      invariant issues == UnknownIssues(rules[..i], services, strict)
    {
      assert rules[..i + 1][..i] == rules[..i];
      if !(exists k :: 0 <= k < |services| && services[k].name == rules[i].service) {
        issues := issues + [UnknownIssue(rules[i], strict)];
      }
    }
    assert rules[..|rules|] == rules;
  }

  /** A service with no owners and neither a slack channel nor an e-mail.
      A `Contact` object is always truthy, so only its fields count. */
  predicate NoContact(svc: SF.Service) {
    svc.owners == [] && !(SF.Truthy(svc.contact.slack) || SF.Truthy(svc.contact.email))
  }

  function NoContactIssue(svc: SF.Service): Issue {
    Issue(Warn, ServiceHasNoContact(svc.name), None, None)
  }

  /** One warning per unreachable service, in the services' order. */
  function NoContactIssues(services: seq<SF.Service>): seq<Issue>
    decreases |services|
  {
    if services == [] then []
    else
      var n := |services| - 1;
      NoContactIssues(services[..n]) + (if NoContact(services[n]) then [NoContactIssue(services[n])] else [])
  }

  lemma {:induction false} NoContactIssuesExact(services: seq<SF.Service>, x: Issue)
    ensures x in NoContactIssues(services) <==>
              exists k :: 0 <= k < |services| && NoContact(services[k]) && x == NoContactIssue(services[k])
    decreases |services|
  {
    if services != [] {
      var n := |services| - 1;
      NoContactIssuesExact(services[..n], x);
      assert forall k :: 0 <= k < n ==> services[..n][k] == services[k];
    }
  }

  method NoContactScan(services: seq<SF.Service>) returns (issues: seq<Issue>)
    ensures issues == NoContactIssues(services)
  {
    issues := [];
    for i := 0 to |services|
      invariant issues == NoContactIssues(services[..i])
    {
      assert services[..i + 1][..i] == services[..i];
      var svc := services[i];
      if svc.owners == [] && !(SF.Truthy(svc.contact.slack) || SF.Truthy(svc.contact.email)) {
        issues := issues + [NoContactIssue(svc)];
      }
    }
    assert services[..|services|] == services;
  }

  /** The service checks run only when there is services metadata. */
  function ServicePhase(rules: seq<Rule>, services: seq<SF.Service>, strict: bool): seq<Issue> {
    if services == [] then [] else UnknownIssues(rules, services, strict) + NoContactIssues(services)
  }

  // ---------------------------------------------------------------------------
  // Patterns that match nothing
  // ---------------------------------------------------------------------------

  /** The files listed by git, or none when git failed. */
  function TrackedFiles(tracked: Result<seq<string>, string>): seq<string> {
    if tracked.Success? then tracked.value else []
  }

  function GitIssues(tracked: Result<seq<string>, string>): seq<Issue> {
    if tracked.Failure? then [Issue(Error, GitError(tracked.error), None, None)] else []
  }

  /** Some file in `files` matches the rule's pattern. */
  predicate MatchesSome(r: Rule, files: seq<string>) {
    exists j :: 0 <= j < |files| && RuleMatches(r, files[j])
  }

  function NoMatchIssue(r: Rule, strict: bool): Issue {
    Issue(Level(strict), PatternMatchesNothing(r.pattern), Some(r.source), Some(r.line))
  }

  /** One issue per rule whose pattern matches none of `files`, in rule order. */
  function NoMatchIssues(rules: seq<Rule>, files: seq<string>, strict: bool): seq<Issue>
    decreases |rules|
  {
    if rules == [] then []
    else
      var n := |rules| - 1;
      NoMatchIssues(rules[..n], files, strict)
        + (if !MatchesSome(rules[n], files) then [NoMatchIssue(rules[n], strict)] else [])
  }

  lemma {:induction false} NoMatchIssuesExact(rules: seq<Rule>, files: seq<string>, strict: bool, x: Issue)
    ensures x in NoMatchIssues(rules, files, strict) <==>
              exists k :: 0 <= k < |rules| && !MatchesSome(rules[k], files) && x == NoMatchIssue(rules[k], strict)
    decreases |rules|
  {
    if rules != [] {
      var n := |rules| - 1;
      NoMatchIssuesExact(rules[..n], files, strict, x);
      assert forall k :: 0 <= k < n ==> rules[..n][k] == rules[k];
    }
  }

  /** With no files, every rule is reported, in order. */
  lemma {:induction false} NoFilesAllUnmatched(rules: seq<Rule>, strict: bool)
    ensures |NoMatchIssues(rules, [], strict)| == |rules|
    ensures forall k :: 0 <= k < |rules| ==> NoMatchIssues(rules, [], strict)[k] == NoMatchIssue(rules[k], strict)
    decreases |rules|
  {
    if rules != [] {
      var n := |rules| - 1;
      NoFilesAllUnmatched(rules[..n], strict);
      assert !MatchesSome(rules[n], []);
      assert forall k :: 0 <= k < n ==> rules[..n][k] == rules[k];
    }
  }

  /** Whether a rule's pattern matches a file, stopping at the first file that does. */
  method AnyMatch(r: Rule, files: seq<string>) returns (matched: bool)
    ensures matched <==> MatchesSome(r, files)
  {
    matched := false;
    var j := 0;
    while j < |files|
      invariant 0 <= j <= |files|
      invariant !matched
      invariant forall i :: 0 <= i < j ==> !RuleMatches(r, files[i])
    {
      if PatternMatches(r.compiled, files[j]) {
        matched := true;
        break;
      }
      j := j + 1;
    }
  }

  method NoMatchScan(rules: seq<Rule>, files: seq<string>, strict: bool) returns (issues: seq<Issue>)
    ensures issues == NoMatchIssues(rules, files, strict)
  {
    issues := [];
    for i := 0 to |rules|
      invariant issues == NoMatchIssues(rules[..i], files, strict)
    {
      assert rules[..i + 1][..i] == rules[..i];
      var matched := AnyMatch(rules[i], files);
      if !matched {
        issues := issues + [NoMatchIssue(rules[i], strict)];
      }
    }
    assert rules[..|rules|] == rules;
  }

  /** The `check_matches` part of `lint_rules`. */
  function MatchPhase(rules: seq<Rule>, opts: LintOptions, tracked: Result<seq<string>, string>): seq<Issue> {
    if !opts.checkMatches then []
    else if !opts.hasRepoRoot then [Issue(Error, GitRequired, None, None)]
    else GitIssues(tracked) + NoMatchIssues(rules, TrackedFiles(tracked), opts.strict)
  }

  // ---------------------------------------------------------------------------
  // Overlaps
  // ---------------------------------------------------------------------------

  /** The most overlap examples reported. */
  const Cap: nat := 25

  /** Several matching rules, of at least two services. */
  predicate Overlapping(ms: seq<Rule>) {
    |ms| > 1 && |set s | s in ServicesOf(ms)| > 1
  }

  /** A file matched by more than one rule, of at least two services. */
  predicate MultiService(rules: seq<Rule>, f: string) {
    Overlapping(MatchOf(rules, f).matches)
  }

  function ExampleOf(rules: seq<Rule>, f: string): Example {
    Example(f, ServicesOf(MatchOf(rules, f).matches))
  }

  /** Every overlap example among `files`, in file order. */
  function OverlapCandidates(rules: seq<Rule>, files: seq<string>): (ex: seq<Example>)
    ensures |ex| <= |files|
    decreases |files|
  {
    if files == [] then []
    else
      var n := |files| - 1;
      OverlapCandidates(rules, files[..n]) + (if MultiService(rules, files[n]) then [ExampleOf(rules, files[n])] else [])
  }

  function Take<T>(s: seq<T>, n: nat): (t: seq<T>)
    ensures |t| <= n && t <= s
    ensures |s| <= n ==> t == s
  {
    if |s| <= n then s else s[..n]
  }

  /** The examples `lint_rules` reports: the first `Cap` candidates. */
  function OverlapExamples(rules: seq<Rule>, files: seq<string>): seq<Example> {
    Take(OverlapCandidates(rules, files), Cap)
  }

  /** The candidates of a prefix of the files are a prefix of all candidates. */
  lemma {:induction false} CandidatesPrefix(rules: seq<Rule>, files: seq<string>, i: nat)
    requires i <= |files|
    ensures OverlapCandidates(rules, files[..i]) <= OverlapCandidates(rules, files)
    decreases |files| - i
  {
    if i < |files| {
      CandidatesPrefix(rules, files, i + 1);
      assert files[..i + 1][..i] == files[..i];
    } else {
      assert files[..i] == files;
    }
  }

  /** Every candidate is a tracked file claimed by several services, given
      with the services of its matching rules. */
  lemma {:induction false} CandidatesAreOverlaps(rules: seq<Rule>, files: seq<string>, e: Example)
    requires e in OverlapCandidates(rules, files)
    ensures e.path in files && MultiService(rules, e.path) && e == ExampleOf(rules, e.path)
    decreases |files|
  {
    var n := |files| - 1;
    if e != ExampleOf(rules, files[n]) || !MultiService(rules, files[n]) {
      CandidatesAreOverlaps(rules, files[..n], e);
    }
  }

  /** A file claimed by several services among at most `Cap` candidates is
      reported. */
  lemma {:induction false} OverlapsReported(rules: seq<Rule>, files: seq<string>, f: string)
    requires f in files && MultiService(rules, f) && |OverlapCandidates(rules, files)| <= Cap
    ensures ExampleOf(rules, f) in OverlapExamples(rules, files)
  {
    CandidateOfFile(rules, files, f);
  }

  lemma {:induction false} CandidateOfFile(rules: seq<Rule>, files: seq<string>, f: string)
    requires f in files && MultiService(rules, f)
    ensures ExampleOf(rules, f) in OverlapCandidates(rules, files)
    decreases |files|
  {
    var n := |files| - 1;
    if files[n] != f {
      assert f in files[..n] by {
        var j :| 0 <= j < |files| && files[j] == f;
        assert files[..n][j] == f;
      }
      CandidateOfFile(rules, files[..n], f);
    }
  }

  /** The examples are at most `Cap` candidates, the first ones. */
  lemma {:induction false} OverlapExamplesCapped(rules: seq<Rule>, files: seq<string>)
    ensures |OverlapExamples(rules, files)| <= Cap
    ensures OverlapExamples(rules, files) <= OverlapCandidates(rules, files)
    ensures |OverlapCandidates(rules, files)| >= Cap ==> |OverlapExamples(rules, files)| == Cap
  {
  }

  /** Two or more services among the matches iff two matching rules have
      different services. */
  lemma {:induction false} SeveralServices(ss: seq<string>)
    ensures |set s | s in ss| > 1 <==> exists i, j :: 0 <= i < |ss| && 0 <= j < |ss| && ss[i] != ss[j]
  {
    var st := set s | s in ss;
    if |st| > 1 {
      var a :| a in st;
      assert |st - {a}| == |st| - 1;
      var b :| b in st - {a};
      var i :| 0 <= i < |ss| && ss[i] == a;
      var j :| 0 <= j < |ss| && ss[j] == b;
      assert ss[i] != ss[j];
    }
    if exists i, j :: 0 <= i < |ss| && 0 <= j < |ss| && ss[i] != ss[j] {
      var i, j :| 0 <= i < |ss| && 0 <= j < |ss| && ss[i] != ss[j];
      assert {ss[i], ss[j]} <= st;
      assert |{ss[i], ss[j]}| == 2;
      SubsetCard({ss[i], ss[j]}, st);
    }
  }

  lemma SubsetCard(a: set<string>, b: set<string>)
    requires a <= b
    ensures |a| <= |b|
  {
    assert b == a + (b - a);
  }

  /** The overlap scan of `lint_rules`: collects candidates in file order
      and stops once `Cap` have been found. */
  method OverlapScan(idx: OwnershipIndex, files: seq<string>) returns (examples: seq<Example>)
    ensures examples == OverlapExamples(idx.rules, files)
  {
    examples := [];
    for i := 0 to |files|
      invariant examples == OverlapCandidates(idx.rules, files[..i])
      invariant |examples| < Cap
    {
      var found := OverlapOf(idx, files[i]);
      ScanStep(idx.rules, files, i, found);
      if found.Some? {
        examples := examples + [found.value];
        if |examples| >= Cap {
          CandidatesCapped(idx.rules, files, i + 1, examples);
          return;
        }
      }
    }
    assert files[..|files|] == files;
  }

  /** The example a file gives to the overlap scan, if any. */
  function OverlapFound(rules: seq<Rule>, f: string): Option<Example> {
    if MultiService(rules, f) then Some(ExampleOf(rules, f)) else None
  }

  /** One pass of the overlap scan: the file's example, when two or more
      services' rules match it. */
  method OverlapOf(idx: OwnershipIndex, f: string) returns (found: Option<Example>)
    ensures found == OverlapFound(idx.rules, f)
  {
    var m := idx.Match(f);
    found := None;
    if |m.matches| > 1 {
      var svcs := ServicesOf(m.matches);
      if |set s | s in svcs| > 1 {
        found := Some(Example(f, svcs));
      }
    }
  }

  lemma ScanStep(rules: seq<Rule>, files: seq<string>, i: nat, found: Option<Example>)
    requires i < |files| && found == OverlapFound(rules, files[i])
    ensures OverlapCandidates(rules, files[..i + 1]) ==
      OverlapCandidates(rules, files[..i]) + (if found.Some? then [found.value] else [])
  {
    OverlapStep(rules, files, i, MatchOf(rules, files[i]));
  }

  /** One pass of the overlap scan, for the match `m` of the next file. */
  lemma {:induction false} OverlapStep(rules: seq<Rule>, files: seq<string>, i: nat, m: Match)
    requires i < |files| && m == MatchOf(rules, files[i])
    ensures OverlapCandidates(rules, files[..i + 1]) ==
      OverlapCandidates(rules, files[..i])
        + (if Overlapping(m.matches) then [Example(files[i], ServicesOf(m.matches))] else [])
  {
    assert files[..i + 1][..i] == files[..i];
  }

  /** Once the candidates of a prefix reach `Cap`, they are the examples. */
  lemma {:induction false} CandidatesCapped(rules: seq<Rule>, files: seq<string>, i: nat, examples: seq<Example>)
    requires i <= |files| && examples == OverlapCandidates(rules, files[..i]) && |examples| == Cap
    ensures examples == OverlapExamples(rules, files)
  {
    CandidatesPrefix(rules, files, i);
  }

  function OverlapIssue(examples: seq<Example>): seq<Issue> {
    if examples == [] then [] else [Issue(Warn, OverlappingRules(examples), None, None)]
  }

  /** The `check_overlaps` part of `lint_rules`. */
  function OverlapPhase(rules: seq<Rule>, opts: LintOptions, tracked: Result<seq<string>, string>): seq<Issue> {
    if !opts.checkOverlaps then []
    else if !opts.hasRepoRoot then [Issue(Error, GitRequired, None, None)]
    else GitIssues(tracked) + OverlapIssue(OverlapExamples(rules, TrackedFiles(tracked)))
  }

  /** At most one issue reports overlaps. */
  lemma {:induction false} OneOverlapIssue(rules: seq<Rule>, opts: LintOptions, tracked: Result<seq<string>, string>)
    ensures forall i, j :: 0 <= i < j < |OverlapPhase(rules, opts, tracked)| ==>
              !(OverlapPhase(rules, opts, tracked)[i].code.OverlappingRules? && OverlapPhase(rules, opts, tracked)[j].code.OverlappingRules?)
  {
  }

  // ---------------------------------------------------------------------------
  // The whole lint
  // ---------------------------------------------------------------------------

  /** What `lint_rules` returns. */
  function Lint(rules: seq<Rule>, services: seq<SF.Service>, opts: LintOptions, tracked: Result<seq<string>, string>): LintResult {
    LintResult(DupScan(rules, opts.strict).issues
               + ServicePhase(rules, services, opts.strict)
               + MatchPhase(rules, opts, tracked)
               + OverlapPhase(rules, opts, tracked))
  }

  /** `lint_rules`: the checks in order, appending to one issue list. */
  method LintRules(rules: seq<Rule>, services: seq<SF.Service>, opts: LintOptions, tracked: Result<seq<string>, string>)
    returns (res: LintResult)
    ensures res == Lint(rules, services, opts, tracked)
  {
    var issues := DuplicateScan(rules, opts.strict);
    var more := ServiceChecks(rules, services, opts.strict);
    issues := issues + more;
    var idx := new OwnershipIndex(rules);
    more := MatchCheck(rules, opts, tracked);
    issues := issues + more;
    more := OverlapCheck(idx, opts, tracked);
    issues := issues + more;
    res := LintResult(issues);
  }

  /** The services part of `lint_rules`. */
  method ServiceChecks(rules: seq<Rule>, services: seq<SF.Service>, strict: bool) returns (issues: seq<Issue>)
    ensures issues == ServicePhase(rules, services, strict)
  {
    issues := [];
    if services != [] {
      var unknown := UnknownServiceScan(rules, services, strict);
      var silent := NoContactScan(services);
      issues := unknown + silent;
    }
  }

  /** The files to scan, and the `GIT_ERROR` issue when git failed. */
  method TrackedOrEmpty(tracked: Result<seq<string>, string>) returns (files: seq<string>, issues: seq<Issue>)
    ensures files == TrackedFiles(tracked) && issues == GitIssues(tracked)
  {
    issues := [];
    if tracked.Failure? {
      issues := [Issue(Error, GitError(tracked.error), None, None)];
      files := [];
    } else {
      files := tracked.value;
    }
  }

  /** The `check_matches` part of `lint_rules`. */
  method MatchCheck(rules: seq<Rule>, opts: LintOptions, tracked: Result<seq<string>, string>) returns (issues: seq<Issue>)
    ensures issues == MatchPhase(rules, opts, tracked)
  {
    issues := [];
    if opts.checkMatches {
      if !opts.hasRepoRoot {
        issues := [Issue(Error, GitRequired, None, None)];
      } else {
        var files;
        files, issues := TrackedOrEmpty(tracked);
        var unmatched := NoMatchScan(rules, files, opts.strict);
        issues := issues + unmatched;
      }
    }
  }

  /** The `check_overlaps` part of `lint_rules`. */
  method OverlapCheck(idx: OwnershipIndex, opts: LintOptions, tracked: Result<seq<string>, string>) returns (issues: seq<Issue>)
    ensures issues == OverlapPhase(idx.rules, opts, tracked)
  {
    issues := [];
    if opts.checkOverlaps {
      if !opts.hasRepoRoot {
        issues := [Issue(Error, GitRequired, None, None)];
      } else {
        var files;
        files, issues := TrackedOrEmpty(tracked);
        var examples := OverlapScan(idx, files);
        if examples != [] {
          issues := issues + [Issue(Warn, OverlappingRules(examples), None, None)];
        }
      }
    }
  }

  // ---------------------------------------------------------------------------
  // Severities
  // ---------------------------------------------------------------------------

  /** The severity each code is reported with. */
  predicate ExpectedSeverity(x: Issue, strict: bool) {
    match x.code
    case DuplicatePattern(_, _) => x.severity == Level(strict)
    case UnknownService(_) => x.severity == Level(strict)
    case PatternMatchesNothing(_) => x.severity == Level(strict)
    case ServiceHasNoContact(_) => x.severity == Warn
    case OverlappingRules(_) => x.severity == Warn
    case GitRequired => x.severity == Error
    case GitError(_) => x.severity == Error
  }

  predicate AllExpected(issues: seq<Issue>, strict: bool) {
    forall i :: 0 <= i < |issues| ==> ExpectedSeverity(issues[i], strict)
  }

  lemma AllExpectedAppend(a: seq<Issue>, b: seq<Issue>, strict: bool)
    requires AllExpected(a, strict) && AllExpected(b, strict)
    ensures AllExpected(a + b, strict)
  {
    assert forall i :: 0 <= i < |a + b| ==> (a + b)[i] == if i < |a| then a[i] else b[i - |a|];
  }

  lemma {:induction false} DupSeverities(rules: seq<Rule>, strict: bool)
    ensures AllExpected(DupScan(rules, strict).issues, strict)
    decreases |rules|
  {
    if rules != [] {
      var n := |rules| - 1;
      DupSeverities(rules[..n], strict);
      var st := DupScan(rules[..n], strict);
      if rules[n].pattern in st.seen && st.seen[rules[n].pattern].service != rules[n].service {
        AllExpectedAppend(st.issues, [DupIssue(rules[n], st.seen[rules[n].pattern].service, strict)], strict);
      }
    }
  }

  lemma {:induction false} UnknownSeverities(rules: seq<Rule>, services: seq<SF.Service>, strict: bool)
    ensures AllExpected(UnknownIssues(rules, services, strict), strict)
    decreases |rules|
  {
    if rules != [] {
      var n := |rules| - 1;
      UnknownSeverities(rules[..n], services, strict);
      AllExpectedAppend(UnknownIssues(rules[..n], services, strict),
                        if !Declared(services, rules[n].service) then [UnknownIssue(rules[n], strict)] else [], strict);
    }
  }

  lemma {:induction false} NoContactSeverities(services: seq<SF.Service>, strict: bool)
    ensures AllExpected(NoContactIssues(services), strict)
    decreases |services|
  {
    if services != [] {
      var n := |services| - 1;
      NoContactSeverities(services[..n], strict);
      AllExpectedAppend(NoContactIssues(services[..n]),
                        if NoContact(services[n]) then [NoContactIssue(services[n])] else [], strict);
    }
  }

  lemma {:induction false} NoMatchSeverities(rules: seq<Rule>, files: seq<string>, strict: bool)
    ensures AllExpected(NoMatchIssues(rules, files, strict), strict)
    decreases |rules|
  {
    if rules != [] {
      var n := |rules| - 1;
      NoMatchSeverities(rules[..n], files, strict);
      AllExpectedAppend(NoMatchIssues(rules[..n], files, strict),
                        if !MatchesSome(rules[n], files) then [NoMatchIssue(rules[n], strict)] else [], strict);
    }
  }

  lemma {:induction false} PhaseSeverities(rules: seq<Rule>, services: seq<SF.Service>, opts: LintOptions,
                                           tracked: Result<seq<string>, string>)
    ensures AllExpected(ServicePhase(rules, services, opts.strict), opts.strict)
    ensures AllExpected(MatchPhase(rules, opts, tracked), opts.strict)
    ensures AllExpected(OverlapPhase(rules, opts, tracked), opts.strict)
  {
    var s := opts.strict;
    if services != [] {
      UnknownSeverities(rules, services, s);
      NoContactSeverities(services, s);
      AllExpectedAppend(UnknownIssues(rules, services, s), NoContactIssues(services), s);
    }
    var files := TrackedFiles(tracked);
    NoMatchSeverities(rules, files, s);
    AllExpectedAppend(GitIssues(tracked), NoMatchIssues(rules, files, s), s);
    AllExpectedAppend(GitIssues(tracked), OverlapIssue(OverlapExamples(rules, files)), s);
  }

  /** Duplicates, unknown services and unmatched patterns are warnings, or
      errors under `strict`; missing contacts and overlaps are always
      warnings; git problems are always errors. */
  lemma {:induction false} LintSeverities(rules: seq<Rule>, services: seq<SF.Service>, opts: LintOptions,
                                          tracked: Result<seq<string>, string>)
    ensures AllExpected(Lint(rules, services, opts, tracked).issues, opts.strict)
  {
    var s := opts.strict;
    DupSeverities(rules, s);
    PhaseSeverities(rules, services, opts, tracked);
    var a := DupScan(rules, s).issues;
    var b := ServicePhase(rules, services, s);
    var c := MatchPhase(rules, opts, tracked);
    var d := OverlapPhase(rules, opts, tracked);
    AllExpectedAppend(a, b, s);
    AllExpectedAppend(a + b, c, s);
    AllExpectedAppend(a + b + c, d, s);
  }

  /** Under `strict`, the only warnings left are missing contacts and overlaps. */
  lemma {:induction false} StrictWarnings(rules: seq<Rule>, services: seq<SF.Service>, opts: LintOptions,
                                          tracked: Result<seq<string>, string>)
    requires opts.strict
    ensures var issues := Lint(rules, services, opts, tracked).issues;
      forall i :: 0 <= i < |issues| && issues[i].severity == Warn ==>
        issues[i].code.ServiceHasNoContact? || issues[i].code.OverlappingRules?
  {
    LintSeverities(rules, services, opts, tracked);
  }

  /** Without services metadata no service issue is reported. */
  lemma {:induction false} NoServicesNoServiceIssues(rules: seq<Rule>, opts: LintOptions, tracked: Result<seq<string>, string>)
    ensures Lint(rules, [], opts, tracked).issues ==
      DupScan(rules, opts.strict).issues + MatchPhase(rules, opts, tracked) + OverlapPhase(rules, opts, tracked)
  {
  }

  /** Without a repository root each requested git check is replaced by one
      `GIT_REQUIRED` error. */
  lemma {:induction false} MissingRepoRoot(rules: seq<Rule>, services: seq<SF.Service>, opts: LintOptions,
                                           tracked: Result<seq<string>, string>)
    requires !opts.hasRepoRoot
    ensures Lint(rules, services, opts, tracked).issues ==
      DupScan(rules, opts.strict).issues + ServicePhase(rules, services, opts.strict)
        + (if opts.checkMatches then [Issue(Error, GitRequired, None, None)] else [])
        + (if opts.checkOverlaps then [Issue(Error, GitRequired, None, None)] else [])
  {
  }

  /** When git fails, the match check reports the error and then every rule. */
  lemma {:induction false} GitFailureReportsAll(rules: seq<Rule>, opts: LintOptions, e: string)
    requires opts.checkMatches && opts.hasRepoRoot
    ensures var phase := MatchPhase(rules, opts, Failure(e));
      && |phase| == |rules| + 1
      && phase[0] == Issue(Error, GitError(e), None, None)
      && forall k :: 0 <= k < |rules| ==> phase[k + 1] == NoMatchIssue(rules[k], opts.strict)
  {
    NoFilesAllUnmatched(rules, opts.strict);
  }
}
