/** The SERVICEOWNERS rules file: one `<pattern> <service>` pair per line,
    blank lines and `#` comment lines skipped, inline `#` comments removed
    outside quotes, and every pattern compiled as it is read. */
module ServiceownersFile {
  import opened Wrappers
  import opened Strings
  import opened Patterns

  /** One rule of the file, with its 1-based line number. */
  datatype Rule = Rule(pattern: string, service: string, line: nat, source: string, compiled: CompiledPattern)

  datatype ParseErrorKind =
    | ColumnCount(raw: string)            // not exactly two columns
    | EmptyService                        // the service column is empty
    | BadPattern(cause: PatternSyntaxError) // the pattern does not compile

  /** `ParseError`: the file it names, the line, and what went wrong. */
  datatype ParseError = ParseError(source: string, line: nat, kind: ParseErrorKind)

  // ---------------------------------------------------------------------------
  // Inline comments
  // ---------------------------------------------------------------------------

  predicate IsQuote(c: char) { c == '\'' || c == '"' }

  /** After reading `s`, the scanner is inside quotes: an odd number of quote
      characters, `'` and `"` alike, have gone by. */
  predicate InQuote(s: string)
    decreases |s|
  {
    if s == [] then false else InQuote(s[..|s| - 1]) != IsQuote(s[|s| - 1])
  }

  /** The `#` at `i` starts a comment: it is outside quotes, and it is the
      first character or follows whitespace. */
  predicate CommentAt(line: string, i: nat)
    requires i < |line|
  {
    line[i] == '#' && !InQuote(line[..i]) && (i == 0 || PyIsSpace(line[i - 1]))
  }

  /** The first comment start at or after `i`, or `|line|` when there is none. */
  function CommentFrom(line: string, i: nat): (k: nat)
    requires i <= |line|
    ensures i <= k <= |line|
    ensures k < |line| ==> CommentAt(line, k)
    ensures forall j :: i <= j < k ==> !CommentAt(line, j)
    decreases |line| - i
  {
    if i == |line| then i else if CommentAt(line, i) then i else CommentFrom(line, i + 1)
  }

  /** `_strip_inline_comment`: the text before the first comment start, with
      trailing whitespace removed. */
  function StripInlineComment(line: string): string {
    TrimEndBy(line[..CommentFrom(line, 0)], PyIsSpace)
  }

  /** `_strip_inline_comment`, scanning with a quote flag. */
  method StripInlineCommentScan(line: string) returns (r: string)
    ensures r == StripInlineComment(line)
  {
    var inQuote := false;
    var i := 0;
    while i < |line|
      invariant 0 <= i <= |line|
      invariant inQuote == InQuote(line[..i])
      invariant forall j :: 0 <= j < i ==> !CommentAt(line, j)
    {
      var ch := line[i];
      assert line[..i + 1][..i] == line[..i];
      if ch == '\'' || ch == '"' {
        inQuote := !inQuote;
      }
      if ch == '#' && !inQuote {
        if i == 0 || PyIsSpace(line[i - 1]) {
          assert CommentAt(line, i);
          assert CommentFrom(line, 0) == i by { CommentFromFirst(line, i); }
          return TrimEndBy(line[..i], PyIsSpace);
        }
      }
      i := i + 1;
    }
    assert line[..|line|] == line;
    CommentFromFirst(line, |line|);
    return TrimEndBy(line, PyIsSpace);
  }

  /** `CommentFrom(line, 0)` is the first comment start. */
  lemma {:induction false} CommentFromFirst(line: string, k: nat)
    requires k <= |line|
    requires k < |line| ==> CommentAt(line, k)
    requires forall j :: 0 <= j < k ==> !CommentAt(line, j)
    ensures CommentFrom(line, 0) == k
  {
  }

  /** What is left of a line is a prefix of it, ending in no whitespace, and
      holds no comment start. */
  lemma {:induction false} StripInlineCommentPrefix(line: string)
    ensures var r := StripInlineComment(line);
      && |r| <= |line| && r == line[..|r|]
      && (r == [] || !PyIsSpace(r[|r| - 1]))
      && forall j :: 0 <= j < |r| ==> !CommentAt(line, j)
  {
    var k := CommentFrom(line, 0);
    TrimEndByPrefix(line[..k], PyIsSpace);
  }

  /** A line whose every `#` sits inside a word keeps all its text: only its
      trailing whitespace goes (so `docs/#/foo api` is read whole). */
  lemma {:induction false} HashInsideWordKept(line: string)
    requires forall i :: 0 < i < |line| && line[i] == '#' ==> !PyIsSpace(line[i - 1])
    requires |line| > 0 ==> line[0] != '#'
    ensures StripInlineComment(line) == TrimEndBy(line, PyIsSpace)
  {
    CommentFromFirst(line, |line|);
    assert line[..|line|] == line;
  }

  /** A `#` after whitespace and outside quotes cuts the line there. */
  lemma {:induction false} CommentCutsLine(line: string, i: nat)
    requires i < |line| && CommentAt(line, i)
    requires forall j :: 0 <= j < i ==> !CommentAt(line, j)
    ensures StripInlineComment(line) == TrimEndBy(line[..i], PyIsSpace)
  {
    CommentFromFirst(line, i);
  }

  // ---------------------------------------------------------------------------
  // Lines and files
  // ---------------------------------------------------------------------------

  /** A line that yields nothing before it is even split: blank, or a `#` line. */
  predicate SkippedLine(raw: string) {
    var line := PyStrip(raw);
    line == [] || line[0] == '#'
  }

  /** One pass of the loop of `parse_serviceowners_text`: no rule, a rule,
      or the error that stops the parse. */
  function ParseLine(raw: string, idx: nat, source: string): Result<Option<Rule>, ParseError> {
    if SkippedLine(raw) then Success(None)
    else ReadContent(PyStrip(StripInlineComment(raw)), raw, idx, source)
  }

  /** The rest of the pass, on the line without its inline comment. */
  function ReadContent(line: string, raw: string, idx: nat, source: string): Result<Option<Rule>, ParseError> {
    if line == [] then Success(None) else ReadColumns(Words(line, PyIsSpace), raw, idx, source)
  }

  /** The rest of the pass, on the columns of the line. */
  function ReadColumns(parts: seq<string>, raw: string, idx: nat, source: string): Result<Option<Rule>, ParseError> {
    if |parts| != 2 then Failure(ParseError(source, idx, ColumnCount(raw)))
    else ReadRule(PyStrip(parts[0]), PyStrip(parts[1]), idx, source)
  }

  /** The rest of the pass, on the pattern and service columns. */
  function ReadRule(pat: string, svc: string, idx: nat, source: string): Result<Option<Rule>, ParseError> {
    if svc == [] then Failure(ParseError(source, idx, EmptyService))
    else match Compile(pat)
      case Failure(e) => Failure(ParseError(source, idx, BadPattern(e)))
      case Success(compiled) => Success(Some(Rule(pat, svc, idx, source, compiled)))
  }

  /** A word has no whitespace to strip. */
  lemma {:induction false} WordStripped(w: string)
    requires IsWord(w, PyIsSpace)
    ensures PyStrip(w) == w
  {
    TrimmedAlready(w, PyIsSpace);
    TrimEndByNone(w, PyIsSpace);
  }

  lemma {:induction false} TrimEndByNone(w: string, drop: char -> bool)
    requires NoneOf(w, drop)
    ensures TrimEndBy(w, drop) == w
  {
  }

  /** The columns of a line once its inline comment is gone. */
  function Columns(raw: string): seq<string> {
    Words(PyStrip(StripInlineComment(raw)), PyIsSpace)
  }

  /** A blank or `#` line reads as no rule. */
  lemma {:induction false} ParseLineSkips(raw: string, idx: nat, source: string)
    requires SkippedLine(raw)
    ensures ParseLine(raw, idx, source) == Success(None)
  {
  }

  /** Whatever a line reads as carries its own line number and source. */
  lemma {:induction false} ParseLineNumbered(raw: string, idx: nat, source: string)
    ensures NumberedAt(ParseLine(raw, idx, source), idx)
    ensures FromSource(ParseLine(raw, idx, source), source)
  {
    if !SkippedLine(raw) {
      var line := PyStrip(StripInlineComment(raw));
      if line != [] {
        var parts := Words(line, PyIsSpace);
        if |parts| == 2 {
          ReadRuleNumbered(PyStrip(parts[0]), PyStrip(parts[1]), idx, source);
        }
      }
    }
  }

  /** A line's result names the file `source`. */
  predicate FromSource(r: Result<Option<Rule>, ParseError>, source: string) {
    && (r.Success? && r.value.Some? ==> r.value.value.source == source)
    && (r.Failure? ==> r.error.source == source)
  }

  lemma {:induction false} ReadRuleNumbered(pat: string, svc: string, idx: nat, source: string)
    ensures NumberedAt(ReadRule(pat, svc, idx, source), idx)
    ensures FromSource(ReadRule(pat, svc, idx, source), source)
  {
  }

  /** A rule holds the two columns of its line and the compiled pattern. */
  lemma {:induction false} ParseLineRule(raw: string, idx: nat, source: string)
    requires ParseLine(raw, idx, source).Success? && ParseLine(raw, idx, source).value.Some?
    ensures var rule := ParseLine(raw, idx, source).value.value;
      && !SkippedLine(raw)
      && Columns(raw) == [rule.pattern, rule.service]
      && Compile(rule.pattern) == Success(rule.compiled)
  {
    var parts := Columns(raw);
    WordStripped(parts[0]);
    WordStripped(parts[1]);
  }

  /** A line that is not skipped reads as a rule exactly when it has two
      columns and its first column compiles; with a column count other than
      two it is a column-count error, and with two columns whose pattern does
      not compile it is that compile error. */
  lemma {:induction false} ParseLineErrors(raw: string, idx: nat, source: string)
    requires !SkippedLine(raw) && PyStrip(StripInlineComment(raw)) != []
    ensures var r := ParseLine(raw, idx, source);
      && (|Columns(raw)| != 2 ==> r == Failure(ParseError(source, idx, ColumnCount(raw))))
      && (|Columns(raw)| == 2 && Compile(Columns(raw)[0]).Failure? ==>
            r == Failure(ParseError(source, idx, BadPattern(Compile(Columns(raw)[0]).error))))
      && (|Columns(raw)| == 2 && Compile(Columns(raw)[0]).Success? ==> r.Success? && r.value.Some?)
  {
    var parts := Columns(raw);
    if |parts| == 2 {
      WordStripped(parts[0]);
      WordStripped(parts[1]);
    }
  }

  /** What each line of a file reads as, line `j + 1` at index `j`. */
  function LineResults(lines: seq<string>, source: string): (rs: seq<Result<Option<Rule>, ParseError>>)
    ensures |rs| == |lines|
  {
    seq(|lines|, j requires 0 <= j < |lines| => ParseLine(lines[j], j + 1, source))
  }

  lemma {:induction false} LineResultsAt(lines: seq<string>, source: string, j: nat)
    requires j < |lines|
    ensures LineResults(lines, source)[j] == ParseLine(lines[j], j + 1, source)
  {
  }

  /** The rules of the lines read so far, in order, or the first error. */
  function Collect(rs: seq<Result<Option<Rule>, ParseError>>): Result<seq<Rule>, ParseError>
    decreases |rs|
  {
    if rs == [] then Success([])
    else
      var rules :- Collect(rs[..|rs| - 1]);
      var one :- rs[|rs| - 1];
      Success(if one.Some? then rules + [one.value] else rules)
  }

  /** The rules of a file given as its lines. */
  function ParseLines(lines: seq<string>, source: string): Result<seq<Rule>, ParseError> {
    Collect(LineResults(lines, source))
  }

  /** `parse_serviceowners_text`. */
  function ParseText(text: string, source: string): Result<seq<Rule>, ParseError> {
    ParseLines(SplitLines(text), source)
  }

  /** The body of the loop of `parse_serviceowners_text` for one line. */
  method ReadLine(raw: string, idx: nat, source: string) returns (r: Result<Option<Rule>, ParseError>)
    ensures r == ParseLine(raw, idx, source)
  {
    var line := PyStrip(raw);
    if line == [] || line[0] == '#' {
      return Success(None);
    }
    var stripped := StripInlineCommentScan(raw);
    line := PyStrip(stripped);
    if line == [] {
      return Success(None);
    }
    var parts := Words(line, PyIsSpace);
    if |parts| != 2 {
      return Failure(ParseError(source, idx, ColumnCount(raw)));
    }
    var pat, svc := PyStrip(parts[0]), PyStrip(parts[1]);
    if svc == [] {
      return Failure(ParseError(source, idx, EmptyService));
    }
    var compiled := CompilePattern(pat);
    if compiled.Failure? {
      return Failure(ParseError(source, idx, BadPattern(compiled.error)));
    }
    return Success(Some(Rule(pat, svc, idx, source, compiled.value)));
  }

  /** `parse_serviceowners_text`, appending to the rule list line by line and
      stopping at the first error. */
  method ParseServiceownersText(text: string, source: string) returns (r: Result<seq<Rule>, ParseError>)
    ensures r == ParseText(text, source)
  {
    var lines := SplitLines(text);
    var rules: seq<Rule> := [];
    var i := 0;
    while i < |lines|
      invariant 0 <= i <= |lines|
      invariant Collect(LineResults(lines, source)[..i]) == Success(rules)
    {
      var one := ReadLine(lines[i], i + 1, source);
      CollectStep(lines, source, i, rules, one);
      if one.Failure? {
        return Failure(one.error);
      }
      if one.value.Some? {
        rules := rules + [one.value.value];
      }
      i := i + 1;
    }
    CollectWhole(LineResults(lines, source));
    return Success(rules);
  }

  /** One pass of the loop: a failing line ends the parse with its error,
      any other line extends what the earlier ones collected. */
  lemma {:induction false} CollectStep(lines: seq<string>, source: string, i: nat, rules: seq<Rule>,
                                       one: Result<Option<Rule>, ParseError>)
    requires i < |lines| && Collect(LineResults(lines, source)[..i]) == Success(rules)
    requires one == ParseLine(lines[i], i + 1, source)
    ensures one.Failure? ==> ParseLines(lines, source) == Failure(one.error)
    ensures one.Success? ==>
              Collect(LineResults(lines, source)[..i + 1]) ==
              Success(if one.value.Some? then rules + [one.value.value] else rules)
  {
    var rs := LineResults(lines, source);
    LineResultsAt(lines, source, i);
    CollectSnoc(rs, i);
    if one.Failure? {
      CollectStops(rs, i + 1);
    }
  }

  lemma {:induction false} CollectWhole(rs: seq<Result<Option<Rule>, ParseError>>)
    ensures Collect(rs[..|rs|]) == Collect(rs)
  {
    assert rs[..|rs|] == rs;
  }

  /** Reading one more line extends the collection of the earlier ones. */
  lemma {:induction false} CollectSnoc(rs: seq<Result<Option<Rule>, ParseError>>, i: nat)
    requires i < |rs|
    ensures Collect(rs[..i + 1]) ==
      match Collect(rs[..i])
      case Failure(e) => Failure(e)
      case Success(rules) =>
        match rs[i]
        case Failure(e) => Failure(e)
        case Success(one) => Success(if one.Some? then rules + [one.value] else rules)
  {
    assert rs[..i + 1][..i] == rs[..i];
  }

  /** Once a line fails, the parse of the whole file is that failure. */
  lemma {:induction false} CollectStops(rs: seq<Result<Option<Rule>, ParseError>>, i: nat)
    requires i <= |rs| && Collect(rs[..i]).Failure?
    ensures Collect(rs) == Collect(rs[..i])
    decreases |rs| - i
  {
    if i == |rs| {
      assert rs[..i] == rs;
    } else {
      CollectSnoc(rs, i);
      CollectStops(rs, i + 1);
    }
  }

  // ---------------------------------------------------------------------------
  // What a parse yields
  // ---------------------------------------------------------------------------

  /** A line's result names line `idx`. */
  predicate NumberedAt(r: Result<Option<Rule>, ParseError>, idx: nat) {
    && (r.Success? && r.value.Some? ==> r.value.value.line == idx)
    && (r.Failure? ==> r.error.line == idx)
  }

  /** The result at index `j` is about line `j + 1`. */
  predicate Numbered(rs: seq<Result<Option<Rule>, ParseError>>) {
    forall j :: 0 <= j < |rs| ==> NumberedAt(rs[j], j + 1)
  }

  lemma {:induction false} LineResultsNumbered(lines: seq<string>, source: string)
    ensures Numbered(LineResults(lines, source))
  {
    forall j | 0 <= j < |lines|
      ensures NumberedAt(LineResults(lines, source)[j], j + 1)
    {
      LineNumbered(lines, source, j);
    }
  }

  lemma {:induction false} LineNumbered(lines: seq<string>, source: string, j: nat)
    requires j < |lines|
    ensures NumberedAt(LineResults(lines, source)[j], j + 1)
  {
    LineResultsAt(lines, source, j);
    ParseLineNumbered(lines[j], j + 1, source);
  }

  /** Each collected rule is what its own line reads as. */
  lemma {:induction false} CollectRulesFrom(rs: seq<Result<Option<Rule>, ParseError>>)
    requires Numbered(rs) && Collect(rs).Success?
    ensures var rules := Collect(rs).value;
      forall k :: 0 <= k < |rules| ==>
        (1 <= rules[k].line <= |rs| && rs[rules[k].line - 1] == Success(Some(rules[k])))
    decreases |rs|
  {
    if rs != [] {
      var n := |rs| - 1;
      var prefix := rs[..n];
      assert forall j :: 0 <= j < n ==> prefix[j] == rs[j];
      CollectRulesFrom(prefix);
      var rules0 := Collect(prefix).value;
      var rules := Collect(rs).value;
      assert forall k :: 0 <= k < |rules0| ==> rules[k] == rules0[k];
    }
  }

  /** Collected rules keep the order of their lines. */
  lemma {:induction false} CollectRulesOrdered(rs: seq<Result<Option<Rule>, ParseError>>)
    requires Numbered(rs) && Collect(rs).Success?
    ensures var rules := Collect(rs).value;
      forall k, m :: 0 <= k < m < |rules| ==> rules[k].line < rules[m].line
    decreases |rs|
  {
    if rs != [] {
      var n := |rs| - 1;
      var prefix := rs[..n];
      assert forall j :: 0 <= j < n ==> prefix[j] == rs[j];
      CollectRulesOrdered(prefix);
      CollectRulesFrom(prefix);
      var rules0 := Collect(prefix).value;
      var rules := Collect(rs).value;
      assert forall k :: 0 <= k < |rules0| ==> rules[k] == rules0[k];
    }
  }

  /** Every line that reads as a rule gives one. */
  lemma {:induction false} CollectRulesComplete(rs: seq<Result<Option<Rule>, ParseError>>)
    requires Numbered(rs) && Collect(rs).Success?
    ensures var rules := Collect(rs).value;
      forall j :: 0 <= j < |rs| && rs[j].Success? && rs[j].value.Some? ==>
        exists k :: 0 <= k < |rules| && rules[k].line == j + 1
    decreases |rs|
  {
    if rs != [] {
      var n := |rs| - 1;
      var prefix := rs[..n];
      assert forall j :: 0 <= j < n ==> prefix[j] == rs[j];
      CollectRulesComplete(prefix);
      var rules0 := Collect(prefix).value;
      var rules := Collect(rs).value;
      forall j | 0 <= j < |rs| && rs[j].Success? && rs[j].value.Some?
        ensures exists k :: 0 <= k < |rules| && rules[k].line == j + 1
      {
        if j < n {
          var k :| 0 <= k < |rules0| && rules0[k].line == j + 1;
          assert rules[k] == rules0[k];
        } else {
          assert rules[|rules| - 1].line == j + 1;
        }
      }
    }
  }

  /** A failed collection stops at the first failing line: every earlier line
      reads, and the failure is that line's own. */
  lemma {:induction false} CollectFirstError(rs: seq<Result<Option<Rule>, ParseError>>)
    requires Numbered(rs) && Collect(rs).Failure?
    ensures var e := Collect(rs).error;
      && 1 <= e.line <= |rs|
      && rs[e.line - 1] == Failure(e)
      && forall j :: 0 <= j < e.line - 1 ==> rs[j].Success?
    decreases |rs|
  {
    var n := |rs| - 1;
    var prefix := rs[..n];
    assert forall j :: 0 <= j < n ==> prefix[j] == rs[j];
    assert Numbered(prefix);
    if Collect(prefix).Failure? {
      CollectFirstError(prefix);
    } else {
      CollectAllRead(prefix);
    }
  }

  /** A successful collection has read every line. */
  lemma {:induction false} CollectAllRead(rs: seq<Result<Option<Rule>, ParseError>>)
    requires Collect(rs).Success?
    ensures forall j :: 0 <= j < |rs| ==> rs[j].Success?
    decreases |rs|
  {
    if rs != [] {
      var n := |rs| - 1;
      var prefix := rs[..n];
      CollectAllRead(prefix);
      assert forall j :: 0 <= j < n ==> prefix[j] == rs[j];
    }
  }

  /** Lines that all read as no rule collect to the empty rule list. */
  lemma {:induction false} CollectNoRules(rs: seq<Result<Option<Rule>, ParseError>>)
    requires forall j :: 0 <= j < |rs| ==> rs[j] == Success(None)
    ensures Collect(rs) == Success([])
    decreases |rs|
  {
    if rs != [] {
      var n := |rs| - 1;
      var prefix := rs[..n];
      assert forall j :: 0 <= j < n ==> prefix[j] == rs[j];
      CollectNoRules(prefix);
    }
  }

  /** `rule` is exactly what line `rule.line` (numbered from 1) of `lines` reads as. */
  predicate ReadFromLine(lines: seq<string>, source: string, rule: Rule) {
    var j := rule.line - 1;
    0 <= j < |lines| && ParseLine(lines[j], j + 1, source) == Success(Some(rule))
  }

  /** Each rule of a parsed file is exactly what its own line reads as. */
  lemma {:induction false} ParseLinesRuleLines(lines: seq<string>, source: string)
    requires ParseLines(lines, source).Success?
    ensures var rules := ParseLines(lines, source).value;
      forall k :: 0 <= k < |rules| ==> ReadFromLine(lines, source, rules[k])
  {
    var rules := ParseLines(lines, source).value;
    forall k | 0 <= k < |rules|
      ensures ReadFromLine(lines, source, rules[k])
    {
      RuleLine(lines, source, k);
    }
  }

  lemma {:induction false} RuleLine(lines: seq<string>, source: string, k: nat)
    requires ParseLines(lines, source).Success? && k < |ParseLines(lines, source).value|
    ensures ReadFromLine(lines, source, ParseLines(lines, source).value[k])
  {
    var rs := LineResults(lines, source);
    LineResultsNumbered(lines, source);
    CollectRulesFrom(rs);
    LineResultsAt(lines, source, ParseLines(lines, source).value[k].line - 1);
  }

  /** The rules of a parsed file come in file order. */
  lemma {:induction false} ParseLinesOrdered(lines: seq<string>, source: string)
    requires ParseLines(lines, source).Success?
    ensures var rules := ParseLines(lines, source).value;
      forall k, m :: 0 <= k < m < |rules| ==> rules[k].line < rules[m].line
  {
    LineResultsNumbered(lines, source);
    CollectRulesOrdered(LineResults(lines, source));
  }

  /** No line of a parsed file that reads as a rule is lost. */
  lemma {:induction false} ParseLinesComplete(lines: seq<string>, source: string, j: nat)
    requires ParseLines(lines, source).Success?
    requires j < |lines| && ParseLine(lines[j], j + 1, source).Success?
    requires ParseLine(lines[j], j + 1, source).value.Some?
    ensures var rules := ParseLines(lines, source).value;
      exists k :: 0 <= k < |rules| && rules[k].line == j + 1
  {
    LineResultsNumbered(lines, source);
    LineResultsAt(lines, source, j);
    CollectRulesComplete(LineResults(lines, source));
  }

  /** A parse error names a line of the file, with that line's own error. */
  lemma {:induction false} ParseLinesErrorLine(lines: seq<string>, source: string)
    requires ParseLines(lines, source).Failure?
    ensures var e := ParseLines(lines, source).error;
      var n := e.line - 1;
      0 <= n < |lines| && ParseLine(lines[n], n + 1, source) == Failure(e)
  {
    var rs := LineResults(lines, source);
    LineResultsNumbered(lines, source);
    CollectFirstError(rs);
    LineResultsAt(lines, source, ParseLines(lines, source).error.line - 1);
  }

  /** Every line before the one a parse error names reads without error. */
  lemma {:induction false} ParseLinesFirstError(lines: seq<string>, source: string, j: nat)
    requires ParseLines(lines, source).Failure?
    requires j + 1 < ParseLines(lines, source).error.line
    ensures j < |lines| && ParseLine(lines[j], j + 1, source).Success?
  {
    var rs := LineResults(lines, source);
    LineResultsNumbered(lines, source);
    CollectFirstError(rs);
    LineResultsAt(lines, source, j);
  }

  /** A file whose every line is blank or a comment is valid and has no rules. */
  lemma {:induction false} ParseLinesNoRules(lines: seq<string>, source: string)
    requires forall j :: 0 <= j < |lines| ==> SkippedLine(lines[j])
    ensures ParseLines(lines, source) == Success([])
  {
    forall j | 0 <= j < |lines|
      ensures LineResults(lines, source)[j] == Success(None)
    {
      LineResultsAt(lines, source, j);
      ParseLineSkips(lines[j], j + 1, source);
    }
    CollectNoRules(LineResults(lines, source));
  }

  /** The empty-service error cannot arise: `split()` never yields an empty column. */
  lemma {:induction false} NoEmptyServiceError(raw: string, idx: nat, source: string)
    ensures ParseLine(raw, idx, source).Failure? ==> !ParseLine(raw, idx, source).error.kind.EmptyService?
  {
    if !SkippedLine(raw) {
      var line := PyStrip(StripInlineComment(raw));
      if line != [] {
        var parts := Words(line, PyIsSpace);
        if |parts| == 2 {
          WordStripped(parts[1]);
        }
      }
    }
  }
}
