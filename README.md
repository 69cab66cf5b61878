# serviceowners, modelled in Dafny

serviceowners maps the files of a repository to the services that own them.
A `SERVICEOWNERS` file lists one rule per line: a glob pattern, then a service name.
For any path, the last rule whose pattern matches decides the owner.
Around that core the tool has:

- an optional services metadata file, with owners and contact channels;
- a linter for both files;
- an impact report, which groups a change set's files by owning service;
- an `init` command, which drafts a `SERVICEOWNERS` file from a `CODEOWNERS` file.

The Python package `src/serviceowners` implements all of this. `src/lib.rs` is a Rust port of the
parser, the matcher and `init`.

This project models that core. There is one module per source file, plus helper modules:

| module | source | form |
|---|---|---|
| `Strings`, `StringOrder`, `Wrappers` | helpers | Python `str.strip`/`split`/`splitlines`, Rust `trim`/`lines`/`split_whitespace`, `sorted(set(...))`, `Result`/`Option` |
| `Patterns` | `src/serviceowners/patterns.py` | normalisation, glob-to-regex translation token by token (methods with loops, proved against functions), regex fragments given a meaning by `Matches`, root and basename anchoring |
| `ServiceownersFile` | `src/serviceowners/serviceowners_file.py` | inline comment stripping (a quote-tracking scan), line parsing with numbered errors, the parse loop |
| `Ownership` | `src/serviceowners/ownership.py` | `OwnershipIndex` as a class holding its rule list; `match` returns every matching rule and chooses the last |
| `Impact` | `src/serviceowners/impact.py` | `compute_impact`: the accumulation loop, then sorting and de-duplicating each bucket |
| `Lint` | `src/serviceowners/lint.py` | every check of `lint_rules` as a loop method proved against a function, with the severity rules |
| `Paths` | `src/serviceowners/paths.py` | `to_posix`, `normalize_repo_path` (quotes, `./` runs, `PurePosixPath` collapsing), `normalize_paths` |
| `ServicesFile` | `src/serviceowners/services_file.py` | loaded YAML modelled as a `Value` datatype; owners, contacts, string lists, `parse_services_obj` |
| `CliInit` | `src/serviceowners/cli.py` | `_infer_service_from_pattern`, `_infer_service_from_owner` and the text that `cmd_init` builds |
| `RustLib` | `src/lib.rs` | `normalize_pattern`, `ServiceMapper::parse`/`find_service`/`explain_service`, `infer_service_name`, `init_from_codeowners`, and how the Rust normaliser differs from the Python one |

Each loop in the source is a `method` with loop invariants. Its `ensures` clause ties its result to a
specification function, and the properties are proved as lemmas about those functions.

Glob matching is treated differently in the two halves:

- In the Python half it is modelled exactly. The regex that `_glob_to_regex` emits is a sequence of fragments (`Frag`), and `Matches` says when a string is in that regex's language.
- In the Rust half, `globset` is a library the model cannot see. The model takes it as parameters: `compiles` says whether a glob builds, and `matches` says whether a glob matches a path.

The Rust normaliser returns `**` when the pattern is `/` after stripping `./` prefixes and one
leading `/` (for example the input `//`). So a non-empty Rust result contains `/` or is exactly `**`.
`RustLib.NormalizedPatternShape` proves that statement.

## Model

| member | source | states |
|---|---|---|
| Strings.SplitLines | src/serviceowners/serviceowners_file.py:37 | no resulting line holds any of the characters Python's `str.splitlines` breaks on, and a non-empty text gives at least one line |
| Strings.SplitLinesJoin | src/serviceowners/serviceowners_file.py:37 | the lines are the text's pieces between boundaries: joined with `\n`, plus a `\n` when the text ends in a boundary, they give the text with every boundary (`\r\n` counting as one) written as `\n` |
| Strings.RustLines | src/lib.rs:66 | no line produced by Rust's `str::lines` holds a `\n`, and a non-empty text gives at least one line |
| Strings.RustLinesJoin | src/lib.rs:66 | the lines are the text's pieces between `\n`s, each without the `\r` before its `\n`: joined with `\n`, plus a `\n` when the text ends in one, they give the text with every `\r\n` written as `\n` |
| Strings.Words | src/serviceowners/serviceowners_file.py:45 | every word produced by `split()` is non-empty and free of whitespace |
| Strings.WordsArePieces | src/serviceowners/serviceowners_file.py:45 | the words are exactly the non-empty pieces between whitespace characters, in order: runs of whitespace act as one separator and leading or trailing whitespace gives no empty word |
| Strings.NonEmpty | src/serviceowners/cli.py:197 | a string is kept exactly when it is in the input and non-empty |
| Strings.NonEmptyAppend | src/serviceowners/cli.py:197 | the filter keeps input order: the non-empty strings of `a + b` are those of `a` followed by those of `b` |
| Strings.TrimStartBy | src/serviceowners/patterns.py:23 | only droppable characters are removed from the front, and the result does not start with one |
| Strings.TrimEndBy | src/serviceowners/patterns.py:42 | only droppable characters are removed from the end, and the result does not end with one |
| Strings.ReplaceChar | src/serviceowners/paths.py:8 | same length; each `from` character becomes `to` and every other character is kept |
| Strings.SplitOnJoin | src/serviceowners/paths.py:38 | joining the pieces of a split with its separator gives back the original string |
| Strings.Lower | src/serviceowners/cli.py:209 | same length; each character is the ASCII lower-case form of the input's character at that position, so no upper-case ASCII letter is left |
| StringOrder.SortDedup | src/serviceowners/impact.py:42-43 | `sorted(set(xs))`: strictly sorted and holding exactly the elements of `xs` |
| StringOrder.StrictlySortedUnique | src/serviceowners/impact.py:42-43 | two strictly sorted lists with the same elements are equal |
| StringOrder.SortDedupBySet | src/serviceowners/impact.py:42-43 | the sorted, de-duplicated list depends only on the set of elements |
| StringOrder.BelowTotal | src/serviceowners/impact.py:17 | string order is total; with BelowIrreflexive and BelowTransitive it is a strict total order |
| StringOrder.BelowTransitive | src/serviceowners/impact.py:17 | string order is transitive |
| Patterns.StripDotSlash | src/serviceowners/patterns.py:30-31 | what the `./` loop leaves never starts with `./` and is no longer than its input |
| Patterns.StripDotSlashSuffix | src/serviceowners/patterns.py:30-31 | what the `./` loop leaves is a suffix of its input |
| Patterns.NormalizePattern | src/serviceowners/patterns.py:22-44 | the step-by-step reassignment of `pat` computes `Normalized(pat)`, error cases included |
| Patterns.NormalizedFailure | src/serviceowners/patterns.py:23-25 | normalisation fails with EmptyPattern exactly for blank patterns. It fails at all exactly for blank patterns and for patterns that are only `./` prefixes and at most one `/` (the root error) |
| Patterns.StripLeadingEmptyIff | src/serviceowners/patterns.py:30-38 | dropping the `./` run and one `/` leaves nothing exactly when the text is `./`s followed by at most one `/` |
| Patterns.NormalizedShape | src/serviceowners/patterns.py:22-44 | a normalised pattern is non-empty, holds no backslash and does not end with `/` |
| Patterns.SlashesNormalized | src/serviceowners/patterns.py:34-42 | a lone `/` names the repository root (an error); two or more slashes normalise to `/**` |
| Patterns.DirectoryShorthand | src/serviceowners/patterns.py:41-42 | a pattern that ends in `/`, does not start with whitespace, holds no backslash and normalises successfully to something other than `/**` normalises the same as that pattern with its trailing slashes replaced by `/**` |
| Patterns.TrailingSlashesRest | src/serviceowners/patterns.py:41-42 | after the leading slash is dropped, any run of trailing slashes becomes exactly one `/**` |
| Patterns.LoneDotShorthand | src/serviceowners/patterns.py:30-42 | `.` followed by slashes names the repository root or the whole tree |
| Patterns.ClassEnd | src/serviceowners/patterns.py:76-81 | the closing-bracket search stops at the first `]` after the optional negation mark, or at the end |
| Patterns.SkipStarRun | src/serviceowners/patterns.py:65-69 | the inner star loop stops on the last star of the run, and the run is one `**` token |
| Patterns.FindClassEnd | src/serviceowners/patterns.py:76-84 | the bracket loop finds the closing `]`, or reports none; the token is then a literal `[` or the class between the brackets |
| Patterns.ReadToken | src/serviceowners/patterns.py:61-97 | one pass of the loop body emits the fragment of the token at `i` and moves past that token |
| Patterns.GlobToFrags | src/serviceowners/patterns.py:47-99 | `_glob_to_regex` emits exactly `Translate(pat)`, token by token |
| Patterns.TranslateStarRun | src/serviceowners/patterns.py:63-69 | a run of two or more stars becomes a single `.*` |
| Patterns.TranslateStar | src/serviceowners/patterns.py:70-71 | a lone star becomes `[^/]*` |
| Patterns.TranslateQuestion | src/serviceowners/patterns.py:72-73 | `?` becomes `[^/]` |
| Patterns.TranslateUnclosedBracket | src/serviceowners/patterns.py:82-84 | a `[` that no `]` closes becomes an escaped literal `[` |
| Patterns.TranslateBracketClass | src/serviceowners/patterns.py:85-93 | `[body]` becomes one character class; a leading `!` or `^` makes it negated |
| Patterns.TranslatePlainPrefix | src/serviceowners/patterns.py:94-95 | characters with no glob meaning are translated into literals that match only themselves |
| Patterns.CompilePattern | src/serviceowners/patterns.py:102-122 | compiling is normalising, then translating, then rejecting invalid classes; the method computes `Compile(raw)` |
| Patterns.CompiledParts | src/serviceowners/patterns.py:104-122 | a compiled pattern keeps the raw text and its normalised form. Its body is the translation of the normalised form, and every class in it is valid. It is anchored at the root exactly when the normalised form contains `/` |
| Patterns.SegmentMatchesIff | src/serviceowners/patterns.py:71 | `[^/]*` matches exactly the strings without `/` |
| Patterns.AnythingMatchesAll | src/serviceowners/patterns.py:69 | `.*` matches every string |
| Patterns.SegmentThen | src/serviceowners/patterns.py:71 | `[^/]*` followed by a body matches a run of non-`/` characters followed by a match of the body |
| Patterns.AnythingThen | src/serviceowners/patterns.py:69 | `.*` followed by a body matches any characters followed by a match of the body |
| Patterns.OneCharMatchesIff | src/serviceowners/patterns.py:73 | `[^/]` matches exactly one character other than `/` |
| Patterns.ClassMatchesIff | src/serviceowners/patterns.py:92 | a class matches exactly one character: one it lists, or, when negated, one it does not list |
| Patterns.LitsThen | src/serviceowners/patterns.py:95 | escaped literals followed by a body match exactly strings starting with those characters followed by a match of the body |
| Patterns.RootedLiteralPrefix | src/serviceowners/patterns.py:112-113 | a pattern anchored at the root matches only paths that begin with its leading literal characters |
| Patterns.BasenameMatchesLastSegment | src/serviceowners/patterns.py:114-115 | for a body that stays within one segment, `(^\|.*/)body$` matches a path exactly when `body` matches its last segment |
| Patterns.BasenamePatternMatches | src/serviceowners/patterns.py:110-115 | a compiled pattern without `/`, `[` or `**` matches a path exactly when its body matches the path's last segment |
| Patterns.SuffixPatternMatches | tests/test_patterns.py:4-8 | a pattern such as `*.md` matches exactly the paths whose last segment ends with `.md`, at any depth |
| Patterns.TreePatternMatches | tests/test_patterns.py:24-27 | a pattern such as `docs/**` matches exactly the paths under `docs/` |
| Patterns.ChildPatternMatches | tests/test_patterns.py:17-21 | a pattern such as `docs/*` matches exactly the paths directly inside `docs/` and nothing in sub-directories or elsewhere |
| Patterns.ShorthandPlain | src/serviceowners/patterns.py:23-27 | the rewritten directory shorthand `dir/**` passes the strip and backslash steps unchanged, so only the path steps act on it |
| ServiceownersFile.CommentFrom | src/serviceowners/serviceowners_file.py:21-32 | the position found is the first `#` that is outside quotes and is at the start of the line or after whitespace; the line length when there is none |
| ServiceownersFile.StripInlineCommentScan | src/serviceowners/serviceowners_file.py:21-32 | the scan, which toggles the quote state on either quote character, returns `StripInlineComment(line)` |
| ServiceownersFile.StripInlineCommentPrefix | src/serviceowners/serviceowners_file.py:21-32 | the result is a prefix of the line that holds no comment start and does not end in whitespace |
| ServiceownersFile.HashInsideWordKept | src/serviceowners/serviceowners_file.py:22-23 | a line whose every `#` follows a non-space character (as in `docs/#/foo`) is only right-stripped |
| ServiceownersFile.CommentCutsLine | src/serviceowners/serviceowners_file.py:28-31 | the first comment start cuts the line there, and what precedes it is right-stripped |
| ServiceownersFile.ParseLineSkips | src/serviceowners/serviceowners_file.py:38-43 | blank lines, `#` lines and lines that are only a comment yield no rule and no error |
| ServiceownersFile.ParseLineNumbered | src/serviceowners/serviceowners_file.py:37-59 | the rule or error read from a line carries that line's 1-based number and the source name |
| ServiceownersFile.ParseLineRule | src/serviceowners/serviceowners_file.py:45-59 | a rule read from a line has the line's two columns as pattern and service, and its compiled pattern is the result of compiling that pattern |
| ServiceownersFile.ParseLineErrors | src/serviceowners/serviceowners_file.py:45-57 | other than two columns is a column-count error; two columns with a pattern that does not compile is that pattern error; otherwise a rule |
| ServiceownersFile.NoEmptyServiceError | src/serviceowners/serviceowners_file.py:50-52 | the empty-service-name error is never raised, because `split()` yields no empty column |
| ServiceownersFile.WordStripped | src/serviceowners/serviceowners_file.py:50 | stripping a column from `split()` changes nothing |
| ServiceownersFile.ReadLine | src/serviceowners/serviceowners_file.py:38-59 | one pass of the loop body computes `ParseLine` |
| ServiceownersFile.ParseServiceownersText | src/serviceowners/serviceowners_file.py:35-65 | the parse loop returns `ParseText`: the rules in order, or the first line's error |
| ServiceownersFile.ParseLinesRuleLines | src/serviceowners/serviceowners_file.py:37-59 | every rule returned was read from the line its number names |
| ServiceownersFile.ParseLinesOrdered | src/serviceowners/serviceowners_file.py:59 | the rules come in strictly increasing line order |
| ServiceownersFile.ParseLinesComplete | src/serviceowners/serviceowners_file.py:59 | every line that reads as a rule contributes a rule to the result |
| ServiceownersFile.ParseLinesErrorLine | src/serviceowners/serviceowners_file.py:46-57 | the error's line number names a line whose own parse raises that error |
| ServiceownersFile.ParseLinesFirstError | src/serviceowners/serviceowners_file.py:37-57 | every line before the failing one parses, so the error raised is the first one |
| ServiceownersFile.ParseLinesNoRules | src/serviceowners/serviceowners_file.py:61-65 | a text of blank or comment lines parses to the empty rule list |
| Ownership.OwnershipIndex.constructor | src/serviceowners/ownership.py:23-24 | the index holds the given rules in order |
| Ownership.OwnershipIndex.Rules | src/serviceowners/ownership.py:26-28 | returns the rule list; the list is a constant field, set once by the constructor, so no method changes the index |
| Ownership.OwnershipIndex.Match | src/serviceowners/ownership.py:30-36 | the loop computes `MatchOf(rules, path)` |
| Ownership.MatchingMembers | src/serviceowners/ownership.py:31-34 | a rule is among the matches exactly when it is one of the rules and matches the path |
| Ownership.MatchingAppend | src/serviceowners/ownership.py:31-34 | the matches keep rule order: the matches of `a + b` are those of `a` followed by those of `b` |
| Ownership.ChosenIsLast | src/serviceowners/ownership.py:35 | a chosen rule is the last rule that matches the path |
| Ownership.LastIsChosen | src/serviceowners/ownership.py:35 | the last rule that matches the path is the one chosen |
| Ownership.NoneChosen | src/serviceowners/ownership.py:35 | nothing is chosen exactly when no rule matches, and exactly when the match list is empty |
| Ownership.ServiceOfLastMatch | src/serviceowners/ownership.py:15-17 | the match's service is the service of the last matching rule |
| Ownership.NoServiceWithoutMatch | src/serviceowners/ownership.py:15-17 | without a matching rule there is no service and an empty match list |
| Ownership.EmptyIndex | src/serviceowners/ownership.py:30-36 | an empty index matches nothing |
| Ownership.BothMatch | src/serviceowners/ownership.py:35 | when two rules both match, both are reported and the later one is chosen |
| Ownership.SuffixRule | tests/test_match.py:9 | a rule `*.py` matches exactly the paths whose last segment ends with `.py` |
| Ownership.TreeRule | tests/test_match.py:10 | a rule `src/**` matches exactly the paths under `src/` |
| Ownership.LaterTreeRuleWins | tests/test_match.py:5-16 | for `*.py core` then `src/** platform`, a `.py` file under `src/` matches both rules and is owned by the later one |
| Ownership.ServicesOf | src/serviceowners/impact.py:38 | the services of the matched rules, in rule order |
| Impact.ImpactReport.ImpactedServices | src/serviceowners/impact.py:16-17 | strictly sorted, and exactly the services that have a bucket |
| Impact.ComputeImpact | src/serviceowners/impact.py:26-45 | the accumulation loop followed by the sort loop returns `Impact(index.rules, changed)` |
| Impact.SortEachBucket | src/serviceowners/impact.py:40-42 | the loop over the buckets replaces each one with its sorted, de-duplicated form |
| Impact.SortBuckets | src/serviceowners/impact.py:40-42 | sorting the buckets keeps the same services |
| Impact.GatherUnmapped | src/serviceowners/impact.py:33-35 | before sorting, a path is listed as unmapped exactly when it was changed and has no owner |
| Impact.GatherBucket | src/serviceowners/impact.py:36 | before sorting, a path is in a service's bucket exactly when it was changed and that service owns it |
| Impact.GatherNonEmpty | src/serviceowners/impact.py:36 | a bucket exists only once a path has been added to it |
| Impact.GatherOverlaps | src/serviceowners/impact.py:37-38 | a path is recorded as an overlap exactly when it was changed, is owned and matches more than one rule; the value is the services of its matches, in order |
| Impact.ImpactPartition | src/serviceowners/impact.py:26-45 | in the report, a path is unmapped exactly when it was changed and has no owner, and is in a bucket exactly when it was changed and that service owns it |
| Impact.UnmappedOrBucket | src/serviceowners/impact.py:33-36 | no path is both unmapped and in a bucket |
| Impact.OneBucket | src/serviceowners/impact.py:36 | a path lies in at most one bucket |
| Impact.ImpactBuckets | src/serviceowners/impact.py:36 | a service has a bucket exactly when it owns a changed path, and the bucket is never empty |
| Impact.ImpactSorted | src/serviceowners/impact.py:40-43 | the unmapped list and every bucket are strictly sorted, so they hold no duplicates |
| Impact.ImpactOverlaps | src/serviceowners/impact.py:37-38 | the report's overlaps are the owned changed paths with several matching rules, mapped to the services of those rules in order |
| Impact.ImpactBySet | src/serviceowners/impact.py:26-45 | the report depends only on the set of changed paths, not on their order or repetition |
| Impact.FileCountForOwned | src/serviceowners/impact.py:19-20 | `file_count_for(svc)` is the number of distinct changed paths owned by `svc` |
| Impact.TotalFilesDistinct | src/serviceowners/impact.py:22-23 | `total_files()` is the number of distinct changed paths |
| Impact.MappedOrUnmapped | src/serviceowners/impact.py:26-45 | the bucketed paths and the unmapped paths are disjoint, and together they are exactly the changed paths |
| Impact.CountedOnce | src/serviceowners/impact.py:26-45 | each path is reported exactly when it was changed, and never both as mapped and as unmapped |
| Impact.UnmatchedUnmapped | src/serviceowners/impact.py:33-35 | a changed path that no rule matches is unmapped and in no bucket |
| Impact.OutsideTreesUnmapped | tests/test_impact.py:6-17 | for the rules `apps/api/**` and `apps/web/**`, a changed path outside both trees (such as `README.md`) is unmapped |
| Lint.LintResult.HasErrors | src/serviceowners/lint.py:27-29 | true exactly when some issue has severity ERROR |
| Lint.LintResult.HasWarnings | src/serviceowners/lint.py:31-33 | true exactly when some issue has severity WARN |
| Lint.DupStep | src/serviceowners/lint.py:58-74 | one step of the duplicate scan either adds one issue and leaves `seen` alone, or records the rule in `seen` and adds no issue |
| Lint.FirstService | src/serviceowners/lint.py:56-74 | none exactly when no rule has the pattern; otherwise the service of the first rule with that pattern |
| Lint.DuplicatesByFirstRule | src/serviceowners/lint.py:56-74 | `seen` holds exactly the patterns seen so far, and the remembered rule of each has the service of that pattern's first rule (a later rule of the same service replaces it). One issue is reported, in order, exactly for each later rule whose service differs from that first rule's |
| Lint.SameServiceRepeatsAllowed | src/serviceowners/lint.py:59 | repeating a pattern with the same service is never reported |
| Lint.DuplicateOfTwo | tests/test_lint.py:14-22 | two rules with one pattern report exactly one duplicate issue when their services differ, and none when they agree |
| Lint.DuplicateScan | src/serviceowners/lint.py:56-74 | the loop computes the duplicate issues of `DupScan` |
| Lint.UnknownIssuesExact | src/serviceowners/lint.py:77-89 | the unknown-service issues are exactly one per rule whose service is not declared |
| Lint.UnknownServiceScan | src/serviceowners/lint.py:78-89 | the loop computes `UnknownIssues` |
| Lint.NoContactIssuesExact | src/serviceowners/lint.py:91-100 | the no-contact issues are exactly one per service without owners and without a slack or email contact |
| Lint.NoContactScan | src/serviceowners/lint.py:91-100 | the loop computes `NoContactIssues` |
| Lint.ServiceChecks | src/serviceowners/lint.py:77-100 | the service checks run only when services metadata is present |
| Lint.AnyMatch | src/serviceowners/lint.py:122-126 | the inner loop, with its early break, reports whether some tracked file matches the rule |
| Lint.NoMatchIssuesExact | src/serviceowners/lint.py:121-137 | the match-nothing issues are exactly one per rule that matches no tracked file |
| Lint.NoMatchScan | src/serviceowners/lint.py:121-137 | the loop computes `NoMatchIssues` |
| Lint.NoFilesAllUnmatched | src/serviceowners/lint.py:117-137 | with no tracked files every rule is reported, in order |
| Lint.TrackedOrEmpty | src/serviceowners/lint.py:115-119 | a git failure gives a GIT_ERROR issue and an empty file list; otherwise the tracked files and no issue |
| Lint.MatchCheck | src/serviceowners/lint.py:105-137 | the `check_matches` block computes `MatchPhase` |
| Lint.GitFailureReportsAll | src/serviceowners/lint.py:115-137 | when git fails, the match check reports the git error and then every rule as matching nothing |
| Lint.CandidateOfFile | src/serviceowners/lint.py:158-163 | every tracked file matched by rules of more than one service is an overlap candidate |
| Lint.CandidatesAreOverlaps | src/serviceowners/lint.py:158-163 | every overlap candidate is a tracked file matched by rules of more than one service, with its services in rule order |
| Lint.SeveralServices | src/serviceowners/lint.py:162 | `len(set(svcs)) > 1` holds exactly when two of the services differ |
| Lint.OverlapExamplesCapped | src/serviceowners/lint.py:157-165 | at most 25 examples are kept, they are the first candidates, and when there are 25 or more candidates exactly 25 are kept |
| Lint.OverlapsReported | src/serviceowners/lint.py:158-165 | when the cap is not reached, every overlapping tracked file is among the examples |
| Lint.OverlapScan | src/serviceowners/lint.py:156-165 | the scan, with its break at the cap, computes `OverlapExamples` |
| Lint.OverlapOf | src/serviceowners/lint.py:159-163 | one pass of the scan gives the file's example exactly when rules of two or more services match it |
| Lint.OverlapCheck | src/serviceowners/lint.py:140-178 | the `check_overlaps` block computes `OverlapPhase` |
| Lint.OneOverlapIssue | src/serviceowners/lint.py:167-178 | at most one OVERLAPPING_RULES issue is reported |
| Lint.LintRules | src/serviceowners/lint.py:36-180 | `lint_rules` computes `Lint`: duplicates, then the service checks, the match check and the overlap check, in that order |
| Lint.LintSeverities | src/serviceowners/lint.py:36-180 | in every issue, the severity follows the rules for its code: it depends on `strict` for duplicates, unknown services and matching nothing; it is WARN for no-contact and overlaps; it is ERROR for git problems |
| Lint.StrictWarnings | src/serviceowners/lint.py:50 | in strict mode the only warnings left are no-contact and overlap warnings |
| Lint.NoServicesNoServiceIssues | src/serviceowners/lint.py:77 | without services metadata no service issue is raised |
| Lint.MissingRepoRoot | src/serviceowners/lint.py:105-148 | without a repository root each requested git check reports GIT_REQUIRED and nothing else |
| Paths.ToPosixSlashes | src/serviceowners/paths.py:7-8 | no backslash is left; the length is the same; each backslash became `/` and everything else is kept |
| Paths.QuotesOnce | src/serviceowners/paths.py:21-22 | one pair of matching surrounding quotes is removed, and only one |
| Paths.MismatchedQuotesKept | src/serviceowners/paths.py:21-22 | a path wrapped in two different quote characters is kept as is |
| Paths.RelativeUntouched | src/serviceowners/paths.py:24-31 | a relative path is never relativised |
| Paths.DotSlashRunsGo | src/serviceowners/paths.py:33-34 | any number of leading `./` is removed, and the rest no longer starts with `./` |
| Paths.NormalizeRepoPath | src/serviceowners/paths.py:11-38 | the step-by-step reassignment of `p` computes `NormalizedRepoPath` |
| Paths.PosixParts | src/serviceowners/paths.py:38 | a string is a part exactly when it is a `/` piece of the path that is neither empty nor `.`; no part holds `/` |
| Paths.KeptAppend | src/serviceowners/paths.py:38 | the parts keep the path's order: the kept pieces of `a + b` are those of `a` followed by those of `b` |
| Paths.RootAndJoin | src/serviceowners/paths.py:38 | a root of `""`, `/` or `//` followed by kept parts joined with `/` is read back as that root and those parts |
| Paths.PosixStrIdempotent | src/serviceowners/paths.py:38 | converting with `str(PurePosixPath(...))` a second time changes nothing |
| Paths.DotAlone | src/serviceowners/paths.py:38 | `.` has no root and no parts |
| Paths.CleanPathUnchanged | tests/test_paths.py:6-8 | a clean relative path, such as one starting with a dot-directory like `.github/`, is returned unchanged |
| Paths.NormalizePaths | src/serviceowners/paths.py:41-42 | one output per non-blank input |
| Paths.NonBlankMembers | src/serviceowners/paths.py:42 | a path is kept exactly when it is one of the inputs and is not blank |
| Paths.NormalizePathsEach | src/serviceowners/paths.py:42 | the i-th output is the i-th non-blank input, normalised |
| ServicesFile.Get | src/serviceowners/services_file.py:31-33 | `obj.get(key)`: the value of the first entry stored under the key, and null when the key is absent |
| ServicesFile.OwnerFromString | src/serviceowners/services_file.py:20-26 | a string owner is an email when it looks like one. Otherwise it is a team when it starts with `@`, and a user in every other case. Exactly one field is set, and `display()` returns the string |
| ServicesFile.OwnerFromMapping | src/serviceowners/services_file.py:31-39 | a mapping owner is accepted exactly when team, user or email is truthy; `display()` is then the first truthy one. Otherwise it fails with the owner-unnamed error |
| ServicesFile.OwnerBadTypes | src/serviceowners/services_file.py:28-29 | an owner that is neither a string nor a mapping is a type error |
| ServicesFile.ContactFromObj | src/serviceowners/services_file.py:48-53 | null gives an empty contact, a mapping is accepted, and anything else is an error |
| ServicesFile.EnsureStrListCases | src/serviceowners/services_file.py:69-74 | null gives `[]`; a list of strings is returned as is; nothing else is accepted |
| ServicesFile.OwnersFrom | src/serviceowners/services_file.py:108 | on success, owner i is entry i as `from_obj` reads it; on failure, the error is that of the first entry `from_obj` rejects |
| ServicesFile.ParseServicesObj | src/serviceowners/services_file.py:77-123 | the method computes `ParsedServices` |
| ServicesFile.ParsedServicesShape | src/serviceowners/services_file.py:78-90 | null gives no services and a non-mapping is an error. A `services` key holding a mapping is used as the services table; otherwise the whole document is |
| ServicesFile.ServicesMapIsMapping | src/serviceowners/services_file.py:92-93 | the services table is always a mapping, so the not-a-mapping error of line 93 cannot be raised |
| ServicesFile.ParseEntriesNames | src/serviceowners/services_file.py:95-121 | on success every entry yields one service, in order, built from its key and body |
| ServicesFile.ServiceNamed | src/serviceowners/services_file.py:97-98 | a parsed service is named by its key, and that key is a non-blank string |
| ServicesFile.ParseEntriesFirstError | src/serviceowners/services_file.py:96-121 | a failure is raised by some entry, and every entry before it reads cleanly |
| ServicesFile.ParseServiceChecks | src/serviceowners/services_file.py:97-106 | a key that is not a string, or is blank, is an error. A null body reads as `{}`. A truthy `owners` that is not a list is an error |
| ServicesFile.ServiceFields | src/serviceowners/services_file.py:99-121 | a parsed service's owners are its `owners` list read by `from_obj` (none when falsy); its contact, dashboards and tags are read from their keys; its other fields are the values given |
| ServicesFile.BadOwnerFailsService | src/serviceowners/services_file.py:104-108 | the first owner entry `from_obj` rejects fails the whole service with that entry's error |
| ServicesFile.EmptyServiceBody | src/serviceowners/services_file.py:99-121 | a service with an empty body has no owners, an empty contact and empty lists |
| CliInit.Segments | src/serviceowners/cli.py:191-197 | a string is a segment exactly when it is a non-empty `/` piece of the prepared pattern; no segment holds `/` |
| CliInit.Literals | src/serviceowners/cli.py:202-205 | a segment is kept exactly when it is in the input and holds none of `*?[]` |
| CliInit.LiteralsAppend | src/serviceowners/cli.py:205 | the literals keep segment order: the literals of `a + b` are those of `a` followed by those of `b` |
| CliInit.LiteralsLast | src/serviceowners/cli.py:205-209 | the last literal is a literal segment after which no literal segment follows |
| CliInit.InferFromPatternSpec | src/serviceowners/cli.py:189-213 | no guess without segments or without a literal segment; otherwise the guess is that of the last literal segment: it stripped and lower-cased, or none when that is empty (as for `a/ /*`). A guess is non-empty, lower-case, free of glob characters and `/`, and does not end in whitespace |
| CliInit.InferFromOwnerSpec | src/serviceowners/cli.py:216-225 | no guess for a blank owner; a guess is non-empty, does not end in whitespace, and has no `-` and no capitals |
| CliInit.TeamOwner | src/serviceowners/cli.py:216-225 | `@org/team-name` yields `team_name`, lower-cased |
| CliInit.SlashOwner | src/serviceowners/cli.py:216-225 | `org/team-name`, without `@`, yields what follows the first `/` with `_` for `-`, lower-cased |
| CliInit.AtOwner | src/serviceowners/cli.py:216-225 | `@team-x`, without `/`, yields `team_x`, lower-cased |
| CliInit.PlainOwner | src/serviceowners/cli.py:216-225 | an owner such as `alice-b`, without `@` and `/`, yields `alice_b`, lower-cased |
| CliInit.CmdInitText | src/serviceowners/cli.py:234-252 | the loop that builds `lines_out` and the final join compute `InitText(txt)` |
| CliInit.InitRowShape | src/serviceowners/cli.py:238-250 | blank and `#` lines yield no row; a row is the first column, a tab and the inferred service, which is non-empty and does not end in whitespace |
| CliInit.InitRowsMembers | src/serviceowners/cli.py:238-250 | a row is in the output exactly when some input line yields it |
| CliInit.InitRowsAppend | src/serviceowners/cli.py:238-250 | the rows of two concatenated texts are the rows of the first followed by those of the second |
| CliInit.ServiceEndsSolid | src/serviceowners/cli.py:249 | the chosen service (from the pattern, the owner or the `service` fallback) is non-empty and does not end in whitespace |
| CliInit.RowsEndSolid | src/serviceowners/cli.py:250 | every row ends in a non-blank character |
| CliInit.InitTextShape | src/serviceowners/cli.py:235-252 | the text starts with the two header lines, each ended by a newline, and ends with exactly one newline |
| RustLib.NormalizePattern | src/lib.rs:130-165 | the step-by-step mutation of `s` computes `NormalizedPattern(pat)` |
| RustLib.NormalizedPatternShape | src/lib.rs:130-165 | the result is empty exactly for blank input. It is `**` exactly when what is left after stripping is `/`. A non-empty result contains `/` or is `**`, and no backslash is left |
| RustLib.AnchoredCases | src/lib.rs:150-164 | a trailing `/` becomes `/**`; a pattern without `/` gets a `**/` prefix; a pattern with an inner `/` and no trailing one is kept |
| RustLib.AgreesWithPython | src/lib.rs:130-165 | for a pattern with an inner `/`, no trailing `/` and the same blanks in both languages, the Rust and Python normalisers agree |
| RustLib.NoSlashDiffers | src/lib.rs:159-164 | a plain name without `/` becomes `**/name` in Rust; Python keeps `name` and anchors it as a basename |
| RustLib.TrailingSlashesDiffer | src/lib.rs:150-157 | `dir//` becomes `dir//**` in Rust (one slash popped) but `dir/**` in Python (all trailing slashes stripped) |
| RustLib.RootDiffers | src/lib.rs:151-154 | `//` becomes `**` in Rust while Python normalises it to `/**` |
| RustLib.Collect | src/lib.rs:96-106 | on success the three mapper vectors have the same length, at most one entry per line |
| RustLib.Parse | src/lib.rs:61-107 | the parse loop, with its early returns, computes `Parsed(content, compiles)` |
| RustLib.CollectKeepsRules | src/lib.rs:96-98 | the mapper's i-th glob, service and pattern are those of the i-th rule line, in order |
| RustLib.RulesMembers | src/lib.rs:96-98 | a rule is in the mapper exactly when some line adds it |
| RustLib.CollectFirstReject | src/lib.rs:66-94 | parsing fails exactly when some line is rejected, and the error is the first rejected line's |
| RustLib.LineOutcomeCases | src/lib.rs:67-80 | blank and `#` lines are skipped; a one-column line is rejected with its 1-based number; every rejection carries that line number |
| RustLib.RuleLineShape | src/lib.rs:73-84 | an added rule's pattern is one whitespace-free word; its service is non-empty and trimmed; its glob is the normalised pattern |
| RustLib.MatchIndices | src/lib.rs:110 | the matching glob indices are in range, all match, and are strictly increasing |
| RustLib.MatchIndicesComplete | src/lib.rs:110 | every glob that matches has its index listed |
| RustLib.FindServiceLastMatch | src/lib.rs:109-115 | none exactly when no glob matches; otherwise the service of the highest matching index |
| RustLib.ExplainService | src/lib.rs:117-127 | the loop computes `Explained`: one entry per matching glob, in index order |
| RustLib.ExplainedAgreesWithFind | src/lib.rs:109-127 | the explanation is empty exactly when `find_service` finds nothing, and its last entry names the service `find_service` returns. Every entry is the service and pattern of a matching glob |
| RustLib.PatternSegments | src/lib.rs:196-197 | the segments of the slash-trimmed pattern hold no `/` |
| RustLib.Candidates | src/lib.rs:199-205 | a segment is a candidate exactly when it is one of the pattern's segments and not `*`, `**`, `src`, `lib`, `packages` or `apps` |
| RustLib.CandidatesAppend | src/lib.rs:199-205 | the candidates keep segment order: those of `a + b` are those of `a` followed by those of `b` |
| RustLib.CandidatesLast | src/lib.rs:199-207 | the last candidate is a segment after which only excluded segments follow |
| RustLib.Sanitized | src/lib.rs:208 | same length; each ASCII letter or digit is kept and every other character becomes `_` |
| RustLib.InferServiceNameSpec | src/lib.rs:195-223 | a non-empty last candidate is sanitised and lower-cased, giving a lower-case identifier; without candidates, or when the last candidate is the empty segment (as for `a//*`), the name is the one the owners give, or `unknown_service` |
| RustLib.SanitizedLowerIdent | src/lib.rs:208-210 | a non-empty segment becomes a non-empty lower-case identifier |
| RustLib.EmptyPatternFallsBack | src/lib.rs:214-222 | for the empty pattern, whose one candidate is the empty segment, the first owner decides, and without owners the name is `unknown_service` |
| RustLib.TeamOwnerName | src/lib.rs:215-217 | `@org/team` yields the part after the first `/` |
| RustLib.OwnerFallbackShape | src/lib.rs:217-219 | a name from the owner has no `-` and no capitals |
| RustLib.Padded | src/lib.rs:190 | `{:<20}`: the pattern, padded on the right with spaces to at least 20 characters |
| RustLib.InitFromCodeowners | src/lib.rs:168-193 | the header and the per-line loop compute `InitText(content)` |
| RustLib.InitLineShape | src/lib.rs:176-190 | blank, `#` and one-word lines yield nothing; otherwise one row: the padded pattern, a space and the inferred service, ending in a newline and with no other newline |
| RustLib.RowShape | src/lib.rs:190 | for whitespace-free words, the row is a single line |
| RustLib.ServiceNoNewline | src/lib.rs:195-223 | the inferred service name never contains a newline |

## Left out

- Reading files and the network are left out: `load_serviceowners`, `load_services`, `ServiceMapper::from_file`, and the reading and writing in `cmd_init` and `init_from_codeowners`. Each modelled operation takes the file's text, or the loaded YAML value, as a parameter.
- `errors.py`, `gitutils.py`, `markdown.py`, `github_api.py`, `action_runner.py`, `main.rs` and the rest of `cli.py` are not part of this model. `git ls-files` becomes the `tracked` parameter of the lint functions: a list of files, or the git error.
- Error, issue and hint message texts are left out. Errors and issues are datatypes carrying their code, file, line and the data that identifies them.
- `Path.relative_to` in `normalize_repo_path` is the function parameter `relativeTo`. When it returns none, that stands for the swallowed exception.
- `lru_cache` on `compile_pattern` is left out, because it does not change results.
- Python regex reads some `[]` classes together with the fragments after them as a larger class: `[]*` becomes `[][^/]*`, one class ending at the second `]`, and `[!]*` likewise. Python accepts such patterns; they are modelled as invalid classes.
- Python's `.` and `$` treat a newline in the path specially. Paths holding a newline are not modelled.
- `globset` (`GlobBuilder::build` and `GlobSet::matches`) is modelled by the parameters `compiles` and `matches`, not as glob semantics. `GlobSetBuilder::build` failing after each glob has built is not modelled. The indices `GlobSet::matches` returns are modelled as strictly increasing (`RustLib.MatchIndices` states it); any other order `globset` might use is not modelled. `find_service` takes the largest index, which does not depend on the order, and `explain_service` lists its entries in that order.
- `normalize_pattern` always returns `Ok` in the source, so it is modelled as returning a plain string.
- `lint_rules` may list tracked files twice, once per git check. The model gives both checks the same `tracked` result.
- The services table is a list of key/value pairs, in document order. YAML duplicate-key handling is left out. A loaded mapping has unique keys, so `Get`'s choice of the first entry with the key matters only for documents the loader would not produce.
- `ServicesFile.ParseServicesObj` returns the services as a list in table order rather than a dict. The keys of a YAML mapping are distinct, so this loses nothing.
- The Rust `ServicesFile`, `ServiceDef`, `Owner` and `Contact` serde types are left out. No modelled operation of `lib.rs` uses them.
- Letter case and `is_alphanumeric` cover ASCII only. `str.lower`, `to_lowercase` and Rust's `char::is_alphanumeric` are modelled on ASCII letters and digits. Other characters are left unchanged by lower-casing and count as non-alphanumeric.
- Impact.ImpactReport.ImpactedServices: a ghost function. The sorted list of keys is chosen from the key set and proved sorted and complete, not computed.
- The `services_to_files` and `overlaps` dicts of `compute_impact` are maps, so their insertion order is not modelled. The report sorts every bucket, and the markdown and JSON renderers are not part of this model.
- Impact.ImpactReport.TotalFiles: a ghost function, because it sums over the keys in that same chosen order.
