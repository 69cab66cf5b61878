/** The path clean-up of src/serviceowners/paths.py, applied to every path
    before it is matched: backslashes become `/`, surrounding blanks and one
    pair of quotes go, leading `./` and one `/` are dropped, and the rest is
    read as a POSIX path. */
module Paths {
  import opened Wrappers
  import opened Strings
  import opened Patterns

  /** `to_posix`. */
  function ToPosix(path: string): string {
    ReplaceChar(path, '\\', '/')
  }

  /** `to_posix` leaves no backslash: each one becomes `/`, and every other
      character stays where it is. */
  lemma {:induction false} ToPosixSlashes(path: string)
    ensures '\\' !in ToPosix(path)
    ensures |ToPosix(path)| == |path|
    ensures forall k :: 0 <= k < |path| ==> ToPosix(path)[k] == if path[k] == '\\' then '/' else path[k]
  {
    ReplaceCharRemoves(path, '\\', '/');
  }

  // ---------------------------------------------------------------------------
  // Quotes
  // ---------------------------------------------------------------------------

  /** `p` starts and ends with `"`, or starts and ends with `'`. */
  predicate Quoted(p: string) {
    p != [] && ((p[0] == '"' && p[|p| - 1] == '"') || (p[0] == '\'' && p[|p| - 1] == '\''))
  }

  /** `p[1:-1]` when `p` is quoted; a lone quote character leaves `""`. */
  function StripQuotes(p: string): string {
    if Quoted(p) then (if |p| >= 2 then p[1..|p| - 1] else []) else p
  }

  /** Exactly one pair of matching quotes is removed. */
  lemma {:induction false} QuotesOnce(x: string, q: char)
    requires q == '"' || q == '\''
    ensures StripQuotes([q] + x + [q]) == x
    ensures StripQuotes([q] + [q] + x + [q] + [q]) == [q] + x + [q]
  {
    var p := [q] + x + [q];
    assert p[1..|p| - 1] == x;
    var pp := [q] + [q] + x + [q] + [q];
    assert pp[1..|pp| - 1] == [q] + x + [q];
  }

  /** Quotes that do not match are kept. */
  lemma {:induction false} MismatchedQuotesKept(x: string)
    ensures StripQuotes(['"'] + x + ['\'']) == ['"'] + x + ['\'']
    ensures StripQuotes(['\''] + x + ['"']) == ['\''] + x + ['"']
  {
  }

  // ---------------------------------------------------------------------------
  // Relativisation
  // ---------------------------------------------------------------------------

  /** `str(Path(p).relative_to(repo_root))` for an absolute `p`, when a
      repository root is given: `relativeTo` stands for that library call,
      `None` in its result for the exception the source swallows. */
  function Relativized(p: string, relativeTo: Option<string -> Option<string>>): string {
    if relativeTo.Some? && SlashFirst(p) then
      match relativeTo.value(p)
      case Some(q) => q
      case None => p
    else p
  }

  /** A relative path is never relativised. */
  lemma {:induction false} RelativeUntouched(p: string, relativeTo: Option<string -> Option<string>>)
    requires !SlashFirst(p)
    ensures Relativized(p, relativeTo) == p
  {
  }

  // ---------------------------------------------------------------------------
  // `PurePosixPath`
  // ---------------------------------------------------------------------------

  /** The root `PurePosixPath` keeps: exactly two leading slashes stay two,
      one or three and more become one. */
  function PosixRoot(p: string): string {
    if |p| >= 2 && p[0] == '/' && p[1] == '/' && !(|p| >= 3 && p[2] == '/') then "//"
    else if p != [] && p[0] == '/' then "/"
    else ""
  }

  /** A segment that `PurePosixPath` keeps: not empty and not `.`. */
  predicate KeepPart(s: string) {
    s != [] && s != "."
  }

  /** The kept segments, in order. */
  function Kept(parts: seq<string>): (ks: seq<string>)
    ensures forall x {:trigger x in ks} :: x in ks <==> x in parts && KeepPart(x)
    decreases |parts|
  {
    if parts == [] then []
    else
      var n := |parts| - 1;
      assert parts == parts[..n] + [parts[n]];
      Kept(parts[..n]) + (if KeepPart(parts[n]) then [parts[n]] else [])
  }

  /** The segments of the path: every `/` piece that is neither empty nor
      `.`, in order (KeptAppend). */
  function PosixParts(p: string): (ps: seq<string>)
    ensures forall x :: x in ps <==> x in SplitOn(p, '/') && KeepPart(x)
    ensures forall i :: 0 <= i < |ps| ==> KeepPart(ps[i]) && '/' !in ps[i]
  {
    var parts := SplitOn(p, '/');
    assert forall x :: x in parts ==> '/' !in x;
    var ps := Kept(parts);
    assert forall i :: 0 <= i < |ps| ==> ps[i] in parts by {
      forall i | 0 <= i < |ps| ensures ps[i] in parts {
        assert ps[i] in ps;
      }
    }
    ps
  }

  /** `str(PurePosixPath(p))`: the root and the kept segments joined by `/`,
      or `.` when both are empty. */
  function PosixStr(p: string): string {
    var root, parts := PosixRoot(p), PosixParts(p);
    if root == [] && parts == [] then "." else root + JoinWith(parts, '/')
  }

  // ---------------------------------------------------------------------------
  // `normalize_repo_path` and `normalize_paths`
  // ---------------------------------------------------------------------------

  /** The path once blanks, quotes and backslashes are dealt with and it is
      relativised. */
  function Unquoted(path: string, relativeTo: Option<string -> Option<string>>): string {
    Relativized(StripQuotes(PyStrip(ToPosix(path))), relativeTo)
  }

  /** The path handed to `PurePosixPath`: without its leading `./`s and one `/`. */
  function Cleaned(path: string, relativeTo: Option<string -> Option<string>>): string {
    StripOneSlash(StripDotSlash(Unquoted(path, relativeTo)))
  }

  /** What `normalize_repo_path` returns. */
  function NormalizedRepoPath(path: string, relativeTo: Option<string -> Option<string>>): string {
    PosixStr(Cleaned(path, relativeTo))
  }

  /** `normalize_repo_path`, reassigning `p` step by step. */
  method NormalizeRepoPath(path: string, relativeTo: Option<string -> Option<string>>) returns (r: string)
    ensures r == NormalizedRepoPath(path, relativeTo)
  {
    var p := PyStrip(ToPosix(path));
    if Quoted(p) {
      p := if |p| >= 2 then p[1..|p| - 1] else [];
    }
    if relativeTo.Some? && SlashFirst(p) {
      var rel := relativeTo.value(p);
      if rel.Some? {
        p := rel.value;
      }
    }
    assert p == Unquoted(path, relativeTo);
    ghost var before := p;
    while DotSlashFirst(p)
      invariant StripDotSlash(p) == StripDotSlash(before)
      decreases |p|
    {
      p := p[2..];
    }
    if SlashFirst(p) {
      p := p[1..];
    }
    assert p == Cleaned(path, relativeTo);
    r := PosixStr(p);
  }

  /** The entries `p and p.strip()` keeps, in order. */
  function NonBlank(paths: seq<string>): (kept: seq<string>)
    ensures |kept| <= |paths|
    decreases |paths|
  {
    if paths == [] then []
    else
      var n := |paths| - 1;
      NonBlank(paths[..n]) + (if paths[n] != [] && PyStrip(paths[n]) != [] then [paths[n]] else [])
  }

  /** `normalize_paths`. */
  function NormalizePaths(paths: seq<string>, relativeTo: Option<string -> Option<string>>): (r: seq<string>)
    ensures |r| == |NonBlank(paths)|
  {
    var kept := NonBlank(paths);
    seq(|kept|, i requires 0 <= i < |kept| => NormalizedRepoPath(kept[i], relativeTo))
  }

  /** `normalize_paths` keeps exactly the entries that are not blank. */
  lemma {:induction false} NonBlankMembers(paths: seq<string>, x: string)
    ensures x in NonBlank(paths) <==> x in paths && PyStrip(x) != []
    decreases |paths|
  {
    if paths != [] {
      var n := |paths| - 1;
      NonBlankMembers(paths[..n], x);
      assert paths == paths[..n] + [paths[n]];
      assert x in paths <==> x in paths[..n] || x == paths[n];
      if x == [] {
        assert PyStrip(x) == [];
      }
    }
  }

  /** `normalize_paths` keeps the entries' order: the entries kept from a
      list followed by more entries are those of the list, then of the rest. */
  lemma {:induction false} NonBlankAppend(a: seq<string>, b: seq<string>)
    ensures NonBlank(a + b) == NonBlank(a) + NonBlank(b)
    decreases |b|
  {
    if b == [] {
      assert a + b == a;
    } else {
      var n := |b| - 1;
      assert (a + b)[..|a + b| - 1] == a + b[..n];
      NonBlankAppend(a, b[..n]);
    }
  }

  /** Every result of `normalize_paths` is the normalisation of the kept
      entry at the same position. */
  lemma {:induction false} NormalizePathsEach(paths: seq<string>, relativeTo: Option<string -> Option<string>>, i: int)
    requires 0 <= i < |NonBlank(paths)|
    ensures NormalizePaths(paths, relativeTo)[i] == NormalizedRepoPath(NonBlank(paths)[i], relativeTo)
  {
  }

  // ---------------------------------------------------------------------------
  // Properties
  // ---------------------------------------------------------------------------

  /** Every leading `./` goes, however many there are. */
  lemma {:induction false} DotSlashRunsGo(k: nat, x: string)
    ensures StripDotSlash(DotSlashes(k) + x) == StripDotSlash(x)
    ensures !DotSlashFirst(StripDotSlash(x))
    decreases k
  {
    if k > 0 {
      var s := DotSlashes(k) + x;
      assert s == "./" + (DotSlashes(k - 1) + x);
      assert DotSlashFirst(s);
      assert s[2..] == DotSlashes(k - 1) + x;
      assert StripDotSlash(s) == StripDotSlash(s[2..]);
      DotSlashRunsGo(k - 1, x);
    } else {
      assert DotSlashes(k) + x == x;
    }
  }

  /** `k` copies of `./`. */
  function DotSlashes(k: nat): (s: string)
    ensures |s| == 2 * k
  {
    if k == 0 then [] else "./" + DotSlashes(k - 1)
  }

  /** A clean relative path, such as one whose first segment is a dotfile
      directory like `.github`, is returned unchanged. */
  lemma {:induction false} CleanPathUnchanged(p: string, relativeTo: Option<string -> Option<string>>)
    requires '\\' !in p && PyStrip(p) == p && !Quoted(p)
    requires !DotSlashFirst(p) && !SlashFirst(p)
    requires forall i :: 0 <= i < |SplitOn(p, '/')| ==> KeepPart(SplitOn(p, '/')[i])
    ensures NormalizedRepoPath(p, relativeTo) == p
  {
    CleanedSame(p, relativeTo);
    PosixStrClean(p);
  }

  lemma {:induction false} CleanedSame(p: string, relativeTo: Option<string -> Option<string>>)
    requires '\\' !in p && PyStrip(p) == p && !Quoted(p)
    requires !DotSlashFirst(p) && !SlashFirst(p)
    ensures Cleaned(p, relativeTo) == p
  {
    ReplaceCharSame(p, '\\', '/');
    assert ToPosix(p) == p;
    assert Unquoted(p, relativeTo) == p;
  }

  /** A path with no root and only kept segments reads as itself. */
  lemma {:induction false} PosixStrClean(p: string)
    requires !SlashFirst(p)
    requires forall i :: 0 <= i < |SplitOn(p, '/')| ==> KeepPart(SplitOn(p, '/')[i])
    ensures PosixStr(p) == p
  {
    var parts := SplitOn(p, '/');
    KeptAll(parts);
    assert PosixParts(p) == parts && parts != [];
    assert PosixRoot(p) == "";
    assert PosixStr(p) == JoinWith(parts, '/');
    SplitOnJoin(p, '/');
  }

  lemma {:induction false} ReplaceCharSame(s: string, from: char, to: char)
    requires from !in s
    ensures ReplaceChar(s, from, to) == s
  {
    var r := ReplaceChar(s, from, to);
    assert forall k :: 0 <= k < |s| ==> r[k] == s[k];
  }

  lemma {:induction false} KeptAll(parts: seq<string>)
    requires forall i :: 0 <= i < |parts| ==> KeepPart(parts[i])
    ensures Kept(parts) == parts
    decreases |parts|
  {
    if parts != [] {
      var n := |parts| - 1;
      KeptAll(parts[..n]);
      assert parts == parts[..n] + [parts[n]];
    }
  }

  lemma {:induction false} KeptAppend(a: seq<string>, b: seq<string>)
    ensures Kept(a + b) == Kept(a) + Kept(b)
    decreases |b|
  {
    if b == [] {
      assert a + b == a;
    } else {
      var n := |b| - 1;
      assert (a + b)[..|a + b| - 1] == a + b[..n];
      KeptAppend(a, b[..n]);
    }
  }

  /** Reading a path as a POSIX path twice changes nothing more. */
  lemma {:induction false} PosixStrIdempotent(p: string)
    ensures PosixStr(PosixStr(p)) == PosixStr(p)
  {
    var root, parts := PosixRoot(p), PosixParts(p);
    if root == [] && parts == [] {
      DotAlone();
    } else {
      RootAndJoin(root, parts);
    }
  }

  /** `.` reads as itself. */
  lemma DotAlone()
    ensures PosixRoot(".") == [] && PosixParts(".") == []
  {
    IndexOfMissing(".", '/');
    assert SplitOn(".", '/') == ["."];
  }

  /** A root followed by clean segments reads back as that root and those
      segments. */
  lemma {:induction false} RootAndJoin(root: string, parts: seq<string>)
    requires root == "" || root == "/" || root == "//"
    requires root != [] || parts != []
    requires forall i :: 0 <= i < |parts| ==> KeepPart(parts[i]) && '/' !in parts[i]
    ensures PosixRoot(root + JoinWith(parts, '/')) == root
    ensures PosixParts(root + JoinWith(parts, '/')) == parts
  {
    var j := JoinWith(parts, '/');
    if parts != [] {
      JoinStartsWith(parts, '/');
      JoinSplit(parts, '/');
      KeptAll(parts);
    } else {
      EmptySplit('/');
    }
    RootOf(root, j);
    SplitAfterRoot(root, j);
    KeptAfterRoot(root, SplitOn(j, '/'));
  }

  /** The segments of the root itself: none, one empty, or two empty. */
  function RootPieces(root: string): seq<string> {
    if root == "/" then [""] else if root == "//" then ["", ""] else []
  }

  lemma RootOf(root: string, j: string)
    requires root == "" || root == "/" || root == "//"
    requires root != [] || j != []
    requires j == [] || j[0] != '/'
    ensures PosixRoot(root + j) == root
  {
    if root == "//" {
      assert (root + j)[0] == '/' && (root + j)[1] == '/';
    } else if root == "/" {
      assert (root + j)[0] == '/';
    }
  }

  lemma SplitAfterRoot(root: string, j: string)
    requires root == "" || root == "/" || root == "//"
    ensures SplitOn(root + j, '/') == RootPieces(root) + SplitOn(j, '/')
  {
    if root == "/" {
      assert root + j == ['/'] + j;
      SplitOnSepFirst(j, '/');
    } else if root == "//" {
      assert root + j == ['/'] + (['/'] + j);
      SplitOnSepFirst(['/'] + j, '/');
      SplitOnSepFirst(j, '/');
    } else {
      assert root + j == j;
    }
  }

  lemma KeptAfterRoot(root: string, xs: seq<string>)
    requires root == "" || root == "/" || root == "//"
    ensures Kept(RootPieces(root) + xs) == Kept(xs)
  {
    KeptAppend(RootPieces(root), xs);
    if root == "/" {
      assert [""][..0] == [];
    } else if root == "//" {
      assert ["", ""][..1] == [""];
      assert [""][..0] == [];
    } else {
      assert RootPieces(root) + xs == xs;
    }
  }

  lemma EmptySplit(c: char)
    ensures SplitOn([], c) == [[]] && Kept([[]]) == [] && JoinWith([], c) == []
  {
    var e: seq<string> := [[]];
    assert e[..0] == [];
  }

  lemma {:induction false} JoinStartsWith(parts: seq<string>, c: char)
    requires parts != [] && parts[0] != [] && c !in parts[0]
    ensures JoinWith(parts, c) != [] && JoinWith(parts, c)[0] == parts[0][0]
  {
  }

  lemma {:induction false} SplitOnSepFirst(s: string, c: char)
    ensures SplitOn([c] + s, c) == [""] + SplitOn(s, c)
  {
    assert IndexOf([c] + s, c) == 0;
    assert ([c] + s)[1..] == s;
  }

  lemma {:induction false} IndexOfMissing(a: string, c: char)
    requires c !in a
    ensures IndexOf(a, c) == |a|
    decreases |a|
  {
    if a != [] {
      IndexOfMissing(a[1..], c);
    }
  }

  /** Joining segments free of `c` and splitting at `c` gives them back. */
  lemma {:induction false} JoinSplit(parts: seq<string>, c: char)
    requires parts != [] && forall i :: 0 <= i < |parts| ==> c !in parts[i]
    ensures SplitOn(JoinWith(parts, c), c) == parts
    decreases |parts|
  {
    if |parts| == 1 {
      IndexOfMissing(parts[0], c);
    } else {
      var rest := JoinWith(parts[1..], c);
      assert JoinWith(parts, c) == parts[0] + [c] + rest;
      SplitOnAt(parts[0], c, rest);
      JoinSplit(parts[1..], c);
      assert parts == [parts[0]] + parts[1..];
    }
  }

  lemma {:induction false} SplitOnAt(a: string, c: char, b: string)
    requires c !in a
    ensures SplitOn(a + [c] + b, c) == [a] + SplitOn(b, c)
  {
    var s := a + [c] + b;
    IndexOfAfter(a, c, b);
    assert s[..|a|] == a;
    assert s[|a| + 1..] == b;
  }
}
