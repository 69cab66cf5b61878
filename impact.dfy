/** The impact analyser of src/serviceowners/impact.py: each changed path goes
    to the bucket of the service that owns it or to the unmapped list, paths
    with several candidate rules are recorded as overlaps, and every list is
    finally sorted and deduplicated. */
module Impact {
  import opened Wrappers
  import opened StringOrder
  import opened ServiceownersFile
  import opened Ownership
  import opened Strings
  import opened Patterns

  /** `ImpactReport`. Dictionaries are maps: the report's meaning does not
      depend on their insertion order. */
  datatype ImpactReport = ImpactReport(
    servicesToFiles: map<string, seq<string>>,
    unmappedFiles: seq<string>,
    overlaps: map<string, seq<string>>)
  {
    /** `impacted_services`: the services with a bucket, sorted. */
    ghost function ImpactedServices(): (r: seq<string>)
      ensures StrictlySorted(r)
      ensures forall s :: s in r <==> s in servicesToFiles
    {
      SortDedup(SetToSeq(servicesToFiles.Keys))
    }

    /** `file_count_for`: the size of a service's bucket, 0 without one. */
    function FileCountFor(service: string): nat {
      if service in servicesToFiles then |servicesToFiles[service]| else 0
    }

    /** `total_files`: the bucket sizes added up, plus the unmapped files. */
    ghost function TotalFiles(): nat {
      SumSizes(servicesToFiles, ImpactedServices()) + |unmappedFiles|
    }
  }

  /** The elements of a finite set, in some order. */
  ghost function SetToSeq(s: set<string>): (r: seq<string>)
    ensures forall x :: x in r <==> x in s
    decreases |s|
  {
    if s == {} then []
    else
      var x :| x in s;
      [x] + SetToSeq(s - {x})
  }

  /** The sizes of the buckets of the services `ks`, added up. */
  function SumSizes(m: map<string, seq<string>>, ks: seq<string>): nat
    decreases |ks|
  {
    if ks == [] then 0
    else SumSizes(m, ks[..|ks| - 1]) + (if ks[|ks| - 1] in m then |m[ks[|ks| - 1]]| else 0)
  }

  /** The report of the loop of `compute_impact` before its final sorting
      step, after the paths `changed` in turn. */
  function Gather(rules: seq<Rule>, changed: seq<string>): ImpactReport
    decreases |changed|
  {
    if changed == [] then ImpactReport(map[], [], map[])
    else
      var path := changed[|changed| - 1];
      Record(Gather(rules, changed[..|changed| - 1]), path, MatchOf(rules, path))
  }

  /** One pass of the loop: `path`, whose match is `m`, goes to the unmapped
      list or to its service's bucket, and to the overlaps when it has several
      candidates. */
  function Record(t: ImpactReport, path: string, m: Match): ImpactReport {
    if m.Service().None? then t.(unmappedFiles := t.unmappedFiles + [path])
    else
      var svc := m.Service().value;
      var bucket := if svc in t.servicesToFiles then t.servicesToFiles[svc] else [];
      t.(servicesToFiles := t.servicesToFiles[svc := bucket + [path]],
         overlaps := if |m.matches| > 1 then t.overlaps[path := ServicesOf(m.matches)] else t.overlaps)
  }

  /** Every bucket sorted and deduplicated. */
  function SortBuckets(b: map<string, seq<string>>): (r: map<string, seq<string>>)
    ensures r.Keys == b.Keys
  {
    map svc | svc in b :: SortDedup(b[svc])
  }

  /** `compute_impact` over an index holding `rules`. */
  function Impact(rules: seq<Rule>, changed: seq<string>): ImpactReport {
    var t := Gather(rules, changed);
    ImpactReport(SortBuckets(t.servicesToFiles), SortDedup(t.unmappedFiles), t.overlaps)
  }

  /** `compute_impact`: one pass over the changed paths filling the buckets,
      then one pass over the buckets sorting each. */
  method ComputeImpact(index: OwnershipIndex, changed: seq<string>) returns (report: ImpactReport)
    ensures report == Impact(index.rules, changed)
  {
    var servicesToFiles: map<string, seq<string>> := map[];
    var unmapped: seq<string> := [];
    var overlaps: map<string, seq<string>> := map[];
    for i := 0 to |changed|
      invariant ImpactReport(servicesToFiles, unmapped, overlaps) == Gather(index.rules, changed[..i])
    {
      var path := changed[i];
      var m := index.Match(path);
      GatherStep(index.rules, changed, i);
      if m.Service().None? {
        unmapped := unmapped + [path];
        continue;
      }
      var svc := m.Service().value;
      var bucket := if svc in servicesToFiles then servicesToFiles[svc] else [];
      servicesToFiles := servicesToFiles[svc := bucket + [path]];
      if |m.matches| > 1 {
        overlaps := overlaps[path := ServicesOf(m.matches)];
      }
    }
    assert changed[..|changed|] == changed;
    servicesToFiles := SortEachBucket(servicesToFiles);
    unmapped := SortDedup(unmapped);
    report := ImpactReport(servicesToFiles, unmapped, overlaps);
  }

  lemma {:induction false} GatherStep(rules: seq<Rule>, changed: seq<string>, i: nat)
    requires i < |changed|
    ensures Gather(rules, changed[..i + 1]) == Record(Gather(rules, changed[..i]), changed[i], MatchOf(rules, changed[i]))
  {
    assert changed[..i + 1][..i] == changed[..i];
  }

  /** The loop of `compute_impact` that replaces each bucket by its sorted,
      deduplicated form. */
  method SortEachBucket(b: map<string, seq<string>>) returns (r: map<string, seq<string>>)
    ensures r == SortBuckets(b)
  {
    r := b;
    var todo := b.Keys;
    while todo != {}
      invariant todo <= b.Keys && r.Keys == b.Keys
      invariant forall svc :: svc in b ==> r[svc] == if svc in todo then b[svc] else SortDedup(b[svc])
      decreases |todo|
    {
      var svc :| svc in todo;
      r := r[svc := SortDedup(r[svc])];
      todo := todo - {svc};
    }
  }

  // ---------------------------------------------------------------------------
  // Where each path goes
  // ---------------------------------------------------------------------------

  /** `path` is in the bucket of `svc`. */
  predicate InBucket(b: map<string, seq<string>>, svc: string, path: string) {
    svc in b && path in b[svc]
  }

  /** The owner `MatchOf` resolves for `path`. */
  function OwnerOf(rules: seq<Rule>, path: string): Option<string> {
    MatchOf(rules, path).Service()
  }

  lemma {:induction false} GatherUnmapped(rules: seq<Rule>, changed: seq<string>, path: string)
    ensures path in Gather(rules, changed).unmappedFiles <==> path in changed && OwnerOf(rules, path).None?
    decreases |changed|
  {
    if changed != [] {
      var n := |changed| - 1;
      GatherUnmapped(rules, changed[..n], path);
      RecordUnmapped(Gather(rules, changed[..n]), changed[n], MatchOf(rules, changed[n]), path);
      assert changed == changed[..n] + [changed[n]];
    }
  }

  lemma {:induction false} GatherBucket(rules: seq<Rule>, changed: seq<string>, svc: string, path: string)
    ensures InBucket(Gather(rules, changed).servicesToFiles, svc, path) <==>
            path in changed && OwnerOf(rules, path) == Some(svc)
    decreases |changed|
  {
    if changed != [] {
      var n := |changed| - 1;
      GatherBucket(rules, changed[..n], svc, path);
      RecordBucket(Gather(rules, changed[..n]), changed[n], MatchOf(rules, changed[n]), svc, path);
      assert changed == changed[..n] + [changed[n]];
    }
  }

  /** One pass of the loop adds `p` to the bucket of its owner and changes no
      other membership. */
  lemma {:induction false} RecordBucket(t: ImpactReport, p: string, m: Match, svc: string, path: string)
    ensures InBucket(Record(t, p, m).servicesToFiles, svc, path) <==>
            InBucket(t.servicesToFiles, svc, path) || (path == p && m.Service() == Some(svc))
  {
  }

  lemma {:induction false} GatherNonEmpty(rules: seq<Rule>, changed: seq<string>, svc: string)
    requires svc in Gather(rules, changed).servicesToFiles
    ensures Gather(rules, changed).servicesToFiles[svc] != []
    decreases |changed|
  {
    var n := |changed| - 1;
    var t := Gather(rules, changed[..n]);
    if svc in t.servicesToFiles {
      GatherNonEmpty(rules, changed[..n], svc);
    }
  }

  lemma {:induction false} GatherOverlapKeys(rules: seq<Rule>, changed: seq<string>, path: string)
    ensures path in Gather(rules, changed).overlaps <==>
            path in changed && OwnerOf(rules, path).Some? && |MatchOf(rules, path).matches| > 1
    decreases |changed|
  {
    if changed != [] {
      var n := |changed| - 1;
      GatherOverlapKeys(rules, changed[..n], path);
      RecordOverlap(Gather(rules, changed[..n]), changed[n], MatchOf(rules, changed[n]), path);
      assert changed == changed[..n] + [changed[n]];
    }
  }

  lemma {:induction false} RecordUnmapped(t: ImpactReport, p: string, m: Match, path: string)
    ensures path in Record(t, p, m).unmappedFiles <==> path in t.unmappedFiles || (path == p && m.Service().None?)
  {
  }

  lemma {:induction false} RecordOverlap(t: ImpactReport, p: string, m: Match, path: string)
    ensures path in Record(t, p, m).overlaps <==>
            path in t.overlaps || (path == p && m.Service().Some? && |m.matches| > 1)
  {
  }

  lemma {:induction false} GatherOverlapValues(rules: seq<Rule>, changed: seq<string>, path: string)
    requires path in Gather(rules, changed).overlaps
    ensures Gather(rules, changed).overlaps[path] == ServicesOf(MatchOf(rules, path).matches)
    decreases |changed|
  {
    var n := |changed| - 1;
    if changed[n] != path || OwnerOf(rules, path).None? || |MatchOf(rules, path).matches| <= 1 {
      GatherOverlapValues(rules, changed[..n], path);
    }
  }

  lemma {:induction false} GatherOverlaps(rules: seq<Rule>, changed: seq<string>, path: string)
    ensures var o := Gather(rules, changed).overlaps;
      && (path in o <==> path in changed && OwnerOf(rules, path).Some? && |MatchOf(rules, path).matches| > 1)
      && (path in o ==> o[path] == ServicesOf(MatchOf(rules, path).matches))
  {
    GatherOverlapKeys(rules, changed, path);
    if path in Gather(rules, changed).overlaps {
      GatherOverlapValues(rules, changed, path);
    }
  }

  /** Every changed path is unmapped exactly when no rule owns it, and in the
      bucket of a service exactly when that service owns it: so each path is
      in exactly one of the two places, and in one bucket only. */
  lemma {:induction false} ImpactPartition(rules: seq<Rule>, changed: seq<string>, svc: string, path: string)
    ensures var r := Impact(rules, changed);
      && (path in r.unmappedFiles <==> path in changed && OwnerOf(rules, path).None?)
      && (InBucket(r.servicesToFiles, svc, path) <==> path in changed && OwnerOf(rules, path) == Some(svc))
  {
    GatherUnmapped(rules, changed, path);
    GatherBucket(rules, changed, svc, path);
  }

  /** A changed path is never both unmapped and in a bucket. */
  lemma {:induction false} UnmappedOrBucket(rules: seq<Rule>, changed: seq<string>, svc: string, path: string)
    ensures var r := Impact(rules, changed);
      !(path in r.unmappedFiles && InBucket(r.servicesToFiles, svc, path))
  {
    ImpactPartition(rules, changed, svc, path);
  }

  /** A service has a bucket exactly when it owns some changed path, so no
      bucket is empty. */
  lemma {:induction false} ImpactBuckets(rules: seq<Rule>, changed: seq<string>, svc: string)
    ensures var r := Impact(rules, changed);
      && (svc in r.servicesToFiles <==> exists path :: path in changed && OwnerOf(rules, path) == Some(svc))
      && (svc in r.servicesToFiles ==> r.servicesToFiles[svc] != [])
  {
    var t := Gather(rules, changed);
    if svc in t.servicesToFiles {
      GatherNonEmpty(rules, changed, svc);
      var p := t.servicesToFiles[svc][0];
      GatherBucket(rules, changed, svc, p);
      assert p in SortDedup(t.servicesToFiles[svc]);
    } else {
      forall path | path in changed
        ensures OwnerOf(rules, path) != Some(svc)
      {
        GatherBucket(rules, changed, svc, path);
      }
    }
  }

  /** Every bucket and the unmapped list are strictly ascending. */
  lemma {:induction false} ImpactSorted(rules: seq<Rule>, changed: seq<string>)
    ensures var r := Impact(rules, changed);
      && StrictlySorted(r.unmappedFiles)
      && forall svc :: svc in r.servicesToFiles ==> StrictlySorted(r.servicesToFiles[svc])
  {
  }

  /** A path is an overlap exactly when it is owned and has more than one
      candidate rule; it maps to the candidates' services in rule order. */
  lemma {:induction false} ImpactOverlaps(rules: seq<Rule>, changed: seq<string>, path: string)
    ensures var o := Impact(rules, changed).overlaps;
      && (path in o <==> path in changed && OwnerOf(rules, path).Some? && |MatchOf(rules, path).matches| > 1)
      && (path in o ==> o[path] == ServicesOf(MatchOf(rules, path).matches))
  {
    GatherOverlaps(rules, changed, path);
  }

  // ---------------------------------------------------------------------------
  // Independence from input order and repeats
  // ---------------------------------------------------------------------------

  /** The report depends only on which paths changed, not on their order or
      on repeats. */
  lemma {:induction false} ImpactBySet(rules: seq<Rule>, c1: seq<string>, c2: seq<string>)
    requires forall p :: p in c1 <==> p in c2
    ensures Impact(rules, c1) == Impact(rules, c2)
  {
    var r1, r2 := Impact(rules, c1), Impact(rules, c2);
    UnmappedBySet(rules, c1, c2);
    BucketsBySet(rules, c1, c2);
    OverlapsBySet(rules, c1, c2);
  }

  lemma {:induction false} UnmappedBySet(rules: seq<Rule>, c1: seq<string>, c2: seq<string>)
    requires forall p :: p in c1 <==> p in c2
    ensures Impact(rules, c1).unmappedFiles == Impact(rules, c2).unmappedFiles
  {
    forall p
      ensures p in Gather(rules, c1).unmappedFiles <==> p in Gather(rules, c2).unmappedFiles
    {
      UnmappedSame(rules, c1, c2, p);
    }
    SortDedupBySet(Gather(rules, c1).unmappedFiles, Gather(rules, c2).unmappedFiles);
  }

  lemma {:induction false} UnmappedSame(rules: seq<Rule>, c1: seq<string>, c2: seq<string>, p: string)
    requires forall p :: p in c1 <==> p in c2
    ensures p in Gather(rules, c1).unmappedFiles <==> p in Gather(rules, c2).unmappedFiles
  {
    GatherUnmapped(rules, c1, p);
    GatherUnmapped(rules, c2, p);
  }

  lemma {:induction false} BucketsBySet(rules: seq<Rule>, c1: seq<string>, c2: seq<string>)
    requires forall p :: p in c1 <==> p in c2
    ensures Impact(rules, c1).servicesToFiles == Impact(rules, c2).servicesToFiles
  {
    var b1, b2 := Impact(rules, c1).servicesToFiles, Impact(rules, c2).servicesToFiles;
    forall svc
      ensures svc in b1 <==> svc in b2
    {
      KeySame(rules, c1, c2, svc);
    }
    forall svc | svc in b1
      ensures b1[svc] == b2[svc]
    {
      BucketSame(rules, c1, c2, svc);
    }
  }

  lemma {:induction false} KeySame(rules: seq<Rule>, c1: seq<string>, c2: seq<string>, svc: string)
    requires forall p :: p in c1 <==> p in c2
    ensures svc in Impact(rules, c1).servicesToFiles <==> svc in Impact(rules, c2).servicesToFiles
  {
    ImpactBuckets(rules, c1, svc);
    ImpactBuckets(rules, c2, svc);
  }

  lemma {:induction false} BucketSame(rules: seq<Rule>, c1: seq<string>, c2: seq<string>, svc: string)
    requires forall p :: p in c1 <==> p in c2
    requires svc in Gather(rules, c1).servicesToFiles && svc in Gather(rules, c2).servicesToFiles
    ensures SortDedup(Gather(rules, c1).servicesToFiles[svc]) == SortDedup(Gather(rules, c2).servicesToFiles[svc])
  {
    var g1, g2 := Gather(rules, c1).servicesToFiles[svc], Gather(rules, c2).servicesToFiles[svc];
    forall p
      ensures p in g1 <==> p in g2
    {
      GatherBucket(rules, c1, svc, p);
      GatherBucket(rules, c2, svc, p);
    }
    SortDedupBySet(g1, g2);
  }

  lemma {:induction false} OverlapsBySet(rules: seq<Rule>, c1: seq<string>, c2: seq<string>)
    requires forall p :: p in c1 <==> p in c2
    ensures Impact(rules, c1).overlaps == Impact(rules, c2).overlaps
  {
    var o1, o2 := Impact(rules, c1).overlaps, Impact(rules, c2).overlaps;
    forall p
      ensures (p in o1 <==> p in o2) && (p in o1 ==> o1[p] == o2[p])
    {
      GatherOverlaps(rules, c1, p);
      GatherOverlaps(rules, c2, p);
    }
  }

  // ---------------------------------------------------------------------------
  // Counts
  // ---------------------------------------------------------------------------

  /** The elements of `s`. */
  function Elems(s: seq<string>): set<string> {
    set x | x in s
  }

  /** A sequence with no repeats has as many elements as its set. */
  lemma {:induction false} DistinctCard(s: seq<string>)
    requires StrictlySorted(s)
    ensures |Elems(s)| == |s|
    decreases |s|
  {
    if s != [] {
      var n := |s| - 1;
      assert StrictlySorted(s[..n]);
      DistinctCard(s[..n]);
      assert Elems(s) == Elems(s[..n]) + {s[n]};
      forall k | 0 <= k < n ensures s[k] != s[n] { StrictlySortedDistinct(s, k, n); }
      assert s[n] !in Elems(s[..n]);
    }
  }

  /** The paths of `changed` that `svc` owns. */
  function OwnedBy(rules: seq<Rule>, changed: seq<string>, svc: string): set<string> {
    set p | p in changed && OwnerOf(rules, p) == Some(svc)
  }

  /** `file_count_for` counts the distinct changed paths the service owns. */
  lemma {:induction false} FileCountForOwned(rules: seq<Rule>, changed: seq<string>, svc: string)
    ensures Impact(rules, changed).FileCountFor(svc) == |OwnedBy(rules, changed, svc)|
  {
    var r := Impact(rules, changed);
    ImpactBuckets(rules, changed, svc);
    forall p
      ensures InBucket(r.servicesToFiles, svc, p) <==> p in OwnedBy(rules, changed, svc)
    {
      ImpactPartition(rules, changed, svc, p);
    }
    if svc in r.servicesToFiles {
      ImpactSorted(rules, changed);
      DistinctCard(r.servicesToFiles[svc]);
      assert Elems(r.servicesToFiles[svc]) == OwnedBy(rules, changed, svc);
    } else {
      assert OwnedBy(rules, changed, svc) == {};
    }
  }

  /** The paths in the buckets of the services `ks`. */
  function Union(m: map<string, seq<string>>, ks: seq<string>): set<string>
    decreases |ks|
  {
    if ks == [] then {}
    else Union(m, ks[..|ks| - 1]) + (if ks[|ks| - 1] in m then Elems(m[ks[|ks| - 1]]) else {})
  }

  lemma {:induction false} UnionMembers(m: map<string, seq<string>>, ks: seq<string>, p: string)
    ensures p in Union(m, ks) <==> exists k :: k in ks && InBucket(m, k, p)
    decreases |ks|
  {
    if ks != [] {
      var n := |ks| - 1;
      UnionMembers(m, ks[..n], p);
      if p in Union(m, ks) {
        if p in Union(m, ks[..n]) {
          var k :| k in ks[..n] && InBucket(m, k, p);
          assert k in ks;
        } else {
          assert InBucket(m, ks[n], p);
        }
      }
      if exists k :: k in ks && InBucket(m, k, p) {
        var k :| k in ks && InBucket(m, k, p);
        if k != ks[n] {
          assert k in ks[..n];
        }
      }
    }
  }

  /** Buckets no two of which share a path, each without repeats. */
  predicate Separate(m: map<string, seq<string>>) {
    && (forall k :: k in m ==> StrictlySorted(m[k]))
    && forall a, b, p :: a in m && b in m && p in m[a] && p in m[b] ==> a == b
  }

  /** Over separate buckets, the sizes add up to the number of paths in them. */
  lemma {:induction false} SumSizesUnion(m: map<string, seq<string>>, ks: seq<string>)
    requires Separate(m) && StrictlySorted(ks)
    ensures SumSizes(m, ks) == |Union(m, ks)|
    decreases |ks|
  {
    if ks != [] {
      var n := |ks| - 1;
      var k := ks[n];
      assert StrictlySorted(ks[..n]);
      SumSizesUnion(m, ks[..n]);
      if k in m {
        DistinctCard(m[k]);
        forall p | p in Union(m, ks[..n])
          ensures p !in Elems(m[k])
        {
          NotInLater(m, ks, p);
        }
        assert Union(m, ks[..n]) !! Elems(m[k]);
      }
    }
  }

  lemma {:induction false} NotInLater(m: map<string, seq<string>>, ks: seq<string>, p: string)
    requires Separate(m) && StrictlySorted(ks) && ks != []
    requires p in Union(m, ks[..|ks| - 1])
    ensures !InBucket(m, ks[|ks| - 1], p)
  {
    var n := |ks| - 1;
    UnionMembers(m, ks[..n], p);
    var k :| k in ks[..n] && InBucket(m, k, p);
    var i :| 0 <= i < n && ks[..n][i] == k;
    StrictlySortedDistinct(ks, i, n);
  }

  /** `total_files` is the number of distinct changed paths: each is counted
      once, in its bucket or among the unmapped files. */
  lemma {:induction false} TotalFilesDistinct(rules: seq<Rule>, changed: seq<string>)
    ensures Impact(rules, changed).TotalFiles() == |Elems(changed)|
  {
    var r := Impact(rules, changed);
    ImpactSeparate(rules, changed);
    SumSizesUnion(r.servicesToFiles, r.ImpactedServices());
    ImpactSorted(rules, changed);
    DistinctCard(r.unmappedFiles);
    MappedOrUnmapped(rules, changed);
  }

  lemma {:induction false} ImpactSeparate(rules: seq<Rule>, changed: seq<string>)
    ensures Separate(Impact(rules, changed).servicesToFiles)
  {
    var m := Impact(rules, changed).servicesToFiles;
    ImpactSorted(rules, changed);
    forall a, b, p | a in m && b in m && p in m[a] && p in m[b]
      ensures a == b
    {
      OneBucket(rules, changed, a, b, p);
    }
  }

  lemma {:induction false} OneBucket(rules: seq<Rule>, changed: seq<string>, a: string, b: string, p: string)
    requires InBucket(Impact(rules, changed).servicesToFiles, a, p)
    requires InBucket(Impact(rules, changed).servicesToFiles, b, p)
    ensures a == b
  {
    ImpactPartition(rules, changed, a, p);
    ImpactPartition(rules, changed, b, p);
  }

  /** The bucketed paths and the unmapped ones split the changed paths. */
  lemma {:induction false} MappedOrUnmapped(rules: seq<Rule>, changed: seq<string>)
    ensures var r := Impact(rules, changed);
      var mapped := Union(r.servicesToFiles, r.ImpactedServices());
      var unmapped := Elems(r.unmappedFiles);
      mapped !! unmapped && mapped + unmapped == Elems(changed)
  {
    var r := Impact(rules, changed);
    var mapped := Union(r.servicesToFiles, r.ImpactedServices());
    var unmapped := Elems(r.unmappedFiles);
    forall p
      ensures (p in mapped || p in unmapped <==> p in changed) && !(p in mapped && p in unmapped)
    {
      CountedOnce(rules, changed, p);
    }
  }

  lemma {:induction false} CountedOnce(rules: seq<Rule>, changed: seq<string>, p: string)
    ensures var r := Impact(rules, changed);
      var mapped := Union(r.servicesToFiles, r.ImpactedServices());
      var unmapped := Elems(r.unmappedFiles);
      (p in mapped || p in unmapped <==> p in changed) && !(p in mapped && p in unmapped)
  {
    var r := Impact(rules, changed);
    var ks := r.ImpactedServices();
    UnionMembers(r.servicesToFiles, ks, p);
    var owner := OwnerOf(rules, p);
    if owner.Some? {
      ImpactPartition(rules, changed, owner.value, p);
      if p in changed {
        ImpactBuckets(rules, changed, owner.value);
        assert owner.value in ks;
      }
    } else {
      ImpactPartition(rules, changed, "", p);
    }
    forall k | k in ks && InBucket(r.servicesToFiles, k, p)
      ensures p in changed && owner == Some(k)
    {
      ImpactPartition(rules, changed, k, p);
    }
  }

  // ---------------------------------------------------------------------------
  // Unowned paths
  // ---------------------------------------------------------------------------

  /** A changed path no rule matches is listed as unmapped and in no bucket. */
  lemma {:induction false} UnmatchedUnmapped(rules: seq<Rule>, changed: seq<string>, path: string, svc: string)
    requires path in changed
    requires forall i :: 0 <= i < |rules| ==> !RuleMatches(rules[i], path)
    ensures path in Impact(rules, changed).unmappedFiles
    ensures !InBucket(Impact(rules, changed).servicesToFiles, svc, path)
  {
    NoServiceWithoutMatch(rules, path);
    ImpactPartition(rules, changed, svc, path);
  }

  // Two tree rules `<d1>/**` and `<d2>/**` (such as `apps/api/** api` and
  // `apps/web/** web`): a changed path under neither directory (such as
  // `README.md`) is unmapped.
  lemma {:induction false} OutsideTreesUnmapped(r1: Rule, r2: Rule, d1: string, d2: string,
                                                changed: seq<string>, path: string)
    requires Compile(r1.pattern) == Success(r1.compiled) && r1.compiled.normalized == d1 + "/**" && AllPlain(d1)
    requires Compile(r2.pattern) == Success(r2.compiled) && r2.compiled.normalized == d2 + "/**" && AllPlain(d2)
    requires path in changed && !StartsWith(path, d1 + "/") && !StartsWith(path, d2 + "/")
    ensures path in Impact([r1, r2], changed).unmappedFiles
  {
    TreeRule(r1, d1, path);
    TreeRule(r2, d2, path);
    NeitherMatches(r1, r2, path);
    UnmatchedUnmapped([r1, r2], changed, path, "");
  }

  lemma NeitherMatches(r1: Rule, r2: Rule, path: string)
    requires !RuleMatches(r1, path) && !RuleMatches(r2, path)
    ensures forall i :: 0 <= i < |[r1, r2]| ==> !RuleMatches([r1, r2][i], path)
  {
    var rules := [r1, r2];
    assert forall i :: 0 <= i < |rules| ==> rules[i] == r1 || rules[i] == r2;
  }
}
