/**
 * Properties of the cache over whole runs: sequences of range changes and
 * of settling requests, in any interleaving the single-threaded event loop
 * allows.
 */
module CacheTraces {
  import opened Wrappers
  import opened Intervals
  import opened Variants
  import opened VariantStore
  import opened VcfDataSource

  /** What every reachable state satisfies: the store is well formed, the
      covered list is coalesced, every outstanding request is covered, and no
      interval is outstanding twice. */
  ghost predicate Inv(c: Cache) {
    && c.store.Valid()
    && Coalesced(c.covered)
    && (forall q :: q in c.pending ==> IsCoveredBy(q, c.covered))
    && (forall q :: multiset(c.pending)[q] <= 1)
  }

  /** One event the cache reacts to. */
  datatype Step =
    | RangeChanged(range: Interval)
    | Delivered(fetched: Interval, returned: seq<Variant>)
    | Failed(fetched: Interval)

  /** The state after one event; None when the event cannot happen (a
      settlement of a request that is not outstanding). A range change always
      applies; only a completion announces 'newdata', and it announces the
      interval it settles. */
  function Next(c: Cache, s: Step): (r: Option<Cache>)
    ensures r.None? <==> !s.RangeChanged? && s.fetched !in c.pending
    ensures r.Some? && s.Delivered? ==> r.value.notified == c.notified + [s.fetched]
    ensures r.Some? && !s.Delivered? ==> r.value.notified == c.notified
  {
    match s
    case RangeChanged(range) => Some(StartFetch(c, range).cache)
    case Delivered(q, vs) => if q in c.pending then Some(CompleteFetch(c, q, vs)) else None
    case Failed(q) => if q in c.pending then Some(FailFetch(c, q)) else None
  }

  /** The intervals the completions among `steps` settle, in order. */
  function Announced(steps: seq<Step>): seq<Interval>
    decreases |steps|
  {
    if |steps| == 0 then []
    else (if steps[0].Delivered? then [steps[0].fetched] else []) + Announced(steps[1..])
  }

  /** The state after a sequence of events, or None when one of them cannot
      happen. Over a run the 'newdata' log gains exactly the intervals of the
      completions in the run, in the order they complete. */
  function Run(c: Cache, steps: seq<Step>): (r: Option<Cache>)
    ensures r.Some? ==> r.value.notified == c.notified + Announced(steps)
    decreases |steps|
  {
    if |steps| == 0 then Some(c)
    else
      match Next(c, steps[0])
      case None => None
      case Some(c1) =>
        var r := Run(c1, steps[1..]);
        if r.Some? then
          AnnouncedStep(c.notified, c1.notified, steps, r.value.notified);
          r
        else r
  }

  /** One step of the 'newdata' log over a run: the first step's announcement
      followed by the rest of the run's. */
  lemma AnnouncedStep(n0: seq<Interval>, n1: seq<Interval>, steps: seq<Step>, n: seq<Interval>)
    requires |steps| > 0
    requires n1 == n0 + (if steps[0].Delivered? then [steps[0].fetched] else [])
    requires n == n1 + Announced(steps[1..])
    ensures n == n0 + Announced(steps)
  {
    var head := if steps[0].Delivered? then [steps[0].fetched] else [];
    var tail := Announced(steps[1..]);
    assert Announced(steps) == head + tail;
    AppendAssoc(n0, head, tail);
  }

  lemma AppendAssoc<T>(a: seq<T>, b: seq<T>, c: seq<T>)
    ensures a + b + c == a + (b + c)
  {
  }

  lemma RemovalKeepsPending(c: Cache, d: Cache, fetched: Interval)
    requires multiset(d.pending) == multiset(c.pending) - multiset{fetched}
    ensures forall q :: q in d.pending ==> q in c.pending
    ensures forall q :: multiset(d.pending)[q] <= multiset(c.pending)[q]
  {
    forall q | q in d.pending
      ensures q in c.pending
    {
      assert q in multiset(d.pending);
    }
  }

  lemma NextPreservesInv(c: Cache, s: Step)
    requires Inv(c) && Next(c, s).Some?
    ensures Inv(Next(c, s).value)
  {
    match s
    case RangeChanged(range) =>
      var st := StartFetch(c, range);
      if st.request.Some? {
        var q := st.request.value;
        CoveredBySubinterval(range, q, c.covered);
        assert q !in c.pending;
        assert q.ContainsInterval(q);
        assert multiset(st.cache.pending) == multiset(c.pending) + multiset{q};
      }
    case Delivered(q, vs) =>
      RemovalKeepsPending(c, Next(c, s).value, q);
    case Failed(q) =>
      RemovalKeepsPending(c, Next(c, s).value, q);
  }

  lemma {:induction false} RunPreservesInv(c: Cache, steps: seq<Step>)
    requires Inv(c) && Run(c, steps).Some?
    ensures Inv(Run(c, steps).value)
    decreases |steps|
  {
    if |steps| > 0 {
      NextPreservesInv(c, steps[0]);
      RunPreservesInv(Next(c, steps[0]).value, steps[1..]);
    }
  }

  /** Every state reachable from the initial one satisfies Inv: in particular
      the covered list stays coalesced and a rounded interval is never
      requested a second time while its first request is outstanding. */
  lemma ReachableInv(steps: seq<Step>)
    requires Run(Init(), steps).Some?
    ensures Inv(Run(Init(), steps).value)
  {
    RunPreservesInv(Init(), steps);
  }

  /** Nothing is lost between c and d: every stored record stays, with the same
      value, and every covered interval stays covered. */
  ghost predicate Grows(c: Cache, d: Cache) {
    && (forall k :: k in c.store.entries ==> k in d.store.entries && d.store.entries[k] == c.store.entries[k])
    && (forall y :: IsCoveredBy(y, c.covered) ==> IsCoveredBy(y, d.covered))
  }

  lemma {:induction false} RunGrows(c: Cache, steps: seq<Step>)
    requires Run(c, steps).Some?
    ensures Grows(c, Run(c, steps).value)
    decreases |steps|
  {
    if |steps| > 0 {
      var c1 := Next(c, steps[0]).value;
      assert Grows(c, c1);
      RunGrows(c1, steps[1..]);
    }
  }

  /** Optimistic cover: once a request for q has been issued, a later request
      for anything inside q is a cache hit, whatever happened in between:
      whether q's request is still outstanding, has completed, or has failed. */
  lemma NoSecondFetch(c: Cache, range: Interval, steps: seq<Step>, y: Interval)
    requires StartFetch(c, range).request.Some?
    requires StartFetch(c, range).request.value.ContainsInterval(y)
    requires Run(StartFetch(c, range).cache, steps).Some?
    ensures var d := Run(StartFetch(c, range).cache, steps).value;
            StartFetch(d, y) == Started(d, None)
  {
    RunGrows(StartFetch(c, range).cache, steps);
  }

  /** A failed fetch masks its interval: afterwards a request inside it is a
      cache hit, and the records served for it are exactly those stored before. */
  lemma FailedFetchMasks(c: Cache, q: Interval, y: Interval)
    requires Inv(c) && q in c.pending && q.ContainsInterval(y)
    ensures StartFetch(FailFetch(c, q), y).request.None?
    ensures GetFeaturesInRange(FailFetch(c, q), Some(y)) == GetFeaturesInRange(c, Some(y))
  {
    CoveredBySubinterval(y, q, c.covered);
  }

  /** A concrete run: a request for chr1:150-160 fetches chr1:100-200;
      records at 120 and 180 then serve chr1:100-200 but not chr1:150-160; and
      a request for chr1:110-130 is a hit. */
  lemma ExampleScenario(a: Variant, b: Variant)
    requires a.contig == "chr1" && a.position == 120
    requires b.contig == "chr1" && b.position == 180
    ensures var s1 := StartFetch(Init(), Interval("chr1", 150, 160));
            && s1.request == Some(Interval("chr1", 100, 200))
            && var c2 := CompleteFetch(s1.cache, Interval("chr1", 100, 200), [a, b]);
            && c2.store.Valid()
            && GetFeaturesInRange(c2, Some(Interval("chr1", 150, 160))) == []
            && GetFeaturesInRange(c2, Some(Interval("chr1", 100, 200))) == [a, b]
            && StartFetch(c2, Interval("chr1", 110, 130)).request.None?
  {
    var range := Interval("chr1", 150, 160);
    var q := Interval("chr1", 100, 200);
    assert Round(range, BasePairsPerFetch) == q;
    assert MarkCovered([], q) == [q] by {
      assert [] + [q] == [q];
      assert [q][..0] == [];
      assert Coalesce([]) == [];
      assert Insert(q, []) == [q];
    }
    var s1 := StartFetch(Init(), range);
    assert s1 == Started(Cache(Empty(), [q], [q], []), Some(q));
    VariantKeyIdentifiesLocus(a, b);
    var ka, kb := VariantKey(a), VariantKey(b);
    MergeTwo(a, b);
    var c2 := CompleteFetch(s1.cache, q, [a, b]);
    assert c2.store == Store(map[ka := a, kb := b], [ka, kb]);
    assert c2.covered == [q];
    assert GetFeaturesInRange(c2, Some(range)) == [] by {
      assert SelectKeys(c2.store.entries, [kb], range) == [];
    }
    SelectTwo(c2.store.entries, ka, kb, q);
    assert q.ContainsInterval(Interval("chr1", 110, 130));
  }

  lemma MergeTwo(a: Variant, b: Variant)
    requires VariantKey(a) != VariantKey(b)
    ensures AddAll(Empty(), [a, b]) ==
            Store(map[VariantKey(a) := a, VariantKey(b) := b], [VariantKey(a), VariantKey(b)])
  {
    MergeFirst(Empty(), a, b);
    StoreFirst(a);
    MergeOne(AddVariant(Empty(), a), b);
    StoreSecond(a, b);
  }

  lemma StoreFirst(a: Variant)
    ensures AddVariant(Empty(), a) == Store(map[VariantKey(a) := a], [VariantKey(a)])
  {
  }

  lemma StoreSecond(a: Variant, b: Variant)
    requires VariantKey(a) != VariantKey(b)
    ensures AddVariant(Store(map[VariantKey(a) := a], [VariantKey(a)]), b) ==
            Store(map[VariantKey(a) := a, VariantKey(b) := b], [VariantKey(a), VariantKey(b)])
  {
  }

  lemma MergeFirst(s: Store, a: Variant, b: Variant)
    ensures AddAll(s, [a, b]) == AddAll(AddVariant(s, a), [b])
  {
    assert [a, b][1..] == [b];
  }

  lemma MergeOne(s: Store, v: Variant)
    ensures AddAll(s, [v]) == AddVariant(s, v)
  {
    assert [v][1..] == [];
  }

  lemma SelectTwo(entries: map<string, Variant>, ka: string, kb: string, range: Interval)
    requires ka in entries && kb in entries
    requires range.ContainsLocus(entries[ka].contig, entries[ka].position)
    requires range.ContainsLocus(entries[kb].contig, entries[kb].position)
    ensures SelectKeys(entries, [ka, kb], range) == [entries[ka], entries[kb]]
  {
    assert [ka, kb][1..] == [kb];
    assert [kb][1..] == [];
    assert SelectKeys(entries, [kb], range) == [entries[kb]];
  }
}
