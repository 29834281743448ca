/**
 * The caching data source of src/main/sources/VcfDataSource.js: the cache
 * state that createFromVcfFile closes over, one pure function per
 * transition, and the argument check of `create`.
 *
 * The asynchronous `fetch` is split in two: StartFetch is the synchronous
 * prefix (coverage check, rounding, optimistic cover, issuing the request);
 * CompleteFetch and FailFetch are the two ways the issued request can settle.
 * The record provider is not modelled: what a request returns is a parameter.
 */
module VcfDataSource {
  import opened Wrappers
  import opened Intervals
  import opened Variants
  import opened VariantStore

  /** BASE_PAIRS_PER_FETCH: requests are widened to multiples of this. */
  const BasePairsPerFetch: int := 100

  /** The state of one data source.
      - store: the `variants` object;
      - covered: `coveredRanges`, the intervals fetched or being fetched;
      - pending: the rounded intervals whose request is issued and not yet settled;
      - notified: the intervals announced by 'newdata', oldest first. */
  datatype Cache = Cache(store: Store, covered: seq<Interval>, pending: seq<Interval>, notified: seq<Interval>)

  /** The state createFromVcfFile starts from: nothing stored, nothing covered. */
  function Init(): (c: Cache)
    ensures c.store.Valid() && |c.store.entries| == 0
    ensures forall i :: IsCoveredBy(i, c.covered) <==> i.IsEmpty()
    ensures |c.pending| == 0 && |c.notified| == 0
  {
    Cache(Empty(), [], [], [])
  }

  /** The synchronous outcome of `fetch`: the new state and the request issued, if any. */
  datatype Started = Started(cache: Cache, request: Option<Interval>)

  /** `fetch` up to issuing the request (also what `rangeChanged` does).
      A covered range changes nothing and issues nothing. Otherwise the range
      is widened to whole 100 bp blocks, that widened interval is marked
      covered at once, and it is the one requested. */
  function StartFetch(c: Cache, range: Interval): (r: Started)
    ensures IsCoveredBy(range, c.covered) ==> r == Started(c, None)
    ensures !IsCoveredBy(range, c.covered) ==>
              && r.request.Some?
              && var q := r.request.value;
              && q.contig == range.contig
              && q.ContainsInterval(range)
              && q.start % BasePairsPerFetch == 0 && q.stop % BasePairsPerFetch == 0
              && range.start - q.start < BasePairsPerFetch && q.stop - range.stop < BasePairsPerFetch
              && r.cache.store == c.store
              && r.cache.notified == c.notified
              && r.cache.pending == c.pending + [q]
              && Coalesced(r.cache.covered)
              && (forall k, p :: Covers(r.cache.covered, k, p) <==> Covers(c.covered, k, p) || q.ContainsLocus(k, p))
              && (forall y :: q.ContainsInterval(y) ==> IsCoveredBy(y, r.cache.covered))
    ensures forall y :: IsCoveredBy(y, c.covered) ==> IsCoveredBy(y, r.cache.covered)
    ensures Coalesced(c.covered) ==>
              (r.request.None? <==> forall p :: range.ContainsLocus(range.contig, p) ==> Covers(c.covered, range.contig, p))
  {
    assert Coalesced(c.covered) ==>
             (IsCoveredBy(range, c.covered) <==> forall p :: range.ContainsLocus(range.contig, p) ==> Covers(c.covered, range.contig, p)) by {
      if Coalesced(c.covered) {
        CoveredByMeansUnion(range, c.covered);
      }
    }
    if IsCoveredBy(range, c.covered) then Started(c, None)
    else
      var q := Round(range, BasePairsPerFetch);
      var covered := MarkCovered(c.covered, q);
      assert forall y :: q.ContainsInterval(y) ==> IsCoveredBy(y, covered) by {
        forall y | q.ContainsInterval(y)
          ensures IsCoveredBy(y, covered)
        {
          CoveredBySubinterval(y, q, covered);
        }
      }
      Started(Cache(c.store, covered, c.pending + [q], c.notified), Some(q))
  }

  /** `s` without its first occurrence of `x`. */
  function RemoveOne<T(==)>(s: seq<T>, x: T): (r: seq<T>)
    requires x in s
    ensures multiset(r) == multiset(s) - multiset{x}
    decreases |s|
  {
    assert s == [s[0]] + s[1..];
    if s[0] == x then s[1..] else [s[0]] + RemoveOne(s[1..], x)
  }

  /** The request for `fetched` succeeded with `returned` (lines 62-64): the
      records are merged first-writer-wins, 'newdata' announces `fetched`, and
      coverage is left as it is. */
  function CompleteFetch(c: Cache, fetched: Interval, returned: seq<Variant>): (r: Cache)
    requires fetched in c.pending
    ensures r.covered == c.covered
    ensures multiset(r.pending) == multiset(c.pending) - multiset{fetched}
    ensures r.notified == c.notified + [fetched]
    ensures c.store.Valid() ==> r.store.Valid()
    ensures forall k :: k in c.store.entries ==> k in r.store.entries && r.store.entries[k] == c.store.entries[k]
    ensures r.store.entries.Keys == c.store.entries.Keys + KeysOf(returned)
    ensures forall k :: k in r.store.entries && k !in c.store.entries ==> FirstWithKey(returned, k) == Some(r.store.entries[k])
  {
    assert c.store.Valid() ==> AddAll(c.store, returned).Valid() by {
      if c.store.Valid() {
        AddAllKeepsValid(c.store, returned);
      }
    }
    Cache(AddAll(c.store, returned), c.covered, RemoveOne(c.pending, fetched), c.notified + [fetched])
  }

  /** The request for `fetched` failed. Nothing is rolled back: the interval
      stays covered, no record is added and nothing is announced; the request
      is merely no longer outstanding. */
  function FailFetch(c: Cache, fetched: Interval): (r: Cache)
    requires fetched in c.pending
    ensures r.store == c.store && r.covered == c.covered && r.notified == c.notified
    ensures multiset(r.pending) == multiset(c.pending) - multiset{fetched}
  {
    Cache(c.store, c.covered, RemoveOne(c.pending, fetched), c.notified)
  }

  /** getFeaturesInRange: the stored records whose locus lies in `range`, in
      insertion order, each once; an absent range gives the empty list. */
  function GetFeaturesInRange(c: Cache, range: Option<Interval>): (r: seq<Variant>)
    requires c.store.Valid()
    ensures range.None? ==> r == []
    ensures range.Some? ==>
              forall v :: v in r <==> v in c.store.entries.Values && range.value.ContainsLocus(v.contig, v.position)
    ensures Distinct(r)
    ensures range.Some? ==>
              forall i, j :: 0 <= i < j < |c.store.order| && InRange(range.value, c.store.entries[c.store.order[i]]) && InRange(range.value, c.store.entries[c.store.order[j]]) ==>
                InOrder(r, c.store.entries[c.store.order[i]], c.store.entries[c.store.order[j]])
  {
    match range
    case None => []
    case Some(i) => Select(c.store, i)
  }

  // ---------------------------------------------------------------------------
  // create
  // ---------------------------------------------------------------------------

  /** The `{url, content}` argument of `create`; an absent field is None. */
  datatype TrackSpec = TrackSpec(url: Option<string>, content: Option<string>)

  /** Where the records come from: a remote file or an in-memory string. */
  datatype Provider = RemoteVcf(url: string) | InlineVcf(content: string)

  /** A data source: its record provider and its cache. */
  datatype DataSource = DataSource(provider: Provider, cache: Cache)

  /** The error `create` throws; it carries the offending argument. */
  datatype CreateError = MissingUrlOrContent(spec: TrackSpec)

  /** JavaScript truthiness of an optional string: present and not "". */
  predicate Truthy(s: Option<string>) {
    s.Some? && s.value != ""
  }

  /** create: a truthy url wins, then a truthy content; with neither it fails. */
  function Create(spec: TrackSpec): (r: Result<DataSource, CreateError>)
    ensures r.Failure? <==> !Truthy(spec.url) && !Truthy(spec.content)
    ensures r.Failure? ==> r.error == MissingUrlOrContent(spec)
    ensures Truthy(spec.url) ==> r.Success? && r.value.provider == RemoteVcf(spec.url.value)
    ensures !Truthy(spec.url) && Truthy(spec.content) ==> r.Success? && r.value.provider == InlineVcf(spec.content.value)
    ensures r.Success? ==> r.value.cache == Init()
  {
    if Truthy(spec.url) then Success(DataSource(RemoteVcf(spec.url.value), Init()))
    else if Truthy(spec.content) then Success(DataSource(InlineVcf(spec.content.value), Init()))
    else Failure(MissingUrlOrContent(spec))
  }
}
