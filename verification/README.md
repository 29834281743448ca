# Range-addressed variant cache of pileup.js's VCF data source

This project models the cache that `createFromVcfFile` builds in
`src/main/sources/VcfDataSource.js`. A genome viewer reports the range it
wants to show. The cache decides whether that range still needs a network
fetch. If it does, the cache widens the range to whole 100 bp blocks and
marks the widened interval covered before the fetch starts. When the fetch
completes, the returned variant calls are merged into a store keyed by
`contig:position`, and the first record stored under a key is kept. Queries
are answered from the store by a containment filter.

The model is a functional state machine: an immutable `Cache` value
`(store, covered, pending, notified)` and one pure function per transition.

- `Intervals` (intervals.dfy): half-open genomic intervals. Covers locus and
  interval containment, rounding to a granularity, coalescing, and the
  "already covered" test. The interval type the cache imports is not part of
  this model. Its operations are given concrete definitions here, and the
  contracts the cache relies on are proved about them.
- `Variants` (variants.dfy): the variant record and its key `contig:position`,
  with decimal rendering of the position.
- `VariantStore` (variant_store.dfy): the deduplicating `variants` object. It
  is a map from key to record plus the keys in insertion order, which is the
  order a JavaScript object enumerates such keys in.
- `VcfDataSource` (vcf_data_source.dfy): the cache state and its transitions,
  plus `create`. The asynchronous `fetch` is split into three functions:
  - `StartFetch`: the synchronous prefix up to issuing the request.
  - `CompleteFetch`: the request succeeded.
  - `FailFetch`: the request failed.
- `CacheTraces` (cache_traces.dfy): event sequences (`Step`, `Next`, `Run`),
  the invariant every reachable state keeps, and properties over runs.

Two facts about the code that the model makes explicit:

- `create` accepts an argument with both `url` and `content`, and a truthy
  `url` wins (`Create`).
- `IsCoveredBy` asks whether one covered interval contains the range.
  `CoveredByMeansUnion` proves this equals coverage by the union of the
  covered intervals on a coalesced list, and `ReachableInv` proves the
  covered list is always coalesced.

## Model

| member | source | states |
|---|---|---|
| Intervals.Round | src/main/sources/VcfDataSource.js:57 | The widened interval stays on the same contig and contains the request. Both ends are multiples of the granularity, and each end moves by less than one block. |
| Intervals.RoundIsTightest | src/main/sources/VcfDataSource.js:57 | Any block-aligned interval that holds the request also holds the rounded one, so rounding widens only to the nearest enclosing multiples. |
| Intervals.IsCoveredBy | src/main/sources/VcfDataSource.js:53 | An empty range is always covered, and against an empty list only an empty range is. Its meaning on a coalesced list is given by `CoveredByMeansUnion`. |
| Intervals.CoveredByMeansUnion | src/main/sources/VcfDataSource.js:53 | On a coalesced list, `isCoveredBy` holds exactly when every locus of the range lies in the union of the covered intervals. |
| Intervals.Coalesce | src/main/sources/VcfDataSource.js:61 | The result is coalesced (no empty interval; per contig, increasing with no overlap or abutment) and covers exactly the loci its input covers. |
| Intervals.CoalesceIdempotent | src/main/sources/VcfDataSource.js:61 | Coalescing a list that is already coalesced returns it unchanged. |
| Intervals.MarkCovered | src/main/sources/VcfDataSource.js:60-61 | After the push and coalesce, the list is coalesced and its union is the old union plus the new interval. The new interval counts as covered, and every interval covered before still is. |
| Intervals.MarkCoveredIdempotent | src/main/sources/VcfDataSource.js:60-61 | Marking the same interval covered twice yields the same list as marking it once. |
| Variants.VariantKey | src/main/sources/VcfDataSource.js:31-33 | The key starts with the contig and then a ':'. |
| Variants.VariantKeyIdentifiesLocus | src/main/sources/VcfDataSource.js:31-33 | Two variants have the same `contig:position` key exactly when they have the same contig and position. |
| VariantStore.AddVariant | src/main/sources/VcfDataSource.js:42-47 | If the key is present, the store is unchanged (first writer wins). Otherwise exactly that key is added with `v`, it is last in enumeration order, and every other entry keeps its value. |
| VariantStore.AddAll | src/main/sources/VcfDataSource.js:63 | Merging a fetch's records keeps every existing entry's value and makes the key set the old keys plus the returned keys. Each new key holds the first returned record with that key. |
| VariantStore.AddAllIdempotent | src/main/sources/VcfDataSource.js:63 | Merging the same records a second time changes nothing, so repeated or overlapping fetches never duplicate an entry. |
| VariantStore.Empty | src/main/sources/VcfDataSource.js:37 | The new `variants` object is empty and well formed. |
| VariantStore.Select | src/main/sources/VcfDataSource.js:70 | The filter returns exactly the stored records whose locus lies in the range (`Interval.ContainsLocus`, the model of `chrContainsLocus`), each once. Matching records come out in the order their keys were inserted. |
| VcfDataSource.Init | src/main/sources/VcfDataSource.js:37-40 | A new cache stores nothing, covers only empty intervals, and has no outstanding request or notification. |
| VcfDataSource.StartFetch | src/main/sources/VcfDataSource.js:49-61 | A covered range changes nothing and issues no request. Otherwise the request is the range widened to 100 bp blocks, and it is marked covered before it is issued. The store is untouched. On a coalesced list, "no request" is the same as "every locus already covered". |
| VcfDataSource.CompleteFetch | src/main/sources/VcfDataSource.js:62-65 | Completion merges the records first-writer-wins, announces the fetched interval as 'newdata', and leaves coverage alone. The request stops being outstanding. |
| VcfDataSource.FailFetch | src/main/sources/VcfDataSource.js:62 | A failed request rolls nothing back. Coverage, store and notifications are unchanged; only the outstanding request goes away. |
| VcfDataSource.GetFeaturesInRange | src/main/sources/VcfDataSource.js:68-71 | An absent range gives `[]`. Otherwise the result is exactly the stored records whose locus lies in the range, without repeats, in insertion order. |
| VcfDataSource.Create | src/main/sources/VcfDataSource.js:89-98 | `create` fails exactly when neither `url` nor `content` is truthy, and the error carries the argument. A truthy `url` wins over `content`, and the new source starts from the empty cache. |
| CacheTraces.ReachableInv | src/main/sources/VcfDataSource.js:37-65 | In every state reachable by any sequence of range changes, completions and failures, four things hold: the store is well formed, the covered list is coalesced, every outstanding request is covered, and no interval is outstanding twice. |
| CacheTraces.Next | src/main/sources/VcfDataSource.js:62-76 | A range change (`rangeChanged`) always applies. A completion or failure applies exactly when its interval is outstanding. Only a completion announces 'newdata', and it announces the interval it settles. |
| CacheTraces.Run | src/main/sources/VcfDataSource.js:62-76 | Over any run, the 'newdata' log gains exactly the intervals of the run's completions, in order. |
| CacheTraces.RunGrows | src/main/sources/VcfDataSource.js:37-65 | Over any run, no stored record is lost or replaced, and no covered interval stops being covered. |
| CacheTraces.NoSecondFetch | src/main/sources/VcfDataSource.js:53-61 | Once a request for an interval is issued, any later request inside it is a cache hit. This holds whether the first request is still outstanding, has completed, or has failed. |
| CacheTraces.FailedFetchMasks | src/main/sources/VcfDataSource.js:59-62 | After a failed fetch, a request inside its interval is a hit, and queries there return only what was stored before the failure. |
| CacheTraces.ExampleScenario | src/main/sources/VcfDataSource.js:49-70 | A request for chr1:150-160 fetches chr1:100-200. After records at 120 and 180 arrive, a query for chr1:150-160 returns nothing and one for chr1:100-200 returns both. A request for chr1:110-130 is then a hit. |

## Left out

- The event-emitter mixin (`on`, `off`, `trigger`, lines 79-84): only the 'newdata' announcements are kept, as the `notified` log of the cache.
- Promises and `.done()` (lines 54, 62, 75): the asynchronous gap is represented by the separate Start/Complete/Fail transitions. A failure rethrown by `.done()` has no effect on cache state, which `FailFetch` captures.
- The record provider (`RemoteFile`, `LocalStringFile`, `VcfFile`, lines 14-16, 92-94): this is I/O and parsing. What a request returns is an arbitrary `seq<Variant>` parameter of `CompleteFetch`.
- `src/main/ContigInterval.js` is not part of this model. `Round`, `Coalesce`, `IsCoveredBy` and `ContainsLocus` are this model's own definitions, which take intervals as half-open `[start, stop)`. The `ZERO_BASED` flag passed to `round` (line 29) is not modelled, because its effect lives inside that class.
- The error text of `create` (line 97, `JSON.stringify`): the error value carries the argument itself instead of a formatted message.
- Variant fields other than contig and position are one opaque `payload` string.
- Positions are integers rendered in decimal. Non-integral JavaScript numbers are not modelled.
- Flow's type of `create`'s argument allows only strings for `url` and `content`. Other truthy values are not modelled.
- Intervals.IsCoveredBy, Interval.ContainsLocus: contigs are compared as exact strings, so "chr17" and "17" are different contigs. The name `chrContainsLocus` suggests the interval class may treat a "chr" prefix as optional. That class is not part of this model.
- Intervals.Coalesce: `Coalesced` fixes the order within a contig only. Contigs stay in the order they first appear, so `CoalesceIdempotent` is stated for this model's coalesce. A class that sorts by (contig, start) may order contigs differently.
- Intervals.IsCoveredBy, VcfDataSource.StartFetch: an empty or inverted range (stop <= start) counts as covered, so it never issues a request, even from the initial state.
