/**
 * The deduplicating record store behind the cache: the `variants` object,
 * keyed by `contig:position`, where the first record stored under a key is
 * kept and later ones are dropped.
 *
 * A JavaScript object enumerates its non-index string keys in insertion
 * order, and every key here contains ':', so the store remembers that order
 * next to the map; the filter returns matches in that order.
 */
module VariantStore {
  import opened Wrappers
  import opened Intervals
  import opened Variants

  datatype Store = Store(entries: map<string, Variant>, order: seq<string>) {

    /** Each record sits under its own key, and `order` lists every key once. */
    ghost predicate Valid() {
      && (forall k :: k in entries ==> VariantKey(entries[k]) == k)
      && (forall k :: k in entries <==> k in order)
      && Distinct(order)
    }
  }

  /** No element occurs twice. */
  predicate Distinct<T(==)>(s: seq<T>) {
    forall i, j :: 0 <= i < j < |s| ==> s[i] != s[j]
  }

  function Empty(): (s: Store)
    ensures s.Valid() && |s.entries| == 0
  {
    Store(map[], [])
  }

  /** addVariant: store `v` unless a record with its key is already present. */
  function AddVariant(s: Store, v: Variant): (r: Store)
    ensures VariantKey(v) in s.entries ==> r == s
    ensures VariantKey(v) !in s.entries ==>
              && r.entries.Keys == s.entries.Keys + {VariantKey(v)}
              && r.entries[VariantKey(v)] == v
              && r.order == s.order + [VariantKey(v)]
    ensures forall k :: k in s.entries ==> k in r.entries && r.entries[k] == s.entries[k]
  {
    var key := VariantKey(v);
    if key in s.entries then s
    else Store(s.entries[key := v], s.order + [key])
  }

  /** addVariant keeps the store well formed. */
  lemma AddVariantKeepsValid(s: Store, v: Variant)
    requires s.Valid()
    ensures AddVariant(s, v).Valid()
  {
    var key := VariantKey(v);
    if key !in s.entries {
      var r := AddVariant(s, v);
      assert key !in s.order;
      forall i, j | 0 <= i < j < |r.order|
        ensures r.order[i] != r.order[j]
      {
        if j == |s.order| {
          assert r.order[i] == s.order[i];
        }
      }
    }
  }

  /** Merging a fetch's records keeps the store well formed. */
  lemma {:induction false} AddAllKeepsValid(s: Store, vs: seq<Variant>)
    requires s.Valid()
    ensures AddAll(s, vs).Valid()
    decreases |vs|
  {
    if |vs| > 0 {
      AddVariantKeepsValid(s, vs[0]);
      AddAllKeepsValid(AddVariant(s, vs[0]), vs[1..]);
    }
  }

  /** The keys of a list of records. */
  function KeysOf(vs: seq<Variant>): set<string> {
    set v | v in vs :: VariantKey(v)
  }

  lemma KeysOfCons(vs: seq<Variant>)
    requires |vs| > 0
    ensures KeysOf(vs) == {VariantKey(vs[0])} + KeysOf(vs[1..])
  {
    assert vs == [vs[0]] + vs[1..];
  }

  /** The first record of `vs` whose key is k, if any: the one a first-writer-wins store keeps. */
  function FirstWithKey(vs: seq<Variant>, k: string): Option<Variant>
    decreases |vs|
  {
    if |vs| == 0 then None
    else if VariantKey(vs[0]) == k then Some(vs[0])
    else FirstWithKey(vs[1..], k)
  }

  /** `vs.forEach(addVariant)`: merge the records of one fetch. Keys already
      present keep their record; every key of `vs` ends up present; a new key
      holds the first record of `vs` with that key. */
  function AddAll(s: Store, vs: seq<Variant>): (r: Store)
    ensures forall k :: k in s.entries ==> k in r.entries && r.entries[k] == s.entries[k]
    ensures r.entries.Keys == s.entries.Keys + KeysOf(vs)
    ensures forall k :: k in r.entries && k !in s.entries ==> FirstWithKey(vs, k) == Some(r.entries[k])
    ensures s.order <= r.order
    decreases |vs|
  {
    if |vs| == 0 then s
    else
      var s1 := AddVariant(s, vs[0]);
      var r := AddAll(s1, vs[1..]);
      KeysOfCons(vs);
      assert forall k :: k in r.entries && k !in s.entries ==> FirstWithKey(vs, k) == Some(r.entries[k]) by {
        forall k | k in r.entries && k !in s.entries
          ensures FirstWithKey(vs, k) == Some(r.entries[k])
        {
          FirstWriterAt(s, vs, r, k);
        }
      }
      r
  }

  /** The record a new key holds after merging `vs` is the first one of `vs`
      with that key, given that this holds for the merge of `vs[1..]` after
      `vs[0]` was added. */
  lemma FirstWriterAt(s: Store, vs: seq<Variant>, r: Store, k: string)
    requires |vs| > 0 && k in r.entries && k !in s.entries
    requires k in AddVariant(s, vs[0]).entries ==> r.entries[k] == AddVariant(s, vs[0]).entries[k]
    requires k !in AddVariant(s, vs[0]).entries ==> FirstWithKey(vs[1..], k) == Some(r.entries[k])
    ensures FirstWithKey(vs, k) == Some(r.entries[k])
  {
  }

  /** Merging records whose keys are all present already changes nothing. */
  lemma {:induction false} AddAllPresent(s: Store, vs: seq<Variant>)
    requires KeysOf(vs) <= s.entries.Keys
    ensures AddAll(s, vs) == s
    decreases |vs|
  {
    if |vs| > 0 {
      assert VariantKey(vs[0]) in KeysOf(vs);
      assert KeysOf(vs[1..]) <= KeysOf(vs) by {
        forall k | k in KeysOf(vs[1..])
          ensures k in KeysOf(vs)
        {
          var v :| v in vs[1..] && VariantKey(v) == k;
          assert v in vs;
        }
      }
      AddAllPresent(s, vs[1..]);
    }
  }

  /** Fetching the same records twice stores them once: merging is idempotent. */
  lemma AddAllIdempotent(s: Store, vs: seq<Variant>)
    ensures AddAll(AddAll(s, vs), vs) == AddAll(s, vs)
  {
    AddAllPresent(AddAll(s, vs), vs);
  }

  /** The records under `keys`, in that order, whose locus lies in `range`. */
  function SelectKeys(entries: map<string, Variant>, keys: seq<string>, range: Interval): seq<Variant>
    requires forall k :: k in keys ==> k in entries
    decreases |keys|
  {
    if |keys| == 0 then []
    else
      var v := entries[keys[0]];
      var rest := SelectKeys(entries, keys[1..], range);
      if InRange(range, v) then [v] + rest else rest
  }

  /** One step of the filter: the head record, if it matches, then the filter of the tail. */
  lemma SelectKeysStep(entries: map<string, Variant>, keys: seq<string>, range: Interval)
    requires forall k :: k in keys ==> k in entries
    requires |keys| > 0
    ensures InRange(range, entries[keys[0]]) ==> SelectKeys(entries, keys, range) == [entries[keys[0]]] + SelectKeys(entries, keys[1..], range)
    ensures !InRange(range, entries[keys[0]]) ==> SelectKeys(entries, keys, range) == SelectKeys(entries, keys[1..], range)
  {
  }

  /** The filter keeps exactly the matching records under `keys`. */
  lemma {:induction false} SelectKeysMembers(entries: map<string, Variant>, keys: seq<string>, range: Interval)
    requires forall k :: k in keys ==> k in entries
    ensures forall v :: v in SelectKeys(entries, keys, range) <==> (exists k :: k in keys && entries[k] == v) && InRange(range, v)
    decreases |keys|
  {
    if |keys| > 0 {
      SelectKeysStep(entries, keys, range);
      SelectKeysMembers(entries, keys[1..], range);
      assert forall k :: k in keys <==> k == keys[0] || k in keys[1..] by {
        assert keys == [keys[0]] + keys[1..];
      }
    }
  }

  /** A matching record under the j-th key is in the filter's result. */
  lemma {:induction false} SelectKeysHas(entries: map<string, Variant>, keys: seq<string>, range: Interval, j: int)
    requires forall k :: k in keys ==> k in entries
    requires 0 <= j < |keys| && InRange(range, entries[keys[j]])
    ensures entries[keys[j]] in SelectKeys(entries, keys, range)
    decreases |keys|
  {
    SelectKeysStep(entries, keys, range);
    if j > 0 {
      assert keys[j] == keys[1..][j - 1];
      SelectKeysHas(entries, keys[1..], range, j - 1);
    }
  }

  /** The filter keeps the order of `keys`: the matching records under keys
      i < j appear in the result at positions a < b. */
  lemma {:induction false} SelectKeysInOrder(entries: map<string, Variant>, keys: seq<string>, range: Interval, i: int, j: int)
      returns (a: int, b: int)
    requires forall k :: k in keys ==> k in entries
    requires 0 <= i < j < |keys|
    requires InRange(range, entries[keys[i]]) && InRange(range, entries[keys[j]])
    ensures var r := SelectKeys(entries, keys, range);
            0 <= a < b < |r| && r[a] == entries[keys[i]] && r[b] == entries[keys[j]]
    decreases |keys|
  {
    var r := SelectKeys(entries, keys, range);
    var rest := SelectKeys(entries, keys[1..], range);
    var x := entries[keys[0]];
    SelectKeysStep(entries, keys, range);
    assert keys[j] == keys[1..][j - 1];
    if i == 0 {
      assert r == [x] + rest;
      SelectKeysHas(entries, keys[1..], range, j - 1);
      var b' :| 0 <= b' < |rest| && rest[b'] == entries[keys[j]];
      PrependKeepsPair(x, rest, -1, b');
      a, b := 0, b' + 1;
    } else {
      assert keys[i] == keys[1..][i - 1];
      var a', b' := SelectKeysInOrder(entries, keys[1..], range, i - 1, j - 1);
      if InRange(range, x) {
        assert r == [x] + rest;
        PrependKeepsPair(x, rest, a', b');
        a, b := a' + 1, b' + 1;
      } else {
        assert r == rest;
        a, b := a', b';
      }
    }
  }

  /** The filter keeps the order of `keys` for every pair of matching records. */
  lemma SelectKeysOrdered(entries: map<string, Variant>, keys: seq<string>, range: Interval)
    requires forall k :: k in keys ==> k in entries
    ensures forall i, j :: 0 <= i < j < |keys| && InRange(range, entries[keys[i]]) && InRange(range, entries[keys[j]]) ==>
              InOrder(SelectKeys(entries, keys, range), entries[keys[i]], entries[keys[j]])
  {
    forall i, j | 0 <= i < j < |keys| && InRange(range, entries[keys[i]]) && InRange(range, entries[keys[j]])
      ensures InOrder(SelectKeys(entries, keys, range), entries[keys[i]], entries[keys[j]])
    {
      var a, b := SelectKeysInOrder(entries, keys, range, i, j);
    }
  }

  /** `x` occurs in `r` before `y` does. */
  predicate InOrder<T(==)>(r: seq<T>, x: T, y: T) {
    exists a, b :: 0 <= a < b < |r| && r[a] == x && r[b] == y
  }

  /** Prepending to `t` shifts positions a < b of `t` by one (a = -1 names the new head). */
  lemma PrependKeepsPair<T>(x: T, t: seq<T>, a: int, b: int)
    requires -1 <= a < b < |t|
    ensures var s := [x] + t;
            0 <= a + 1 < b + 1 < |s| && s[b + 1] == t[b] && s[a + 1] == (if a < 0 then x else t[a])
  {
  }

  lemma {:induction false} SelectKeysDistinct(entries: map<string, Variant>, keys: seq<string>, range: Interval)
    requires forall k :: k in keys ==> k in entries && VariantKey(entries[k]) == k
    requires Distinct(keys)
    ensures Distinct(SelectKeys(entries, keys, range))
    decreases |keys|
  {
    if |keys| > 0 {
      var v := entries[keys[0]];
      var rest := SelectKeys(entries, keys[1..], range);
      SelectKeysStep(entries, keys, range);
      SelectKeysDistinct(entries, keys[1..], range);
      assert v !in rest by {
        SelectKeysMembers(entries, keys[1..], range);
        assert keys[0] !in keys[1..];
      }
      if InRange(range, v) {
        ConsDistinct(v, rest);
      }
    }
  }

  lemma ConsDistinct<T>(x: T, t: seq<T>)
    requires x !in t && Distinct(t)
    ensures Distinct([x] + t)
  {
    var s := [x] + t;
    forall i, j | 0 <= i < j < |s|
      ensures s[i] != s[j]
    {
      assert s[j] == t[j - 1];
      if i > 0 {
        assert s[i] == t[i - 1];
      }
    }
  }

  /** The locus of `v` lies in `range` (chrContainsLocus). */
  predicate InRange(range: Interval, v: Variant) {
    range.ContainsLocus(v.contig, v.position)
  }

  /** `_.filter(variants, v => range.chrContainsLocus(v.contig, v.position))`:
      exactly the stored records whose locus lies in `range`, each once, in
      the order their keys were inserted. */
  function Select(s: Store, range: Interval): (r: seq<Variant>)
    requires s.Valid()
    ensures forall v :: v in r <==> v in s.entries.Values && range.ContainsLocus(v.contig, v.position)
    ensures Distinct(r)
    ensures forall i, j :: 0 <= i < j < |s.order| && InRange(range, s.entries[s.order[i]]) && InRange(range, s.entries[s.order[j]]) ==>
              InOrder(r, s.entries[s.order[i]], s.entries[s.order[j]])
  {
    SelectKeysDistinct(s.entries, s.order, range);
    SelectKeysMembers(s.entries, s.order, range);
    SelectKeysOrdered(s.entries, s.order, range);
    var r := SelectKeys(s.entries, s.order, range);
    assert forall v :: v in s.entries.Values <==> exists k :: k in s.order && s.entries[k] == v by {
      forall v | v in s.entries.Values
        ensures exists k :: k in s.order && s.entries[k] == v
      {
        var k :| k in s.entries && s.entries[k] == v;
        assert k in s.order;
      }
    }
    r
  }
}
