/**
 * Genomic intervals as the cache consumes them: containment of a locus,
 * containment of an interval, outward rounding to a granularity, coalescing
 * a list of intervals, and the "is this interval already covered" test.
 *
 * The interval type the cache imports is not part of this model; this module
 * gives each operation a concrete definition and proves the contract the
 * cache relies on. Intervals are half-open: the loci of
 * `Interval(c, start, stop)` are the positions p on contig c with
 * start <= p < stop, and the interval is empty when stop <= start.
 */
module Intervals {

  datatype Interval = Interval(contig: string, start: int, stop: int) {

    predicate IsEmpty() {
      stop <= start
    }

    /** chrContainsLocus: the locus (c, pos) lies in this interval. */
    predicate ContainsLocus(c: string, pos: int) {
      c == contig && start <= pos < stop
    }

    /** Every locus of `other` is a locus of this interval. */
    predicate ContainsInterval(other: Interval) {
      other.IsEmpty() || (other.contig == contig && start <= other.start && other.stop <= stop)
    }
  }

  /** ContainsInterval is exactly inclusion of the sets of loci. */
  lemma ContainsIntervalMeansLoci(outer: Interval, inner: Interval)
    ensures outer.ContainsInterval(inner) <==>
            forall p :: inner.ContainsLocus(inner.contig, p) ==> outer.ContainsLocus(inner.contig, p)
  {
    if !inner.IsEmpty() && forall p :: inner.ContainsLocus(inner.contig, p) ==> outer.ContainsLocus(inner.contig, p) {
      assert inner.ContainsLocus(inner.contig, inner.start);
      assert inner.ContainsLocus(inner.contig, inner.stop - 1);
    }
  }

  // ---------------------------------------------------------------------------
  // Rounding
  // ---------------------------------------------------------------------------

  /** The largest multiple of n that is at most x (Dafny's % is never negative for n > 0). */
  function FloorTo(x: int, n: int): (r: int)
    requires n > 0
    ensures r % n == 0
    ensures r <= x < r + n
  {
    MultipleHasNoRemainder(x / n, n);
    x - x % n
  }

  /** The smallest multiple of n that is at least x. */
  function CeilTo(x: int, n: int): (r: int)
    requires n > 0
    ensures r % n == 0
    ensures r - n < x <= r
  {
    if x % n == 0 then x
    else
      MultipleHasNoRemainder(x / n + 1, n);
      x - x % n + n
  }

  lemma MultipleHasNoRemainder(q: int, n: int)
    requires n > 0
    ensures (q * n) % n == 0
  {
    var m := q * n;
    var d, r := m / n, m % n;
    assert m == n * d + r && 0 <= r < n;
    assert n * (q - d) == r;
    if q - d >= 1 {
      MulAtLeast(n, q - d);
    } else if q - d <= -1 {
      MulAtLeast(n, d - q);
    }
  }

  lemma MulAtLeast(n: int, k: int)
    requires n > 0 && k >= 1
    ensures n * k >= n
  {
  }

  /** Two multiples of n that differ, differ by at least n. */
  lemma MultiplesAreApart(a: int, b: int, n: int)
    requires n > 0 && a % n == 0 && b % n == 0 && b < a
    ensures b + n <= a
  {
    var qa, qb := a / n, b / n;
    assert a == n * qa && b == n * qb;
    assert n * (qa - qb) == a - b;
    if qa - qb >= 1 {
      MulAtLeast(n, qa - qb);
    } else {
      MulAtLeast(n, qb - qa + 1);
    }
  }

  /** round: widen `i` outward so that both ends are multiples of n. */
  function Round(i: Interval, n: int): (r: Interval)
    requires n > 0
    ensures r.contig == i.contig
    ensures r.start % n == 0 && r.stop % n == 0
    ensures r.start <= i.start < r.start + n
    ensures r.stop - n < i.stop <= r.stop
    ensures r.ContainsInterval(i)
  {
    Interval(i.contig, FloorTo(i.start, n), CeilTo(i.stop, n))
  }

  /** Rounding is the tightest widening: every n-aligned interval that holds
      `i` also holds Round(i, n). */
  lemma RoundIsTightest(i: Interval, n: int, j: Interval)
    requires n > 0
    requires j.contig == i.contig && j.start % n == 0 && j.stop % n == 0
    requires j.start <= i.start && i.stop <= j.stop
    ensures j.start <= Round(i, n).start && Round(i, n).stop <= j.stop
  {
    var r := Round(i, n);
    if r.start < j.start {
      MultiplesAreApart(j.start, r.start, n);
    }
    if j.stop < r.stop {
      MultiplesAreApart(r.stop, j.stop, n);
    }
  }

  // ---------------------------------------------------------------------------
  // Coverage by a list of intervals
  // ---------------------------------------------------------------------------

  /** The locus (c, pos) lies in some interval of `cs`: the union of `cs`. */
  ghost predicate Covers(cs: seq<Interval>, c: string, pos: int) {
    exists j :: 0 <= j < |cs| && cs[j].ContainsLocus(c, pos)
  }

  /** isCoveredBy: a single interval of `cs` holds all of `i`. On a coalesced
      list this is the same as `i` lying inside the union of `cs`
      (CoveredByMeansUnion). */
  function IsCoveredBy(i: Interval, cs: seq<Interval>): (r: bool)
    ensures i.IsEmpty() ==> r
    ensures |cs| == 0 ==> (r <==> i.IsEmpty())
  {
    i.IsEmpty() || exists j :: 0 <= j < |cs| && cs[j].ContainsInterval(i)
  }

  /** Coalesced: no empty interval, and on each contig the intervals appear in
      increasing order with at least one uncovered locus between neighbours
      (no two overlap or abut). */
  predicate Coalesced(cs: seq<Interval>) {
    && (forall j :: 0 <= j < |cs| ==> !cs[j].IsEmpty())
    && (forall i, j :: 0 <= i < j < |cs| && cs[i].contig == cs[j].contig ==> cs[i].stop < cs[j].start)
  }

  /** Every interval of `cs` on contig c starts after position b. */
  predicate StartsAbove(cs: seq<Interval>, c: string, b: int) {
    forall j :: 0 <= j < |cs| && cs[j].contig == c ==> b < cs[j].start
  }

  lemma CoveredImpliesUnion(i: Interval, cs: seq<Interval>)
    requires IsCoveredBy(i, cs)
    ensures forall p :: i.ContainsLocus(i.contig, p) ==> Covers(cs, i.contig, p)
  {
    if !i.IsEmpty() {
      var j :| 0 <= j < |cs| && cs[j].ContainsInterval(i);
      forall p | i.ContainsLocus(i.contig, p)
        ensures Covers(cs, i.contig, p)
      {
        assert cs[j].ContainsLocus(i.contig, p);
      }
    }
  }

  /** On a coalesced list, isCoveredBy is exactly "every locus of `i` is in the union". */
  lemma CoveredByMeansUnion(i: Interval, cs: seq<Interval>)
    requires Coalesced(cs)
    ensures IsCoveredBy(i, cs) <==> forall p :: i.ContainsLocus(i.contig, p) ==> Covers(cs, i.contig, p)
  {
    if IsCoveredBy(i, cs) {
      CoveredImpliesUnion(i, cs);
    } else if forall p :: i.ContainsLocus(i.contig, p) ==> Covers(cs, i.contig, p) {
      assert i.ContainsLocus(i.contig, i.start);
      var j :| 0 <= j < |cs| && cs[j].ContainsLocus(i.contig, i.start);
      assert !cs[j].ContainsInterval(i);
      var p := cs[j].stop;
      assert i.ContainsLocus(i.contig, p);
      assert false;
    }
  }

  /** A sub-interval of a covered interval is covered. */
  lemma CoveredBySubinterval(inner: Interval, outer: Interval, cs: seq<Interval>)
    requires outer.ContainsInterval(inner)
    ensures IsCoveredBy(outer, cs) ==> IsCoveredBy(inner, cs)
  {
    if !inner.IsEmpty() && IsCoveredBy(outer, cs) {
      var j :| 0 <= j < |cs| && cs[j].ContainsInterval(outer);
      assert cs[j].ContainsInterval(inner);
    }
  }

  lemma CoversAppend(a: seq<Interval>, b: seq<Interval>, c: string, pos: int)
    ensures Covers(a + b, c, pos) <==> Covers(a, c, pos) || Covers(b, c, pos)
  {
    if Covers(a + b, c, pos) {
      var j :| 0 <= j < |a + b| && (a + b)[j].ContainsLocus(c, pos);
      if j >= |a| {
        assert b[j - |a|].ContainsLocus(c, pos);
      }
    }
    if Covers(a, c, pos) {
      var j :| 0 <= j < |a| && a[j].ContainsLocus(c, pos);
      assert (a + b)[j] == a[j];
    }
    if Covers(b, c, pos) {
      var j :| 0 <= j < |b| && b[j].ContainsLocus(c, pos);
      assert (a + b)[|a| + j] == b[j];
    }
  }

  lemma CoalescedTail(cs: seq<Interval>)
    requires Coalesced(cs) && |cs| > 0
    ensures Coalesced(cs[1..])
    ensures StartsAbove(cs[1..], cs[0].contig, cs[0].stop)
  {
    forall j | 0 <= j < |cs[1..]| && cs[1..][j].contig == cs[0].contig
      ensures cs[0].stop < cs[1..][j].start
    {
      assert cs[1..][j] == cs[j + 1];
    }
  }

  lemma CoalescedCons(c: Interval, t: seq<Interval>)
    requires !c.IsEmpty() && Coalesced(t) && StartsAbove(t, c.contig, c.stop)
    ensures Coalesced([c] + t)
  {
    var s := [c] + t;
    forall i, j | 0 <= i < j < |s| && s[i].contig == s[j].contig
      ensures s[i].stop < s[j].start
    {
      assert s[j] == t[j - 1];
      if i > 0 {
        assert s[i] == t[i - 1];
      }
    }
  }

  // ---------------------------------------------------------------------------
  // Coalescing
  // ---------------------------------------------------------------------------

  /** The smallest interval holding both a and b. */
  function Hull(a: Interval, b: Interval): Interval
    requires a.contig == b.contig
  {
    Interval(a.contig, if a.start <= b.start then a.start else b.start,
                       if a.stop >= b.stop then a.stop else b.stop)
  }

  /** Adds `x` to the coalesced list `cs`: intervals of `cs` that overlap or
      abut `x` are merged into it, and the result takes its place in the
      contig's order. */
  function Insert(x: Interval, cs: seq<Interval>): seq<Interval>
    decreases |cs|
  {
    if x.IsEmpty() then cs
    else if |cs| == 0 then [x]
    else
      var c := cs[0];
      if c.contig != x.contig || c.stop < x.start then [c] + Insert(x, cs[1..])
      else if x.stop < c.start then [x] + cs
      else if c.ContainsInterval(x) then cs
      else Insert(Hull(c, x), cs[1..])
  }

  lemma {:induction false} InsertStartsAbove(x: Interval, cs: seq<Interval>, c: string, b: int)
    requires StartsAbove(cs, c, b)
    requires x.contig == c && !x.IsEmpty() ==> b < x.start
    ensures StartsAbove(Insert(x, cs), c, b)
    decreases |cs|
  {
    if x.IsEmpty() || |cs| == 0 {
    } else {
      var h := cs[0];
      assert StartsAbove(cs[1..], c, b) by {
        forall j | 0 <= j < |cs[1..]| && cs[1..][j].contig == c
          ensures b < cs[1..][j].start
        {
          assert cs[1..][j] == cs[j + 1];
        }
      }
      if h.contig != x.contig || h.stop < x.start {
        InsertStartsAbove(x, cs[1..], c, b);
        var t := Insert(x, cs[1..]);
        forall j | 0 <= j < |[h] + t| && ([h] + t)[j].contig == c
          ensures b < ([h] + t)[j].start
        {
          if j > 0 {
            assert ([h] + t)[j] == t[j - 1];
          } else {
            assert cs[0].contig == c;
          }
        }
      } else if x.stop < h.start {
        forall j | 0 <= j < |[x] + cs| && ([x] + cs)[j].contig == c
          ensures b < ([x] + cs)[j].start
        {
          if j > 0 {
            assert ([x] + cs)[j] == cs[j - 1];
          }
        }
      } else if h.ContainsInterval(x) {
      } else {
        if h.contig == c {
          assert cs[0].contig == c;
        }
        InsertStartsAbove(Hull(h, x), cs[1..], c, b);
      }
    }
  }

  /** Insert keeps a list coalesced. */
  lemma {:induction false} InsertCoalesced(x: Interval, cs: seq<Interval>)
    requires Coalesced(cs)
    ensures Coalesced(Insert(x, cs))
    decreases |cs|
  {
    if x.IsEmpty() || |cs| == 0 {
    } else {
      var c := cs[0];
      CoalescedTail(cs);
      if c.contig != x.contig || c.stop < x.start {
        InsertCoalesced(x, cs[1..]);
        InsertStartsAbove(x, cs[1..], c.contig, c.stop);
        CoalescedCons(c, Insert(x, cs[1..]));
      } else if x.stop < c.start {
        assert StartsAbove(cs, x.contig, x.stop) by {
          forall j | 0 <= j < |cs| && cs[j].contig == x.contig
            ensures x.stop < cs[j].start
          {
            if j > 0 {
              assert cs[0].stop < cs[j].start;
            }
          }
        }
        CoalescedCons(x, cs);
      } else if c.ContainsInterval(x) {
      } else {
        InsertCoalesced(Hull(c, x), cs[1..]);
      }
    }
  }

  /** Insert adds exactly the loci of `x` to the union. */
  lemma {:induction false} InsertCoversLocus(x: Interval, cs: seq<Interval>, k: string, p: int)
    ensures Covers(Insert(x, cs), k, p) <==> Covers(cs, k, p) || x.ContainsLocus(k, p)
    decreases |cs|
  {
    if x.IsEmpty() {
    } else if |cs| == 0 {
      assert [x][0] == x;
    } else {
      var c := cs[0];
      assert cs == [c] + cs[1..];
      CoversAppend([c], cs[1..], k, p);
      assert Covers([c], k, p) <==> c.ContainsLocus(k, p) by {
        if c.ContainsLocus(k, p) {
          assert [c][0] == c;
        }
      }
      if c.contig != x.contig || c.stop < x.start {
        InsertCoversLocus(x, cs[1..], k, p);
        CoversAppend([c], Insert(x, cs[1..]), k, p);
      } else if x.stop < c.start {
        CoversAppend([x], cs, k, p);
        assert Covers([x], k, p) <==> x.ContainsLocus(k, p) by {
          if x.ContainsLocus(k, p) {
            assert [x][0] == x;
          }
        }
      } else if c.ContainsInterval(x) {
        if x.ContainsLocus(k, p) {
          assert c.ContainsLocus(k, p);
        }
      } else {
        InsertCoversLocus(Hull(c, x), cs[1..], k, p);
      }
    }
  }

  lemma InsertCovers(x: Interval, cs: seq<Interval>)
    ensures forall k, p :: Covers(Insert(x, cs), k, p) <==> Covers(cs, k, p) || x.ContainsLocus(k, p)
  {
    forall k, p
      ensures Covers(Insert(x, cs), k, p) <==> Covers(cs, k, p) || x.ContainsLocus(k, p)
    {
      InsertCoversLocus(x, cs, k, p);
    }
  }

  /** An interval placed after everything on its contig is appended at the end. */
  lemma {:induction false} InsertAppends(x: Interval, cs: seq<Interval>)
    requires !x.IsEmpty()
    requires forall j :: 0 <= j < |cs| && cs[j].contig == x.contig ==> cs[j].stop < x.start
    ensures Insert(x, cs) == cs + [x]
    decreases |cs|
  {
    if |cs| > 0 {
      InsertAppends(x, cs[1..]);
      assert cs == [cs[0]] + cs[1..];
    }
  }

  /** Inserting an interval that is already covered changes nothing. */
  lemma {:induction false} InsertAbsorbed(x: Interval, cs: seq<Interval>)
    requires Coalesced(cs) && IsCoveredBy(x, cs)
    ensures Insert(x, cs) == cs
    decreases |cs|
  {
    if !x.IsEmpty() {
      if cs[0].ContainsInterval(x) {
        InsertIntoHead(x, cs);
      } else {
        AbsorbedInTail(x, cs);
        InsertAbsorbed(x, cs[1..]);
        ConsTail(cs);
      }
    }
  }

  lemma ConsTail<T>(s: seq<T>)
    requires |s| > 0
    ensures [s[0]] + s[1..] == s
  {
  }

  /** An interval covered by a later element passes the head of the list. */
  lemma AbsorbedInTail(x: Interval, cs: seq<Interval>)
    requires Coalesced(cs) && IsCoveredBy(x, cs) && !x.IsEmpty() && !cs[0].ContainsInterval(x)
    ensures Coalesced(cs[1..]) && IsCoveredBy(x, cs[1..])
    ensures Insert(x, cs) == [cs[0]] + Insert(x, cs[1..])
  {
    var j :| 0 <= j < |cs| && cs[j].ContainsInterval(x);
    InsertPassesHead(x, cs, j);
    CoalescedTail(cs);
    assert cs[1..][j - 1] == cs[j];
  }

  lemma InsertIntoHead(x: Interval, cs: seq<Interval>)
    requires !x.IsEmpty() && |cs| > 0 && cs[0].ContainsInterval(x)
    ensures Insert(x, cs) == cs
  {
  }

  lemma InsertPassesHead(x: Interval, cs: seq<Interval>, j: int)
    requires !x.IsEmpty() && Coalesced(cs) && 0 < j < |cs| && cs[j].ContainsInterval(x)
    ensures Insert(x, cs) == [cs[0]] + Insert(x, cs[1..])
  {
    if cs[0].contig == x.contig {
      assert cs[0].stop < cs[j].start;
    }
  }

  /** coalesce: merges a list into a coalesced list with the same union. */
  function Coalesce(s: seq<Interval>): (r: seq<Interval>)
    ensures Coalesced(r)
    ensures forall k, p :: Covers(r, k, p) <==> Covers(s, k, p)
    decreases |s|
  {
    if |s| == 0 then []
    else
      var init, last := s[..|s| - 1], s[|s| - 1];
      var prefix := Coalesce(init);
      InsertCoalesced(last, prefix);
      InsertCovers(last, prefix);
      assert s == init + [last];
      assert forall k, p :: Covers(s, k, p) <==> Covers(init, k, p) || last.ContainsLocus(k, p) by {
        forall k, p
          ensures Covers(s, k, p) <==> Covers(init, k, p) || last.ContainsLocus(k, p)
        {
          CoversAppend(init, [last], k, p);
          if last.ContainsLocus(k, p) {
            assert [last][0] == last;
          }
        }
      }
      Insert(last, prefix)
  }

  /** Coalescing a list that is already coalesced returns it unchanged. */
  lemma {:induction false} CoalesceIdempotent(cs: seq<Interval>)
    requires Coalesced(cs)
    ensures Coalesce(cs) == cs
    decreases |cs|
  {
    if |cs| > 0 {
      var init, last := cs[..|cs| - 1], cs[|cs| - 1];
      assert Coalesced(init);
      CoalesceIdempotent(init);
      assert forall j :: 0 <= j < |init| && init[j].contig == last.contig ==> init[j].stop < last.start by {
        forall j | 0 <= j < |init| && init[j].contig == last.contig
          ensures init[j].stop < last.start
        {
          assert init[j] == cs[j];
        }
      }
      InsertAppends(last, init);
      assert init + [last] == cs;
    }
  }

  /** The update of lines 60-61: push `x` onto the covered list, then coalesce. */
  function MarkCovered(cs: seq<Interval>, x: Interval): (r: seq<Interval>)
    ensures Coalesced(r)
    ensures forall k, p :: Covers(r, k, p) <==> Covers(cs, k, p) || x.ContainsLocus(k, p)
    ensures IsCoveredBy(x, r)
    ensures forall y :: IsCoveredBy(y, cs) ==> IsCoveredBy(y, r)
  {
    var r := Coalesce(cs + [x]);
    assert forall k, p :: Covers(r, k, p) <==> Covers(cs, k, p) || x.ContainsLocus(k, p) by {
      forall k, p
        ensures Covers(r, k, p) <==> Covers(cs, k, p) || x.ContainsLocus(k, p)
      {
        CoversAppend(cs, [x], k, p);
        if x.ContainsLocus(k, p) {
          assert [x][0] == x;
        }
      }
    }
    CoveredByMeansUnion(x, r);
    forall y | IsCoveredBy(y, cs)
      ensures IsCoveredBy(y, r)
    {
      CoveredImpliesUnion(y, cs);
      CoveredByMeansUnion(y, r);
    }
    r
  }

  /** Marking the same interval covered twice gives the same list as marking it once. */
  lemma MarkCoveredIdempotent(cs: seq<Interval>, x: Interval)
    ensures MarkCovered(MarkCovered(cs, x), x) == MarkCovered(cs, x)
  {
    var m := MarkCovered(cs, x);
    assert (m + [x])[..|m|] == m;
    CoalesceIdempotent(m);
    InsertAbsorbed(x, m);
  }
}
