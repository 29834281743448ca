/**
 * Variant records and the identity key the cache stores them under.
 *
 * Only the locus of a variant matters to the cache; the rest of the record
 * is carried as an opaque payload, so that two records for the same locus
 * can differ and "first writer wins" is observable.
 */
module Variants {

  datatype Variant = Variant(contig: string, position: int, payload: string)

  function DigitChar(d: nat): char
    requires d < 10
  {
    (48 + d) as char
  }

  /** Decimal digits of n, most significant first, as a template literal prints it. */
  function NatToString(n: nat): string
    decreases n
  {
    if n < 10 then [DigitChar(n)] else NatToString(n / 10) + [DigitChar(n % 10)]
  }

  /** Decimal rendering of an integer, with a leading '-' when negative. */
  function IntToString(i: int): string {
    if i < 0 then "-" + NatToString(-i) else NatToString(i)
  }

  /** The rendering of n is non-empty, made of digits only, and has a single
      digit exactly when n < 10. */
  lemma {:induction false} NatToStringDigits(n: nat)
    ensures |NatToString(n)| >= 1
    ensures forall i :: 0 <= i < |NatToString(n)| ==> '0' <= NatToString(n)[i] <= '9'
    ensures n >= 10 <==> |NatToString(n)| >= 2
    decreases n
  {
    if n >= 10 {
      NatToStringDigits(n / 10);
    }
  }

  /** The rendering of an integer has no ':' and starts with '-' exactly when negative. */
  lemma IntToStringShape(i: int)
    ensures |IntToString(i)| >= 1
    ensures ':' !in IntToString(i)
    ensures IntToString(i)[0] == '-' <==> i < 0
  {
    if i < 0 {
      NatToStringDigits(-i);
      assert IntToString(i)[1..] == NatToString(-i);
    } else {
      NatToStringDigits(i);
    }
  }

  /** variantKey: the string `contig:position`, which starts with the contig
      followed by ':'. */
  function VariantKey(v: Variant): (r: string)
    ensures |r| > |v.contig| && r[..|v.contig|] == v.contig && r[|v.contig|] == ':'
  {
    v.contig + ":" + IntToString(v.position)
  }

  lemma {:induction false} NatToStringInjective(a: nat, b: nat)
    requires NatToString(a) == NatToString(b)
    ensures a == b
    decreases a
  {
    var s := NatToString(a);
    NatToStringDigits(a);
    NatToStringDigits(b);
    if a >= 10 && b >= 10 {
      assert DigitChar(a % 10) == s[|s| - 1] == DigitChar(b % 10);
      assert NatToString(a / 10) == s[..|s| - 1] == NatToString(b / 10);
      NatToStringInjective(a / 10, b / 10);
    } else if a < 10 && b < 10 {
      assert DigitChar(a) == s[0] == DigitChar(b);
    }
  }

  lemma IntToStringInjective(a: int, b: int)
    requires IntToString(a) == IntToString(b)
    ensures a == b
  {
    var s := IntToString(a);
    IntToStringShape(a);
    IntToStringShape(b);
    if a < 0 {
      assert NatToString(-a) == s[1..] == NatToString(-b);
      NatToStringInjective(-a, -b);
    } else {
      NatToStringInjective(a, b);
    }
  }

  /** In `c + ":" + s` with no ':' in `s`, the last ':' sits at index |c|. */
  lemma LastColon(c: string, s: string)
    requires ':' !in s
    ensures (c + ":" + s)[|c|] == ':'
    ensures forall i :: |c| < i < |c + ":" + s| ==> (c + ":" + s)[i] != ':'
  {
    var w := c + ":" + s;
    forall i | |c| < i < |w|
      ensures w[i] != ':'
    {
      assert w[i] == s[i - |c| - 1];
    }
  }

  /** The text after the last ':' of `c + ":" + s` is `s` when `s` has no ':'. */
  lemma SplitAtLastColon(c1: string, s1: string, c2: string, s2: string)
    requires ':' !in s1 && ':' !in s2
    requires c1 + ":" + s1 == c2 + ":" + s2
    ensures c1 == c2 && s1 == s2
  {
    var w := c1 + ":" + s1;
    LastColon(c1, s1);
    LastColon(c2, s2);
    assert |c1| == |c2|;
    assert s1 == w[|c1| + 1..];
    assert c1 == w[..|c1|];
  }

  /** Two variants share a key exactly when they share a locus: the cache
      holds at most one record per (contig, position). */
  lemma VariantKeyIdentifiesLocus(a: Variant, b: Variant)
    ensures VariantKey(a) == VariantKey(b) <==> a.contig == b.contig && a.position == b.position
  {
    if VariantKey(a) == VariantKey(b) {
      IntToStringShape(a.position);
      IntToStringShape(b.position);
      SplitAtLastColon(a.contig, IntToString(a.position), b.contig, IntToString(b.position));
      IntToStringInjective(a.position, b.position);
    }
  }
}
