/** Bitmaps of 32 slots as natural numbers, and `popCount`.
  *
  * `bitmap & (1 << d)` is bit `d`, and `popCount(bitmap & (1 << d) - 1)` is the
  * place in the node array of the child in slot `d`.
  */
module Bitmaps {
  import opened Basics

  /** `!!(b & (1 << d))` */
  predicate Has(b: nat, d: nat) {
    if d == 0 then b % 2 == 1 else Has(b / 2, d - 1)
  }

  /** `b & (1 << d) - 1` */
  function Below(b: nat, d: nat): nat {
    b % Pow2(d)
  }

  /** `x & 0x55555555`, `x & 0x33333333` and `x & 0x0F0F0F0F`, for `n` fields. */
  function Keep1of2(x: nat, n: nat): nat {
    if n == 0 then 0 else x % 2 + 4 * Keep1of2(x / 4, n - 1)
  }

  function Keep2of4(x: nat, n: nat): nat {
    if n == 0 then 0 else x % 4 + 16 * Keep2of4(x / 16, n - 1)
  }

  function Keep4of8(x: nat, n: nat): nat {
    if n == 0 then 0 else x % 16 + 256 * Keep4of8(x / 256, n - 1)
  }

  /** `popCount` on the bits of a 32-bit word. */
  function PopCount(b: nat): int {
    var t1 := b - Keep1of2(b / 2, 16);
    var t2 := Keep2of4(Nat(t1), 8) + Keep2of4(Nat(t1) / 4, 8);
    var t3 := Keep4of8(t2 + t2 / 16, 4);
    var t4 := t3 + t3 / 256;
    var t5 := t4 + t4 / 65536;
    t5 % 128
  }

  function Nat(x: int): nat {
    if x < 0 then 0 else x
  }

  /** The number of bits set. */
  function Bits(b: nat): nat {
    if b == 0 then 0 else b % 2 + Bits(b / 2)
  }

  // ------------------------------------- fields of 2, 4 and 8 bits, each a count

  function Pow4(n: nat): nat {
    if n == 0 then 1 else 4 * Pow4(n - 1)
  }

  function Two(x: nat): (r: nat)
    ensures r <= 2
  {
    x % 2 + x / 2 % 2
  }

  function Four(x: nat): (r: nat)
    ensures r <= 4
  {
    Two(x) + Two(x / 4)
  }

  function Eight(x: nat): (r: nat)
    ensures r <= 8
  {
    Four(x) + Four(x / 16)
  }

  function Pairs(x: nat, n: nat): nat {
    if n == 0 then 0 else Two(x) + 4 * Pairs(x / 4, n - 1)
  }

  function Nibbles(x: nat, n: nat): nat {
    if n == 0 then 0 else Four(x) + 16 * Nibbles(x / 16, n - 1)
  }

  lemma NibblesLow(x: nat, n: nat)
    ensures Nibbles(x, n) % 16 <= 4
  {
    hide Four;
  }

  function Octets(x: nat, n: nat): nat {
    if n == 0 then 0 else Eight(x) + 256 * Octets(x / 256, n - 1)
  }

  lemma {:induction false} PairsOf(x: nat, n: nat)
    requires x < Pow4(n)
    ensures x - Keep1of2(x / 2, n) == Pairs(x, n)
  {
    if n > 0 {
      PairStep(x);
      PairsOf(x / 4, n - 1);
    }
  }

  lemma PairStep(x: nat)
    ensures x == 4 * (x / 4) + x % 2 + 2 * (x / 2 % 2) && x / 2 / 4 == x / 4 / 2
  {
    var p: nat, b: nat := x / 2, x % 2;
    var q: nat, c: nat := p / 2, p % 2;
    QuotientIs(x, 4, q, 2 * c + b);
    QuotientIs(p, 4, q / 2, 2 * (q % 2) + c);
  }

  lemma {:induction false} NibblesOf(x: nat, n: nat)
    ensures var t := Pairs(x, 2 * n); Keep2of4(t, n) + Keep2of4(t / 4, n) == Nibbles(x, n)
  {
    hide Two, Pairs, Keep2of4, Nibbles, Four;
    var t := Pairs(x, 2 * n);
    if n == 0 {
      NoFields(x);
    } else {
      TwoPairs(x, 2 * n);
      NibbleStep(t, Two(x), Two(x / 4), Pairs(x / 16, 2 * n - 2));
      Keep2Step(t, n);
      Keep2Step(t / 4, n);
      NibblesOf(x / 16, n - 1);
      FieldsStep(x, n);
    }
  }

  lemma NoFields(x: nat)
    ensures Pairs(x, 0) == Nibbles(x, 0) == Octets(x, 0) == Keep2of4(x, 0) == Keep4of8(x, 0) == 0
    ensures Keep2of4(0, 0) == Keep4of8(0, 0) == 0
  {
  }

  lemma FieldsStep(x: nat, n: nat)
    requires n > 0
    ensures Nibbles(x, n) == Two(x) + Two(x / 4) + 16 * Nibbles(x / 16, n - 1)
    ensures Octets(x, n) == Four(x) + Four(x / 16) + 256 * Octets(x / 256, n - 1)
  {
    hide Two;
  }

  lemma TwoPairs(x: nat, n: nat)
    requires n >= 2
    ensures Pairs(x, n) == Two(x) + 4 * (Two(x / 4) + 4 * Pairs(x / 16, n - 2))
  {
    hide Two;
    assert x / 4 / 4 == x / 16;
    assert Pairs(x / 4, n - 1) == Two(x / 4) + 4 * Pairs(x / 16, n - 2);
  }

  lemma Keep2Step(y: nat, n: nat)
    requires n > 0
    ensures Keep2of4(y, n) == y % 4 + 16 * Keep2of4(y / 16, n - 1)
  {
  }

  lemma NibbleStep(t: nat, a: nat, b: nat, u: nat)
    requires a <= 2 && b <= 2 && t == a + 4 * (b + 4 * u)
    ensures t % 4 == a && t / 4 % 4 == b && t / 16 == u && t / 4 / 16 == u / 4
  {
    assert t / 4 == b + 4 * u;
  }

  lemma {:induction false} OctetsOf(x: nat, n: nat)
    ensures var t := Nibbles(x, 2 * n); Keep4of8(t + t / 16, n) == Octets(x, n)
  {
    hide Two, Four, Nibbles, Keep4of8, Octets, Eight;
    var t := Nibbles(x, 2 * n);
    if n == 0 {
      NoFields(x);
    } else {
      var u := Nibbles(x / 256, 2 * n - 2);
      NibblesLow(x / 256, 2 * n - 2);
      TwoNibbles(x, 2 * n);
      OctetStep(t, Four(x), Four(x / 16), u);
      Keep4Step(t + t / 16, n);
      OctetsOf(x / 256, n - 1);
      FieldsStep(x, n);
    }
  }

  lemma TwoNibbles(x: nat, n: nat)
    requires n >= 2
    ensures Nibbles(x, n) == Four(x) + 16 * (Four(x / 16) + 16 * Nibbles(x / 256, n - 2))
  {
    hide Four;
    assert x / 16 / 16 == x / 256;
    assert Nibbles(x / 16, n - 1) == Four(x / 16) + 16 * Nibbles(x / 256, n - 2);
  }

  lemma Keep4Step(y: nat, n: nat)
    requires n > 0
    ensures Keep4of8(y, n) == y % 16 + 256 * Keep4of8(y / 256, n - 1)
  {
  }

  lemma OctetStep(t: nat, a: nat, b: nat, u: nat)
    requires a <= 4 && b <= 4 && u % 16 <= 4 && t == a + 16 * (b + 16 * u)
    ensures (t + t / 16) % 16 == a + b && (t + t / 16) / 256 == u + u / 16
  {
    assert t / 16 == b + 16 * u;
  }

  /** Four counts of at most 8, summed in the lowest byte. */
  lemma SumOctets(x: nat)
    ensures var t3 := Octets(x, 4);
      var t4 := t3 + t3 / 256;
      (t4 + t4 / 65536) % 128 == Eight(x) + Eight(x / 256) + Eight(x / 65536) + Eight(x / 16777216)
  {
    hide Eight;
    var a, b, c, d := Eight(x), Eight(x / 256), Eight(x / 65536), Eight(x / 16777216);
    assert x / 256 / 256 == x / 65536 && x / 65536 / 256 == x / 16777216;
    var t := Octets(x, 4);
    assert t == a + 256 * Octets(x / 256, 3);
    assert Octets(x / 256, 3) == b + 256 * Octets(x / 65536, 2);
    assert Octets(x / 65536, 2) == c + 256 * Octets(x / 16777216, 1);
    assert Octets(x / 16777216, 1) == d + 256 * Octets(x / 16777216 / 256, 0);
    assert t == a + 256 * (b + 256 * (c + 256 * d));
    SumBytes(t, a, b, c, d);
  }

  lemma SumBytes(t: nat, a: nat, b: nat, c: nat, d: nat)
    requires a <= 8 && b <= 8 && c <= 8 && d <= 8 && t == a + 256 * b + 65536 * c + 16777216 * d
    ensures var t4 := t + t / 256; (t4 + t4 / 65536) % 128 == a + b + c + d
  {
    QuotientIs(t, 256, b + 256 * c + 65536 * d, a);
    var t4 := t + t / 256;
    QuotientIs(t4, 65536, c + d + 256 * d, a + b + 256 * (b + c));
    QuotientIs(t4 + t4 / 65536, 128, 2 * (b + c) + 512 * (c + d + 256 * d) + 2 * d, a + b + c + d);
  }

  lemma BitsShift(x: nat)
    ensures Bits(x) == x % 2 + Bits(x / 2)
  {
  }

  lemma BitsFour(x: nat)
    ensures Bits(x) == Four(x) + Bits(x / 16)
  {
    BitsShift(x);
    BitsShift(x / 2);
    BitsShift(x / 4);
    BitsShift(x / 8);
    assert x / 2 / 2 == x / 4 && x / 4 / 2 == x / 8 && x / 8 / 2 == x / 16;
  }

  lemma BitsEight(x: nat)
    ensures Bits(x) == Eight(x) + Bits(x / 256)
  {
    BitsFour(x);
    BitsFour(x / 16);
    assert x / 16 / 16 == x / 256;
  }

  /** `popCount` counts the bits of a 32-bit word. */
  lemma PopCountIsBits(b: nat)
    requires b < 0x1_0000_0000
    ensures PopCount(b) == Bits(b)
  {
    hide Bits, Eight, Keep1of2, Keep2of4, Keep4of8, Pairs, Nibbles, Octets, Four, Two, Pow4;
    Pow4Sixteen();
    PairsOf(b, 16);
    assert b - Keep1of2(b / 2, 16) == Pairs(b, 16);
    NibblesOf(b, 8);
    OctetsOf(b, 4);
    SumOctets(b);
    BitsWord(b);
  }

  lemma BitsWord(b: nat)
    requires b < 0x1_0000_0000
    ensures Bits(b) == Eight(b) + Eight(b / 256) + Eight(b / 65536) + Eight(b / 16777216)
  {
    hide Eight, Bits;
    BitsEight(b);
    BitsEight(b / 256);
    BitsEight(b / 65536);
    BitsEight(b / 16777216);
    assert b / 256 / 256 == b / 65536 && b / 65536 / 256 == b / 16777216;
    BitsZero(b / 16777216 / 256);
  }

  lemma BitsZero(b: nat)
    requires b == 0
    ensures Bits(b) == 0
  {
  }

  lemma Pow4Sixteen()
    ensures Pow4(16) == 0x1_0000_0000
  {
    assert Pow4(4) == 256;
    assert Pow4(8) == 4 * (4 * (4 * (4 * Pow4(4))));
    assert Pow4(12) == 4 * (4 * (4 * (4 * Pow4(8))));
    assert Pow4(16) == 4 * (4 * (4 * (4 * Pow4(12))));
  }

  // ----------------------------------------------------- the place of a child

  /** `b | (1 << d)`, for a bit that is not set. */
  function With(b: nat, d: nat): nat {
    b + Pow2(d)
  }

  /** `b ^ (1 << d)`, for a bit that is set. */
  function Without(b: nat, d: nat): (r: nat)
    requires Has(b, d)
  {
    HasAtLeast(b, d);
    b - Pow2(d)
  }

  /** Place of slot `d` in the node array. */
  function Rank(b: nat, d: nat): nat
    decreases d
  {
    if d == 0 then 0 else b % 2 + Rank(b / 2, d - 1)
  }

  lemma {:induction false} HasAtLeast(b: nat, d: nat)
    requires Has(b, d)
    ensures b >= Pow2(d)
  {
    if d > 0 {
      HasAtLeast(b / 2, d - 1);
    }
  }

  /** `popCount(b & (1 << d) - 1)` counts the slots below `d`. */
  lemma RankIsPopCount(b: nat, d: nat)
    requires b < 0x1_0000_0000
    ensures Below(b, d) < 0x1_0000_0000 && PopCount(Below(b, d)) == Rank(b, d)
  {
    assert Below(b, d) <= b by { ModAtMost(b, Pow2(d)); }
    PopCountIsBits(Below(b, d));
    BitsBelow(b, d);
  }

  lemma ModAtMost(b: nat, p: nat)
    requires p > 0
    ensures b % p <= b
  {
    if b < p {
      ModUnique(b, p, 0, b);
    }
  }

  lemma {:induction false} BitsBelow(b: nat, d: nat)
    ensures Bits(Below(b, d)) == Rank(b, d)
  {
    if d > 0 {
      BelowHalf(b, d);
      BitsShift(Below(b, d));
      BitsBelow(b / 2, d - 1);
      hide Below, Bits;
    }
  }

  lemma BelowHalf(b: nat, d: nat)
    requires d > 0
    ensures Below(b, d) % 2 == b % 2 && Below(b, d) / 2 == Below(b / 2, d - 1)
  {
    ModHalf(b, Pow2(d - 1));
  }

  lemma ModHalf(b: nat, p: nat)
    requires p > 0
    ensures b % (2 * p) == b % 2 + 2 * (b / 2 % p)
  {
    var y, q := b / 2 % p, b / 2 / p;
    assert b == q * (2 * p) + (b % 2 + 2 * y) by {
      assert b / 2 == q * p + y;
      assert q * (2 * p) == 2 * (q * p);
    }
    ModUnique(b, 2 * p, q, b % 2 + 2 * y);
  }

  lemma ModUnique(x: nat, d: int, q: nat, r: nat)
    requires 0 <= r < d && x == q * d + r
    ensures x % d == r
  {
    var e := x / d - q;
    assert e * d == x / d * d - q * d;
    assert -d < e * d < d;
    MulSmall(e, d);
  }

  lemma MulSmall(e: int, d: int)
    requires -d < e * d < d
    ensures e == 0
  {
  }

  /** Setting or clearing bit `d` changes that bit only. */
  lemma {:induction false} HasWith(b: nat, d: nat, e: nat)
    requires !Has(b, d)
    ensures Has(With(b, d), e) <==> Has(b, e) || e == d
    ensures Rank(With(b, d), e) == Rank(b, e) + if d < e then 1 else 0
  {
    if d > 0 {
      assert (b + 2 * Pow2(d - 1)) / 2 == b / 2 + Pow2(d - 1);
      if e > 0 {
        HasWith(b / 2, d - 1, e - 1);
      }
    } else {
      assert (b + 1) / 2 == b / 2;
    }
  }

  lemma {:induction false} HasWithout(b: nat, d: nat, e: nat)
    requires Has(b, d)
    ensures Has(Without(b, d), e) <==> Has(b, e) && e != d
    ensures Rank(Without(b, d), e) == Rank(b, e) - if d < e then 1 else 0
  {
    HasAtLeast(b, d);
    if d > 0 {
      HasAtLeast(b / 2, d - 1);
      assert (b - 2 * Pow2(d - 1)) / 2 == b / 2 - Pow2(d - 1);
      if e > 0 {
        HasWithout(b / 2, d - 1, e - 1);
      }
    } else {
      assert (b - 1) / 2 == b / 2;
    }
  }

  /** Children are laid out in the order of their slots. */
  lemma {:induction false} RankStrict(b: nat, d: nat, e: nat)
    requires d < e && Has(b, d)
    ensures Rank(b, d) < Rank(b, e)
  {
    if d > 0 {
      RankStrict(b / 2, d - 1, e - 1);
    }
  }

  lemma {:induction false} RankStep(b: nat, d: nat)
    ensures Rank(b, d + 1) == Rank(b, d) + if Has(b, d) then 1 else 0
  {
    if d > 0 {
      RankStep(b / 2, d - 1);
    }
  }
}
