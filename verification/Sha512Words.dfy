/** 64-bit words as two 32-bit halves: the functions and sums of `Sha512` on
  * halves are those of sections 3.2 and 4.1.3 of FIPS 180-4 on words. */
module Sha512Words {

  /** The 64-bit word with halves `h` and `l`. */
  function Join(h: bv32, l: bv32): bv64 {
    ((h as bv64) << 32) | (l as bv64)
  }

  // ---------------------------------------------------------------- standard

  /** Addition modulo 2^64. */
  function Plus(x: bv64, y: bv64): bv64 {
    x + y
  }

  function Choose(x: bv64, y: bv64, z: bv64): bv64 {
    (x & y) ^ (!x & z)
  }

  function Majority(x: bv64, y: bv64, z: bv64): bv64 {
    (x & y) ^ (x & z) ^ (y & z)
  }

  function Xor3(x: bv64, y: bv64, z: bv64): bv64 {
    x ^ y ^ z
  }

  /** Rotation right by 28 is `(x >> 28) | (x << 36)`, and so on. */
  function BigSigma0(x: bv64): bv64 {
    Xor3((x >> 28) | (x << 36), (x >> 34) | (x << 30), (x >> 39) | (x << 25))
  }

  function BigSigma1(x: bv64): bv64 {
    Xor3((x >> 14) | (x << 50), (x >> 18) | (x << 46), (x >> 41) | (x << 23))
  }

  function SmallSigma0(x: bv64): bv64 {
    Xor3((x >> 1) | (x << 63), (x >> 8) | (x << 56), x >> 7)
  }

  function SmallSigma1(x: bv64): bv64 {
    Xor3((x >> 19) | (x << 45), (x >> 61) | (x << 3), x >> 6)
  }

  // ------------------------------------------------------------- the halves

  /** `b + d | 0` */
  function Add(b: bv32, d: bv32): bv32 {
    b + d
  }

  /** `getCarry` */
  function Carry(sum: bv32, part: bv32): bv32 {
    if sum < part then 1 else 0
  }

  /** `Ch` and `maj`, on each half alone. */
  function Ch(x: bv32, y: bv32, z: bv32): bv32 {
    z ^ (x & (y ^ z))
  }

  function Maj(x: bv32, y: bv32, z: bv32): bv32 {
    (x & y) | (z & (x | y))
  }

  /** `sigma0` and `sigma1`: one half, given that half and the other. */
  function Sigma0(x: bv32, xl: bv32): bv32 {
    ((x >> 28) | (xl << 4)) ^ ((xl >> 2) | (x << 30)) ^ ((xl >> 7) | (x << 25))
  }

  function Sigma1(x: bv32, xl: bv32): bv32 {
    ((x >> 14) | (xl << 18)) ^ ((x >> 18) | (xl << 14)) ^ ((xl >> 9) | (x << 23))
  }

  /** `Gamma0` and `Gamma1` give the higher half, `Gamma0l` and `Gamma1l` the
    * lower one. */
  function Gamma0(x: bv32, xl: bv32): bv32 {
    ((x >> 1) | (xl << 31)) ^ ((x >> 8) | (xl << 24)) ^ (x >> 7)
  }

  function Gamma0l(x: bv32, xl: bv32): bv32 {
    ((x >> 1) | (xl << 31)) ^ ((x >> 8) | (xl << 24)) ^ ((x >> 7) | (xl << 25))
  }

  function Gamma1(x: bv32, xl: bv32): bv32 {
    ((x >> 19) | (xl << 13)) ^ ((xl >> 29) | (x << 3)) ^ (x >> 6)
  }

  function Gamma1l(x: bv32, xl: bv32): bv32 {
    ((x >> 19) | (xl << 13)) ^ ((xl >> 29) | (x << 3)) ^ ((x >> 6) | (xl << 26))
  }

  // ------------------------------------------------------- bitwise functions

  function Xor(x: bv32, y: bv32, z: bv32): bv32 {
    x ^ y ^ z
  }

  lemma ChHalves(xh: bv32, xl: bv32, yh: bv32, yl: bv32, zh: bv32, zl: bv32)
    ensures Join(Ch(xh, yh, zh), Ch(xl, yl, zl)) == Choose(Join(xh, xl), Join(yh, yl), Join(zh, zl))
  {}

  lemma MajHalves(xh: bv32, xl: bv32, yh: bv32, yl: bv32, zh: bv32, zl: bv32)
    ensures Join(Maj(xh, yh, zh), Maj(xl, yl, zl)) == Majority(Join(xh, xl), Join(yh, yl), Join(zh, zl))
  {}

  lemma XorHalves(a: bv32, b: bv32, c: bv32, d: bv32, e: bv32, f: bv32)
    ensures Join(Xor(a, c, e), Xor(b, d, f)) == Xor3(Join(a, b), Join(c, d), Join(e, f))
  {}

  lemma Rotate28(x: bv64, h: bv32, l: bv32)
    requires x == Join(h, l)
    ensures (x >> 28) | (x << 36) == Join((h >> 28) | (l << 4), (l >> 28) | (h << 4))
  {}

  lemma Rotate34(x: bv64, h: bv32, l: bv32)
    requires x == Join(h, l)
    ensures (x >> 34) | (x << 30) == Join((l >> 2) | (h << 30), (h >> 2) | (l << 30))
  {}

  lemma Rotate39(x: bv64, h: bv32, l: bv32)
    requires x == Join(h, l)
    ensures (x >> 39) | (x << 25) == Join((l >> 7) | (h << 25), (h >> 7) | (l << 25))
  {}

  lemma Rotate14(x: bv64, h: bv32, l: bv32)
    requires x == Join(h, l)
    ensures (x >> 14) | (x << 50) == Join((h >> 14) | (l << 18), (l >> 14) | (h << 18))
  {}

  lemma Rotate18(x: bv64, h: bv32, l: bv32)
    requires x == Join(h, l)
    ensures (x >> 18) | (x << 46) == Join((h >> 18) | (l << 14), (l >> 18) | (h << 14))
  {}

  lemma Rotate41(x: bv64, h: bv32, l: bv32)
    requires x == Join(h, l)
    ensures (x >> 41) | (x << 23) == Join((l >> 9) | (h << 23), (h >> 9) | (l << 23))
  {}

  lemma Rotate1(x: bv64, h: bv32, l: bv32)
    requires x == Join(h, l)
    ensures (x >> 1) | (x << 63) == Join((h >> 1) | (l << 31), (l >> 1) | (h << 31))
  {}

  lemma Rotate8(x: bv64, h: bv32, l: bv32)
    requires x == Join(h, l)
    ensures (x >> 8) | (x << 56) == Join((h >> 8) | (l << 24), (l >> 8) | (h << 24))
  {}

  lemma Rotate19(x: bv64, h: bv32, l: bv32)
    requires x == Join(h, l)
    ensures (x >> 19) | (x << 45) == Join((h >> 19) | (l << 13), (l >> 19) | (h << 13))
  {}

  lemma Rotate61(x: bv64, h: bv32, l: bv32)
    requires x == Join(h, l)
    ensures (x >> 61) | (x << 3) == Join((l >> 29) | (h << 3), (h >> 29) | (l << 3))
  {}

  lemma Shift7(x: bv64, h: bv32, l: bv32)
    requires x == Join(h, l)
    ensures x >> 7 == Join(h >> 7, (l >> 7) | (h << 25))
  {}

  lemma Shift6(x: bv64, h: bv32, l: bv32)
    requires x == Join(h, l)
    ensures x >> 6 == Join(h >> 6, (l >> 6) | (h << 26))
  {}

  lemma BigSigma0Is(x: bv64, a: bv64, b: bv64, c: bv64)
    requires a == ((x >> 28) | (x << 36)) && b == ((x >> 34) | (x << 30)) && c == ((x >> 39) | (x << 25))
    ensures BigSigma0(x) == Xor3(a, b, c)
  {}

  lemma BigSigma1Is(x: bv64, a: bv64, b: bv64, c: bv64)
    requires a == ((x >> 14) | (x << 50)) && b == ((x >> 18) | (x << 46)) && c == ((x >> 41) | (x << 23))
    ensures BigSigma1(x) == Xor3(a, b, c)
  {}

  lemma SmallSigma0Is(x: bv64, a: bv64, b: bv64, c: bv64)
    requires a == ((x >> 1) | (x << 63)) && b == ((x >> 8) | (x << 56)) && c == x >> 7
    ensures SmallSigma0(x) == Xor3(a, b, c)
  {}

  lemma SmallSigma1Is(x: bv64, a: bv64, b: bv64, c: bv64)
    requires a == ((x >> 19) | (x << 45)) && b == ((x >> 61) | (x << 3)) && c == x >> 6
    ensures SmallSigma1(x) == Xor3(a, b, c)
  {}

  lemma Sigma0Is(x: bv32, xl: bv32, a: bv32, b: bv32, c: bv32)
    requires a == ((x >> 28) | (xl << 4)) && b == ((xl >> 2) | (x << 30)) && c == ((xl >> 7) | (x << 25))
    ensures Sigma0(x, xl) == Xor(a, b, c)
  {}

  lemma Sigma1Is(x: bv32, xl: bv32, a: bv32, b: bv32, c: bv32)
    requires a == ((x >> 14) | (xl << 18)) && b == ((x >> 18) | (xl << 14)) && c == ((xl >> 9) | (x << 23))
    ensures Sigma1(x, xl) == Xor(a, b, c)
  {}

  lemma Gamma0Is(x: bv32, xl: bv32, a: bv32, b: bv32, c: bv32)
    requires a == ((x >> 1) | (xl << 31)) && b == ((x >> 8) | (xl << 24)) && c == x >> 7
    ensures Gamma0(x, xl) == Xor(a, b, c)
  {}

  lemma Gamma0lIs(x: bv32, xl: bv32, a: bv32, b: bv32, c: bv32)
    requires a == ((x >> 1) | (xl << 31)) && b == ((x >> 8) | (xl << 24)) && c == ((x >> 7) | (xl << 25))
    ensures Gamma0l(x, xl) == Xor(a, b, c)
  {}

  lemma Gamma1Is(x: bv32, xl: bv32, a: bv32, b: bv32, c: bv32)
    requires a == ((x >> 19) | (xl << 13)) && b == ((xl >> 29) | (x << 3)) && c == x >> 6
    ensures Gamma1(x, xl) == Xor(a, b, c)
  {}

  lemma Gamma1lIs(x: bv32, xl: bv32, a: bv32, b: bv32, c: bv32)
    requires a == ((x >> 19) | (xl << 13)) && b == ((xl >> 29) | (x << 3)) && c == ((x >> 6) | (xl << 26))
    ensures Gamma1l(x, xl) == Xor(a, b, c)
  {}

  lemma Sigma0Halves(h: bv32, l: bv32)
    ensures Join(Sigma0(h, l), Sigma0(l, h)) == BigSigma0(Join(h, l))
  {
    hide *;
    var x := Join(h, l);
    Rotate28(x, h, l);
    Rotate34(x, h, l);
    Rotate39(x, h, l);
    BigSigma0Is(x, (x >> 28) | (x << 36), (x >> 34) | (x << 30), (x >> 39) | (x << 25));
    Sigma0Is(h, l, (h >> 28) | (l << 4), (l >> 2) | (h << 30), (l >> 7) | (h << 25));
    Sigma0Is(l, h, (l >> 28) | (h << 4), (h >> 2) | (l << 30), (h >> 7) | (l << 25));
    XorHalves((h >> 28) | (l << 4), (l >> 28) | (h << 4), (l >> 2) | (h << 30), (h >> 2) | (l << 30),
      (l >> 7) | (h << 25), (h >> 7) | (l << 25));
  }

  lemma Sigma1Halves(h: bv32, l: bv32)
    ensures Join(Sigma1(h, l), Sigma1(l, h)) == BigSigma1(Join(h, l))
  {
    hide *;
    var x := Join(h, l);
    Rotate14(x, h, l);
    Rotate18(x, h, l);
    Rotate41(x, h, l);
    BigSigma1Is(x, (x >> 14) | (x << 50), (x >> 18) | (x << 46), (x >> 41) | (x << 23));
    Sigma1Is(h, l, (h >> 14) | (l << 18), (h >> 18) | (l << 14), (l >> 9) | (h << 23));
    Sigma1Is(l, h, (l >> 14) | (h << 18), (l >> 18) | (h << 14), (h >> 9) | (l << 23));
    XorHalves((h >> 14) | (l << 18), (l >> 14) | (h << 18), (h >> 18) | (l << 14), (l >> 18) | (h << 14),
      (l >> 9) | (h << 23), (h >> 9) | (l << 23));
  }

  lemma Gamma0Halves(h: bv32, l: bv32)
    ensures Join(Gamma0(h, l), Gamma0l(l, h)) == SmallSigma0(Join(h, l))
  {
    hide *;
    var x := Join(h, l);
    Rotate1(x, h, l);
    Rotate8(x, h, l);
    Shift7(x, h, l);
    SmallSigma0Is(x, (x >> 1) | (x << 63), (x >> 8) | (x << 56), x >> 7);
    Gamma0Is(h, l, (h >> 1) | (l << 31), (h >> 8) | (l << 24), h >> 7);
    Gamma0lIs(l, h, (l >> 1) | (h << 31), (l >> 8) | (h << 24), (l >> 7) | (h << 25));
    XorHalves((h >> 1) | (l << 31), (l >> 1) | (h << 31), (h >> 8) | (l << 24), (l >> 8) | (h << 24),
      h >> 7, (l >> 7) | (h << 25));
  }

  lemma Gamma1Halves(h: bv32, l: bv32)
    ensures Join(Gamma1(h, l), Gamma1l(l, h)) == SmallSigma1(Join(h, l))
  {
    hide *;
    var x := Join(h, l);
    Rotate19(x, h, l);
    Rotate61(x, h, l);
    Shift6(x, h, l);
    SmallSigma1Is(x, (x >> 19) | (x << 45), (x >> 61) | (x << 3), x >> 6);
    Gamma1Is(h, l, (h >> 19) | (l << 13), (l >> 29) | (h << 3), h >> 6);
    Gamma1lIs(l, h, (l >> 19) | (h << 13), (h >> 29) | (l << 3), (l >> 6) | (h << 26));
    XorHalves((h >> 19) | (l << 13), (l >> 19) | (h << 13), (l >> 29) | (h << 3), (h >> 29) | (l << 3),
      h >> 6, (l >> 6) | (h << 26));
  }

  // ---------------------------------------------------------------- addition

  function Wide(b: bv32): bv64 {
    b as bv64
  }

  /** `b` as a higher half. */
  function Up(b: bv32): bv64 {
    (b as bv64) << 32
  }

  function LowHalf(x: bv64): bv64 {
    x & 0xFFFF_FFFF
  }

  predicate Full(x: bv64) {
    x >= 0x1_0000_0000
  }

  predicate Less(x: bv64, y: bv64) {
    x < y
  }

  lemma PlusIs(p: bv64, q: bv64)
    ensures Plus(p, q) == p + q == Plus(q, p)
  {}

  lemma RawAssociative(p: bv64, q: bv64, r: bv64)
    ensures Plus(p + q, r) == Plus(p, q + r)
  {}

  lemma Associative(p: bv64, q: bv64, r: bv64)
    ensures Plus(Plus(p, q), r) == Plus(p, Plus(q, r))
  {
    hide Plus;
    PlusIs(p, q);
    PlusIs(q, r);
    RawAssociative(p, q, r);
  }

  /** `(p + q) + (r + s) == (p + r) + (q + s)` */
  lemma Exchange(p: bv64, q: bv64, r: bv64, s: bv64)
    ensures Plus(Plus(p, q), Plus(r, s)) == Plus(Plus(p, r), Plus(q, s))
  {
    hide Plus;
    Associative(p, q, Plus(r, s));
    Associative(q, r, s);
    PlusIs(q, r);
    Associative(r, q, s);
    Associative(p, r, Plus(q, s));
  }

  lemma Small(b: bv32)
    ensures Wide(b) < 0x1_0000_0000
  {}

  lemma SmallSum(b: bv64, d: bv64)
    requires b < 0x1_0000_0000 && d < 0x1_0000_0000
    ensures Plus(b, d) < 0x2_0000_0000
  {}

  lemma LowHalfIs(x: bv64)
    ensures LowHalf(x) == x & 0xFFFF_FFFF
  {}

  lemma FullIs(x: bv64)
    ensures Full(x) <==> x >= 0x1_0000_0000
  {}

  lemma Overflow(b: bv64, d: bv64)
    requires b < 0x1_0000_0000 && d < 0x1_0000_0000
    ensures (b + d) & 0xFFFF_FFFF < d <==> b + d >= 0x1_0000_0000
  {}

  lemma RawLess(b: bv64, d: bv64)
    requires b < 0x1_0000_0000 && d < 0x1_0000_0000
    ensures Less((b + d) & 0xFFFF_FFFF, d) <==> Full(b + d)
  {
    Overflow(b, d);
  }

  lemma RawLowHalf(b: bv64, d: bv64)
    ensures LowHalf(b + d) == (b + d) & 0xFFFF_FFFF
  {}

  /** The sum of two halves is full exactly when its low half is below `d`. */
  lemma WideOverflow(b: bv32, d: bv32)
    ensures Less(LowHalf(Plus(Wide(b), Wide(d))), Wide(d)) <==> Full(Plus(Wide(b), Wide(d)))
  {
    hide *;
    Small(b);
    Small(d);
    PlusIs(Wide(b), Wide(d));
    RawLowHalf(Wide(b), Wide(d));
    RawLess(Wide(b), Wide(d));
  }

  lemma SplitFull(x: bv64, low: bv64)
    requires 0x1_0000_0000 <= x < 0x2_0000_0000 && low == x & 0xFFFF_FFFF
    ensures x == Plus(0x1_0000_0000, low)
  {}

  lemma SplitLow(x: bv64, low: bv64)
    requires x < 0x1_0000_0000 && low == x & 0xFFFF_FFFF
    ensures x == Plus(0, low)
  {}

  lemma Split(x: bv64)
    requires x < 0x2_0000_0000
    ensures x == Plus(if Full(x) then 0x1_0000_0000 else 0, LowHalf(x))
  {
    hide *;
    LowHalfIs(x);
    FullIs(x);
    if Full(x) {
      SplitFull(x, LowHalf(x));
    } else {
      SplitLow(x, LowHalf(x));
    }
  }

  lemma Ups()
    ensures Up(0) == 0 && Up(1) == 0x1_0000_0000
  {}

  lemma WideSplit(b: bv32, d: bv32)
    ensures Plus(Wide(b), Wide(d))
         == Plus(Up(if Full(Plus(Wide(b), Wide(d))) then 1 else 0), LowHalf(Plus(Wide(b), Wide(d))))
  {
    hide *;
    Ups();
    Small(b);
    Small(d);
    SmallSum(Wide(b), Wide(d));
    Split(Plus(Wide(b), Wide(d)));
  }

  lemma WideAdd(b: bv32, d: bv32)
    ensures Wide(Add(b, d)) == LowHalf(Plus(Wide(b), Wide(d)))
  {}

  lemma WideLess(b: bv32, d: bv32)
    ensures Carry(b, d) == if Less(Wide(b), Wide(d)) then 1 else 0
  {}

  lemma LowSum(b: bv32, d: bv32)
    ensures Plus(Wide(b), Wide(d)) == Plus(Up(Carry(Add(b, d), d)), Wide(Add(b, d)))
  {
    hide *;
    WideOverflow(b, d);
    WideSplit(b, d);
    WideAdd(b, d);
    WideLess(Add(b, d), d);
  }

  lemma UpIs(a: bv32)
    ensures Up(a) == (a as bv64) << 32
  {}

  lemma AddIs(a: bv32, c: bv32)
    ensures Add(a, c) == a + c == Add(c, a)
  {}

  lemma RawUpAdd(a: bv32, c: bv32)
    ensures Up(a + c) == Plus((a as bv64) << 32, (c as bv64) << 32)
  {}

  lemma UpAdd(a: bv32, c: bv32)
    ensures Up(Add(a, c)) == Plus(Up(a), Up(c))
  {
    hide *;
    AddIs(a, c);
    UpIs(a);
    UpIs(c);
    RawUpAdd(a, c);
  }

  lemma JoinIs(h: bv32, l: bv32)
    ensures Join(h, l) == Plus(Up(h), Wide(l))
  {}

  /** A 64-bit sum: the lower halves first, and their carry, found by comparing
    * with the second summand, into the higher halves. */
  lemma Sum(ah: bv32, al: bv32, bh: bv32, bl: bv32)
    ensures Join(Add(Add(ah, bh), Carry(Add(al, bl), bl)), Add(al, bl)) == Plus(Join(ah, al), Join(bh, bl))
  {
    hide *;
    var k, l, t := Carry(Add(al, bl), bl), Add(al, bl), Add(ah, bh);
    LowSum(al, bl);
    UpAdd(ah, bh);
    UpAdd(t, k);
    JoinIs(ah, al);
    JoinIs(bh, bl);
    JoinIs(Add(t, k), l);
    Exchange(Up(ah), Wide(al), Up(bh), Wide(bl));
    Associative(Up(t), Up(k), Wide(l));
  }

  /** The same with the carry found by comparing with the first summand. */
  lemma SumFirst(ah: bv32, al: bv32, bh: bv32, bl: bv32)
    ensures Join(Add(Add(ah, bh), Carry(Add(al, bl), al)), Add(al, bl)) == Plus(Join(ah, al), Join(bh, bl))
  {
    hide *;
    Sum(bh, bl, ah, al);
    AddIs(al, bl);
    AddIs(ah, bh);
    PlusIs(Join(ah, al), Join(bh, bl));
  }
}
