/** Powers of two, 32-bit integers, and joining of sequences. */
module Basics {

  /** `1 << n`, without the wrap-around. */
  function Pow2(n: nat): (p: nat)
    ensures p >= 1
  {
    if n == 0 then 1 else 2 * Pow2(n - 1)
  }

  /** A 32-bit signed integer, as `x | 0` and `<<` give it. */
  function ToInt32(x: int): int {
    (x + 0x8000_0000) % 0x1_0000_0000 - 0x8000_0000
  }

  /** Quotient and remainder are what they are by definition. */
  lemma QuotientIs(v: int, p: int, q: int, r: int)
    requires p > 0 && 0 <= r < p && v == p * q + r
    ensures v / p == q && v % p == r
  {
    var d, m := v / p, v % p;
    assert p * (d - q) == r - m by {
      Distribute(p, d, q);
    }
    if d > q {
      Gap(p, d - q);
    } else if d < q {
      Gap(p, q - d);
      Distribute(p, q, d);
    }
  }

  lemma Distribute(p: int, d: int, q: int)
    ensures p * (d - q) == p * d - p * q
  {
  }

  lemma Gap(p: int, x: int)
    requires p > 0 && x >= 1
    ensures p * x >= p
  {
  }

  lemma Assoc<T>(a: seq<T>, b: seq<T>, c: seq<T>)
    ensures a + (b + c) == a + b + c
  {
  }

  lemma PutOne<T>(was: seq<T>, at: nat, x: T)
    requires at < |was|
    ensures was[at := x] == was[..at] + [x] + was[at + 1..]
  {
  }

  /** One more element written behind `mid`. */
  lemma PutNext<T>(was: seq<T>, at: nat, mid: seq<T>, x: T)
    requires at + |mid| < |was|
    ensures (was[..at] + mid + was[at + |mid|..])[at + |mid| := x] == was[..at] + (mid + [x]) + was[at + |mid| + 1..]
  {
  }

  /** One more element written in front of `mid`. */
  lemma PutPrevious<T>(was: seq<T>, at: nat, mid: seq<T>, x: T)
    requires 0 < at && at + |mid| <= |was|
    ensures (was[..at] + mid + was[at + |mid|..])[at - 1 := x] == was[..at - 1] + ([x] + mid) + was[at + |mid|..]
  {
    assert was[..at] == was[..at - 1] + [was[at - 1]];
  }

  function Reverse<T>(b: seq<T>): (r: seq<T>)
    ensures |r| == |b|
  {
    if b == [] then [] else Reverse(b[1..]) + [b[0]]
  }

  lemma {:induction false} ReverseMore<T>(b: seq<T>, x: T)
    ensures Reverse(b + [x]) == [x] + Reverse(b)
  {
    if b == [] {
      assert [x][1..] == [] && b + [x] == [x];
    } else {
      assert (b + [x])[1..] == b[1..] + [x];
      ReverseMore(b[1..], x);
    }
  }

  lemma {:induction false} ReverseAt<T>(b: seq<T>, i: nat)
    requires i < |b|
    ensures Reverse(b)[i] == b[|b| - 1 - i]
  {
    if i < |b| - 1 {
      ReverseAt(b[1..], i);
    }
  }
}
