/** Base-32 digits of an index or a hash.
  *
  * The tries of the collections library pick a child by
  * `(x >>> level) & 31` with `level` a multiple of 5; on unsigned words that is
  * the base-32 digit of `x` at position `level / 5`.
  */
module Radix32 {

  /** `1 << 5 * k` */
  function Pow32(k: nat): (p: nat)
    ensures p >= 1
  {
    if k == 0 then 1 else 32 * Pow32(k - 1)
  }

  /** `x >>> 5 * k` */
  function Shr(x: nat, k: nat): nat {
    if k == 0 then x else Shr(x / 32, k - 1)
  }

  /** `(x >>> 5 * k) & 31` */
  function Digit(x: nat, k: nat): (d: nat)
    ensures d < 32
  {
    Shr(x, k) % 32
  }

  lemma {:induction false} ShrOnce(x: nat, k: nat)
    ensures Shr(x, k + 1) == Shr(x, k) / 32
  {
    if k > 0 {
      ShrOnce(x / 32, k - 1);
    }
  }

  lemma {:induction false} ShrMonotone(x: nat, y: nat, k: nat)
    requires x <= y
    ensures Shr(x, k) <= Shr(y, k)
  {
    if k > 0 {
      ShrMonotone(x / 32, y / 32, k - 1);
    }
  }

  lemma {:induction false} ShrSmall(x: nat, k: nat)
    ensures Shr(x, k) == 0 <==> x < Pow32(k)
  {
    if k > 0 {
      ShrSmall(x / 32, k - 1);
    }
  }

  lemma {:induction false} Pow32Monotone(j: nat, k: nat)
    requires j <= k
    ensures Pow32(j) <= Pow32(k)
  {
    if j < k {
      Pow32Monotone(j, k - 1);
    }
  }

  /** Two numbers in one block of `32^(k+1)` share the smaller block of `32^k`
    * exactly when their digit at `k` agrees, and otherwise compare by it. */
  lemma SameBlock(x: nat, y: nat, k: nat)
    requires Shr(x, k + 1) == Shr(y, k + 1)
    ensures Digit(x, k) == Digit(y, k) <==> Shr(x, k) == Shr(y, k)
    ensures x <= y ==> Digit(x, k) <= Digit(y, k)
  {
    ShrOnce(x, k);
    ShrOnce(y, k);
    if x <= y {
      ShrMonotone(x, y, k);
    }
  }

  /** Numbers between two members of a block belong to it. */
  lemma Between(x: nat, y: nat, z: nat, k: nat)
    requires x <= y <= z && Shr(x, k) == Shr(z, k)
    ensures Shr(y, k) == Shr(x, k)
  {
    ShrMonotone(x, y, k);
    ShrMonotone(y, z, k);
  }

  /** Equal upper blocks and equal lower digits leave one number only. */
  lemma {:induction false} SameDigits(x: nat, y: nat, k: nat)
    requires Shr(x, k) == Shr(y, k)
    requires forall j :: 0 <= j < k ==> Digit(x, j) == Digit(y, j)
    ensures x == y
  {
    if k > 0 {
      ShrOnce(x, k - 1);
      ShrOnce(y, k - 1);
      assert Digit(x, k - 1) == Digit(y, k - 1);
      SameDigits(x, y, k - 1);
    }
  }

  /** Adding a multiple of `32^k` adds to the number shifted by `k` digits and
    * leaves the digits below `k` alone. */
  lemma AddMultiple(x: nat, m: nat, p: nat)
    ensures (x + m * (32 * p)) / 32 == x / 32 + m * p && (x + m * (32 * p)) % 32 == x % 32
  {
    var y := m * p;
    assert m * (32 * p) == 32 * y;
  }

  lemma {:induction false} ShrMoved(x: nat, m: nat, k: nat)
    ensures Shr(x + m * Pow32(k), k) == Shr(x, k) + m
  {
    if k > 0 {
      AddMultiple(x, m, Pow32(k - 1));
      ShrMoved(x / 32, m, k - 1);
    }
  }

  lemma {:induction false} DigitMoved(x: nat, m: nat, j: nat, k: nat)
    requires j < k
    ensures Digit(x + m * Pow32(k), j) == Digit(x, j)
  {
    AddMultiple(x, m, Pow32(k - 1));
    if j > 0 {
      DigitMoved(x / 32, m, j - 1, k - 1);
    }
  }
}
