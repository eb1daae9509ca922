/** `List`: a window `[origin, capacity)` onto a trie of leaves, whose last leaf
  * is kept apart as the tail.
  *
  * `undefined` elements are `None`.  A list value is what the source reaches
  * through the list object; in-place edits under an owner token are not part of
  * this file.
  */
module Lists {
  import opened Basics
  import opened Wrappers
  import opened Radix32
  import opened VNodes

  /** `level` is counted in digits: the source's `_level` is `5 * level`. */
  datatype List<V> = List(origin: nat, capacity: nat, level: nat, root: Tree<V>, tail: Tree<V>)

  const MAX_SIZE: int := 0x4000_0000

  function Empty<V>(): List<V> {
    List(0, 0, 1, None, None)
  }

  function Size<V>(l: List<V>): int {
    l.capacity - l.origin
  }

  /** `getTailOffset` */
  function TailOffset(t: nat): (p: nat)
    ensures p <= t <= p + 32
    ensures t > 0 ==> p < t
    ensures p % 32 == 0
  {
    if t < 32 then 0 else (t - 1) / 32 * 32
  }

  /** `1 << n` on 32-bit words: the shift count is taken modulo 32. */
  function ShiftOne(n: nat): int {
    var s := n % 32;
    if s == 31 then -0x8000_0000 else Pow2(s)
  }

  /** `listNodeFor`; `x` is an index into the trie, not into the list. */
  function ListNodeFor<V>(l: List<V>, x: nat): Tree<V> {
    if x >= TailOffset(l.capacity) then l.tail
    else if x < ShiftOne(5 * l.level + 5) then LeafFor(l.root, l.level, x)
    else None
  }

  /** The value the list shows at trie index `x`. */
  function ListAt<V>(l: List<V>, x: nat): Option<V> {
    At(ListNodeFor(l, x), 0, x)
  }

  /** `List.get`, with `undefined` as the not-set value. */
  function Get<V>(l: List<V>, i: int): Option<V>
    requires Size(l) >= 0
  {
    var j := if i < 0 then Size(l) + i else i;
    if 0 <= j < Size(l) then ListAt(l, j + l.origin) else None
  }

  /** What is kept by every operation. Level 5 is the source's `_level` 25. */
  ghost predicate Valid<V>(l: List<V>) {
    && l.origin <= l.capacity
    && (l.origin == l.capacity ==> l == Empty())
    && 1 <= l.level <= 5
    && (l.level > 1 ==> l.origin < TailOffset(l.capacity))
    && TailOffset(l.capacity) < Pow32(l.level + 1)
  }

  /** The sequence a list stands for. */
  ghost function Contents<V>(l: List<V>): seq<Option<V>>
    requires l.origin <= l.capacity
  {
    seq(l.capacity - l.origin, i requires 0 <= i => ListAt(l, l.origin + i))
  }

  // ------------------------------------------------------------ setListBounds

  /** The loop that raises the root leftwards: the old root becomes slot 1. */
  function GrowLeft<V>(t: Tree<V>, k: nat, a: int, f: nat): (r: (Tree<V>, nat, nat))
    ensures a + r.2 >= 0 && r.1 >= k && r.2 >= f
    decreases -(a + f)
  {
    if a + f < 0 then
      GrowLeft(Some(VNode(if Nonempty(t) then [Hole, Sub(t.value)] else [])), k + 1, a, f + Pow32(k + 1))
    else (t, k, f)
  }

  /** The loop that raises the root rightwards: the old root becomes slot 0. */
  function GrowRight<V>(t: Tree<V>, k: nat, h: nat): (r: (Tree<V>, nat))
    ensures r.1 >= k && h < Pow32(r.1 + 1)
    decreases h - Pow32(k + 1)
  {
    if h >= Pow32(k + 1) then GrowRight(Some(VNode(if Nonempty(t) then [Sub(t.value)] else [])), k + 1, h)
    else (t, k)
  }

  /** The loop that lowers the root while both ends of the window lie under one
    * child; the last component is how far indices move down. In
    * `v !== h >>> c & u` the comparison binds tighter than the mask, so the digit
    * of `a` is compared with all of `h >>> c`, and the loop stops below the first
    * common digit that is not 0. */
  function Lower<V>(t: Tree<V>, k: nat, a: nat, h: nat, f: nat): (r: (Tree<V>, nat, nat))
    requires k >= 1 && a < h && h % 32 == 0 && Shr(a, k + 1) == Shr(h, k + 1)
    ensures r.1 >= 1 && r.2 >= f && r.1 <= k
    decreases k
  {
    if t.None? || Digit(a, k) != Shr(h, k) then (t, k, f)
    else
      LowerStep(a, h, k);
      Lower(Child(t.value, Digit(a, k)), k - 1, a, h, f + Pow32(k) * Digit(a, k))
  }

  lemma LowerStep(a: nat, h: nat, k: nat)
    requires k >= 1 && a < h && h % 32 == 0
    requires Shr(a, k + 1) == Shr(h, k + 1) && Digit(a, k) == Shr(h, k)
    ensures k >= 2 && Shr(a, k) == Shr(h, k) && Digit(a, k) == Digit(h, k)
  {
    SameBlock(a, h, k);
  }

  datatype Error = RangeError

  /** `setListBounds` with its nested `validateListBoundsRequest`. */
  function Bounds<V(==)>(l: List<V>, begin: int, end: Option<int>): Result<List<V>, Error>
    requires Valid(l)
  {
    var a, s := l.origin + begin, NewCapacity(l, end);
    if s > MAX_SIZE || a < -MAX_SIZE || s - a > MAX_SIZE then Err(RangeError)
    else if a == l.origin && s == l.capacity then Ok(l)
    else if a >= s then Ok(Empty())
    else
      var (t1, k1, f) := GrowLeft(l.root, l.level, a, 0);
      Ok(Rebound(l, t1, k1, a + f, s + f, l.origin + f, l.capacity + f))
  }

  function NewCapacity<V>(l: List<V>, end: Option<int>): int {
    if end.None? then l.capacity
    else if end.value < 0 then l.capacity + end.value
    else l.origin + end.value
  }

  /** The rest of `setListBounds`, once the indices are natural numbers: the
    * window `[o, i)` becomes `[a, s)`. */
  function Rebound<V(==)>(l: List<V>, t1: Tree<V>, k1: nat, a: nat, s: nat, o: nat, i: nat): List<V>
    requires a < s && k1 >= 1
  {
    var (t, k) := NewRoot(l.tail, t1, k1, a, s, i);
    Trim(t, k, NewTail(l, s, i), a, s, a > o, TailOffset(s) < TailOffset(i))
  }

  /** The trie before trimming: raised to reach the new tail offset, with the
    * old tail put in its place when the window grows past it. */
  function NewRoot<V>(tail: Tree<V>, t1: Tree<V>, k1: nat, a: nat, s: nat, i: nat): (r: (Tree<V>, nat))
    requires k1 >= 1
    ensures r.1 >= 1 && TailOffset(s) < Pow32(r.1 + 1)
  {
    var p, h := TailOffset(i), TailOffset(s);
    var (t2, k2) := GrowRight(t1, k1, h);
    (if h > p && a < i && Nonempty(tail) then Some(PutLeaf(t2, k2, p, tail.value)) else t2, k2)
  }

  function NewTail<V(==)>(l: List<V>, s: nat, i: nat): Tree<V>
    requires s > 0
  {
    var p, h := TailOffset(i), TailOffset(s);
    var y := if h < p then ListNodeFor(l, s - 1) else if h > p then Some(VNode([])) else l.tail;
    if s < i && y.Some? then Some(RemoveAfter(y.value, 0, s)) else y
  }

  function Trim<V(==)>(t: Tree<V>, k: nat, tail: Tree<V>, a: nat, s: nat, left: bool, right: bool): List<V>
    requires a < s && k >= 1 && TailOffset(s) < Pow32(k + 1)
  {
    var h := TailOffset(s);
    if a >= h then
      List(a - h, s - h, 1, None, if tail.Some? then Some(RemoveBefore(tail.value, 0, a - h)) else None)
    else if left || right then
      BothSmall(a, h, k + 1);
      var (t', k', f) := TrimRoot(t, k, a, h, left, right);
      List(a - f, s - f, k', t', tail)
    else List(a, s, k, t, tail)
  }

  /** Lower the root over `[a, h)`, then cut it on the sides that moved in. */
  function TrimRoot<V(==)>(t: Tree<V>, k: nat, a: nat, h: nat, left: bool, right: bool): (r: (Tree<V>, nat, nat))
    requires k >= 1 && a < h && h % 32 == 0 && Shr(a, k + 1) == Shr(h, k + 1) == 0
    ensures r.1 >= 1 && r.2 <= a
  {
    var r := Lower(t, k, a, h, 0);
    LowerOffset(t, k, a, h, 0);
    (Cut(r.0, r.1, a - r.2, h - r.2, left, right), r.1, r.2)
  }

  function Cut<V(==)>(t: Tree<V>, k: nat, a: nat, h: nat, left: bool, right: bool): Tree<V>
    requires h > 0
  {
    var t1 := if t.Some? && left then Some(RemoveBefore(t.value, k, a)) else t;
    if t1.Some? && right then Some(RemoveAfter(t1.value, k, h)) else t1
  }

  lemma BothSmall(a: nat, h: nat, k: nat)
    requires a <= h < Pow32(k)
    ensures Shr(a, k) == Shr(h, k) == 0
  {
    ShrSmall(a, k);
    ShrSmall(h, k);
  }

  /** Below a level at which `h` still has bits, the loop does not go on: it ends
    * at the child of the first common digit that is not 0. */
  lemma LowerStops<V>(t: Tree<V>, k: nat, a: nat, h: nat, f: nat)
    requires k >= 1 && a < h && h % 32 == 0 && Shr(a, k + 1) == Shr(h, k + 1) > 0
    ensures Lower(t, k, a, h, f) == (t, k, f)
  {
    ShrOnce(h, k);
  }

  /** What is subtracted from the indices is the part above the remaining block. */
  lemma {:induction false} LowerOffset<V>(t: Tree<V>, k: nat, a: nat, h: nat, f: nat)
    requires k >= 1 && a < h && h % 32 == 0 && Shr(a, k + 1) == Shr(h, k + 1)
    requires f == Shr(a, k + 1) * Pow32(k + 1)
    ensures var r := Lower(t, k, a, h, f);
      && r.2 <= a
      && r.2 == Shr(a, r.1 + 1) * Pow32(r.1 + 1)
      && Shr(a, r.1 + 1) == Shr(h, r.1 + 1)
    decreases k
  {
    hide Shr, Pow32;
    if t.None? || Digit(a, k) != Shr(h, k) {
      ShrFloor(a, k + 1);
    } else {
      LowerStep(a, h, k);
      DigitOffset(a, k);
      LowerOffset(Child(t.value, Digit(a, k)), k - 1, a, h, f + Pow32(k) * Digit(a, k));
    }
  }

  lemma DigitOffset(a: nat, k: nat)
    ensures Shr(a, k + 1) * Pow32(k + 1) + Pow32(k) * Digit(a, k) == Shr(a, k) * Pow32(k)
  {
    hide Shr;
    ShrOnce(a, k);
    SplitTimes(Shr(a, k), Pow32(k));
  }

  lemma SplitTimes(x: nat, p: nat)
    ensures x / 32 * (32 * p) + p * (x % 32) == x * p
  {
    var q, r := x / 32, x % 32;
    assert (32 * q + r) * p == q * (32 * p) + p * r;
  }

  lemma Times32(q: nat, p: nat)
    ensures q * (32 * p) == 32 * (q * p)
  {
  }

  lemma {:induction false} ShrFloor(x: nat, k: nat)
    ensures Shr(x, k) * Pow32(k) <= x < (Shr(x, k) + 1) * Pow32(k)
  {
    if k > 0 {
      ShrFloor(x / 32, k - 1);
      Times32(Shr(x, k), Pow32(k - 1));
      Times32(Shr(x, k) + 1, Pow32(k - 1));
    }
  }

  // ------------------------------------------------- lemmas about the pieces

  /** Trie contents of a window that ends at capacity `i`. */
  ghost function WindowAt<V>(t: Tree<V>, k: nat, tail: Tree<V>, i: nat, x: nat): Option<V> {
    if x >= TailOffset(i) then At(tail, 0, x) else At(t, k, x)
  }

  lemma {:induction false} ShiftOneIsPow32(k: nat)
    requires k <= 5
    ensures ShiftOne(5 * k + 5) == Pow32(k + 1)
  {
    ShiftOneSmall(5 * k + 5);
    Pow2IsPow32(k + 1);
  }

  lemma ShiftOneSmall(n: nat)
    requires n < 31
    ensures ShiftOne(n) == Pow2(n)
  {
    hide Pow2;
  }

  lemma {:induction false} Pow2IsPow32(k: nat)
    ensures Pow2(5 * k) == Pow32(k)
  {
    if k > 0 {
      var n := 5 * k;
      assert Pow2(n) == 2 * Pow2(n - 1) == 4 * Pow2(n - 2) == 8 * Pow2(n - 3);
      assert Pow2(n - 3) == 2 * Pow2(n - 4) == 4 * Pow2(n - 5);
      Pow2IsPow32(k - 1);
    }
  }

  /** Below level 30, `listNodeFor` finds the leaf of every index of the window. */
  lemma ListAtIsWindowAt<V>(l: List<V>, x: nat)
    requires Valid(l)
    ensures ListAt(l, x) == if x < Pow32(l.level + 1) || x >= TailOffset(l.capacity)
                            then WindowAt(l.root, l.level, l.tail, l.capacity, x) else None
  {
    ShiftOneIsPow32(l.level);
    LeafForAt(l.root, l.level, x);
  }

  lemma {:induction false} GrowLeftAt<V>(t: Tree<V>, k: nat, a: int, f: nat, x: nat)
    requires x < Pow32(k + 1)
    ensures var r := GrowLeft(t, k, a, f);
      && At(r.0, r.1, x + (r.2 - f)) == At(t, k, x)
      && x + (r.2 - f) < Pow32(r.1 + 1)
      && (r.2 - f) % 32 == 0
    decreases -(a + f)
  {
    hide At, Pow32;
    if a + f < 0 {
      var g := Pow32(k + 1);
      var t1 := Some(VNode(if Nonempty(t) then [Hole, Sub(t.value)] else []));
      GrowLeftStep(t, k, x);
      NextPower(k);
      GrowLeftAt(t1, k + 1, a, f + g, x + g);
      Sum32(GrowLeft(t1, k + 1, a, f + g).2 - (f + g), g);
    }
  }

  lemma Sum32(x: int, y: int)
    requires x % 32 == 0 && y % 32 == 0
    ensures (x + y) % 32 == 0
  {
  }

  lemma NextPower(k: nat)
    ensures Pow32(k + 2) == 32 * Pow32(k + 1) && Pow32(k + 1) % 32 == 0
  {
    Multiple32(Pow32(k));
  }

  lemma GrowLeftStep<V>(t: Tree<V>, k: nat, x: nat)
    requires x < Pow32(k + 1)
    ensures At(Some(VNode(if Nonempty(t) then [Hole, Sub(t.value)] else [])), k + 1, x + Pow32(k + 1)) == At(t, k, x)
  {
    ShrMoved(x, 1, k + 1);
    ShrSmall(x, k + 1);
    assert 1 * Pow32(k + 1) == Pow32(k + 1);
    assert Digit(x + Pow32(k + 1), k + 1) == 1;
    AtMoved(t, k, x, 1);
    EmptyNode(t, k, x);
  }

  lemma EmptyNode<V>(t: Tree<V>, k: nat, x: nat)
    ensures !Nonempty(t) ==> At(t, k, x) == None
  {
  }

  lemma {:induction false} GrowRightAt<V>(t: Tree<V>, k: nat, h: nat, x: nat)
    requires x < Pow32(k + 1)
    ensures var r := GrowRight(t, k, h); At(r.0, r.1, x) == At(t, k, x)
    decreases h - Pow32(k + 1)
  {
    if h >= Pow32(k + 1) {
      var up := Some(VNode(if Nonempty(t) then [Sub(t.value)] else []));
      ShrSmall(x, k + 1);
      EmptyNode(t, k, x);
      GrowRightAt(up, k + 1, h, x);
    }
  }

  lemma {:induction false} GrowRightLevel<V>(t: Tree<V>, k: nat, h: nat, m: nat)
    requires k <= m && h < Pow32(m + 1)
    ensures GrowRight(t, k, h).1 <= m
    ensures h < Pow32(k + 1) ==> GrowRight(t, k, h) == (t, k)
    decreases h - Pow32(k + 1)
  {
    if h >= Pow32(k + 1) {
      GrowRightLevel(Some(VNode(if Nonempty(t) then [Sub(t.value)] else [])), k + 1, h, m);
    }
  }

  lemma {:induction false} LowerAt<V>(t: Tree<V>, k: nat, a: nat, h: nat, f: nat, x: nat)
    requires k >= 1 && a <= x < h && h % 32 == 0 && Shr(a, k + 1) == Shr(h, k + 1)
    ensures var r := Lower(t, k, a, h, f); At(r.0, r.1, x) == At(t, k, x)
    decreases k
  {
    if t.Some? && Digit(a, k) == Shr(h, k) {
      LowerStep(a, h, k);
      Between(a, x, h, k);
      Between(a, x, h, k + 1);
      SameBlock(a, x, k);
      LowerAt(Child(t.value, Digit(a, k)), k - 1, a, h, f + Pow32(k) * Digit(a, k), x);
    }
  }

  // ----------------------------------------------------- what is preserved

  lemma TailOffsetBlock(t: nat, x: nat)
    requires TailOffset(t) <= x < t
    ensures Shr(x, 1) == Shr(t - 1, 1) == Shr(TailOffset(t), 1)
  {
  }

  lemma TailOffsetMoved(t: nat, f: nat)
    requires f % 32 == 0 && (t > 0 || f == 0)
    ensures TailOffset(t + f) == TailOffset(t) + f
  {
  }

  /** The new tail shows what the old window showed. */
  lemma NewTailAt<V>(l: List<V>, t1: Tree<V>, k1: nat, s: nat, i: nat, x: nat)
    requires Valid(l) && TailOffset(s) <= x < s && x < i
    requires TailOffset(s) < TailOffset(i) ==> t1 == l.root && k1 == l.level && i == l.capacity
    ensures At(NewTail(l, s, i), 0, x) == WindowAt(t1, k1, l.tail, i, x)
  {
    hide At, Pow32, LeafFor, TailOffset;
    var p, h := TailOffset(i), TailOffset(s);
    TailOffsetBlock(s, x);
    if h < p {
      ListAtIsWindowAt(l, s - 1);
      ShiftOneIsPow32(l.level);
      LeafForBlock(l.root, l.level, x, s - 1);
      LeafForAt(l.root, l.level, x);
    }
    var y := if h < p then ListNodeFor(l, s - 1) else l.tail;
    if s < i && y.Some? {
      RemoveAfterAt(y.value, 0, s, x);
    }
  }

  /** The untrimmed trie shows what the old window showed, unless it holds a
    * stale leaf where an empty tail used to answer. */
  lemma NewRootAt<V>(tail: Tree<V>, t1: Tree<V>, k1: nat, a: nat, s: nat, i: nat, x: nat)
    requires k1 >= 1 && TailOffset(i) < Pow32(k1 + 1)
    requires a <= x < i && x < TailOffset(s)
    ensures var r := NewRoot(tail, t1, k1, a, s, i);
      (At(r.0, r.1, x) == WindowAt(t1, k1, tail, i, x)) ==
      !(x >= TailOffset(i) && !Nonempty(tail) && At(t1, k1, x).Some?)
  {
    var p, h := TailOffset(i), TailOffset(s);
    var (t2, k2) := GrowRight(t1, k1, h);
    AlignedBelow(x, p, k1);
    GrowRightAt(t1, k1, h, x);
    EmptyNode(tail, 0, x);
    if h > p && Nonempty(tail) {
      BothSmall(p, h, k2 + 1);
      BothSmall(x, h, k2 + 1);
      PutLeafAt(t2, k2, p, tail.value, x);
      if x >= p {
        TailOffsetBlock(i, x);
      }
    }
  }

  lemma AlignedBelow(x: nat, p: nat, k: nat)
    requires p % 32 == 0 && p < Pow32(k + 1) && x < p + 32
    ensures x < Pow32(k + 1)
  {
    var q := Pow32(k);
    assert p == 32 * (p / 32);
    assert p / 32 < q;
  }

  /** Lowering moves indices down by whole leaves and keeps the window in reach. */
  lemma LowerFacts<V>(t: Tree<V>, k: nat, a: nat, h: nat)
    requires k >= 1 && a < h < Pow32(k + 1) && h % 32 == 0 && Shr(a, k + 1) == Shr(h, k + 1) == 0
    ensures var r := Lower(t, k, a, h, 0);
      && r.2 <= a && r.2 % 32 == 0 && h - r.2 < Pow32(r.1 + 1)
      && r.2 == Shr(a, r.1 + 1) * Pow32(r.1 + 1)
  {
    hide Lower, Shr, Pow32;
    LowerOffset(t, k, a, h, 0);
    var r := Lower(t, k, a, h, 0);
    ShrFloor(h, r.1 + 1);
    BlockFacts(Shr(a, r.1 + 1), r.1);
  }

  lemma BlockFacts(m: nat, k: nat)
    ensures m * Pow32(k + 1) % 32 == 0 && (m + 1) * Pow32(k + 1) == m * Pow32(k + 1) + Pow32(k + 1)
  {
    Times32(m, Pow32(k));
    Multiple32(m * Pow32(k));
  }

  lemma Multiple32(x: int)
    ensures 32 * x % 32 == 0
  {
  }

  /** The root left by trimming shows the window, in its new coordinates. */
  lemma TrimRootAt<V>(t: Tree<V>, k: nat, a: nat, h: nat, left: bool, right: bool, x: nat)
    requires k >= 1 && a <= x < h < Pow32(k + 1) && h % 32 == 0 && Shr(a, k + 1) == Shr(h, k + 1) == 0
    ensures var r := TrimRoot(t, k, a, h, left, right); At(r.0, r.1, x - r.2) == At(t, k, x)
  {
    hide At, Shr, Lower, Cut;
    var r := Lower(t, k, a, h, 0);
    assert r.2 <= a && h - r.2 < Pow32(r.1 + 1) by { LowerFacts(t, k, a, h); }
    LowerAtMoved(t, k, a, h, x);
    CutAt(r.0, r.1, a - r.2, h - r.2, left, right, x - r.2);
  }

  lemma LowerAtMoved<V>(t: Tree<V>, k: nat, a: nat, h: nat, x: nat)
    requires k >= 1 && a <= x < h < Pow32(k + 1) && h % 32 == 0 && Shr(a, k + 1) == Shr(h, k + 1) == 0
    ensures var r := Lower(t, k, a, h, 0); r.2 <= a && At(r.0, r.1, x - r.2) == At(t, k, x)
  {
    LowerFacts(t, k, a, h);
    LowerAt(t, k, a, h, 0, x);
    var r := Lower(t, k, a, h, 0);
    AtMovedTo(r.0, r.1, x - r.2, Shr(a, r.1 + 1), x);
  }

  lemma AtMovedTo<V>(t: Tree<V>, k: nat, z: nat, m: nat, x: nat)
    requires x == z + m * Pow32(k + 1)
    ensures At(t, k, z) == At(t, k, x)
  {
    AtMoved(t, k, z, m);
  }

  lemma CutAt<V>(t: Tree<V>, k: nat, a: nat, h: nat, left: bool, right: bool, x: nat)
    requires a <= x < h < Pow32(k + 1)
    ensures At(Cut(t, k, a, h, left, right), k, x) == At(t, k, x)
  {
    BothSmall(a, h, k + 1);
    BothSmall(x, h, k + 1);
    BothSmall(h - 1, h, k + 1);
    var t1 := if t.Some? && left then Some(RemoveBefore(t.value, k, a)) else t;
    if t.Some? && left {
      RemoveBeforeAt(t.value, k, a, x);
    }
    if t1.Some? && right {
      RemoveAfterAt(t1.value, k, h, x);
    }
  }

  /** Trimming returns a well-formed list over the same number of elements. */
  lemma TrimValid<V>(t: Tree<V>, k: nat, tail: Tree<V>, a: nat, s: nat, left: bool, right: bool)
    requires a < s && 1 <= k <= 5 && TailOffset(s) < Pow32(k + 1)
    ensures var r := Trim(t, k, tail, a, s, left, right);
      && Valid(r) && r.origin <= a && r.capacity - r.origin == s - a
      && (a - r.origin) % 32 == 0
      && TailOffset(r.capacity) == if a >= TailOffset(s) then 0 else TailOffset(s) - (a - r.origin)
  {
    hide Pow32, Shr, TrimRoot, TailOffset;
    var h := TailOffset(s);
    if a >= h {
      TailAlone(s - h);
    } else if left || right {
      BothSmall(a, h, k + 1);
      TrimRootFacts(t, k, a, h, left, right);
      var f := TrimRoot(t, k, a, h, left, right).2;
      TailOffsetMoved(s - f, f);
    }
  }

  lemma TailAlone(s: nat)
    requires s <= 32
    ensures TailOffset(s) == 0 < Pow32(2)
  {
  }

  lemma TrimRootFacts<V>(t: Tree<V>, k: nat, a: nat, h: nat, left: bool, right: bool)
    requires k >= 1 && a < h < Pow32(k + 1) && h % 32 == 0 && Shr(a, k + 1) == Shr(h, k + 1) == 0
    ensures var r := TrimRoot(t, k, a, h, left, right);
      1 <= r.1 <= k && r.2 <= a && r.2 % 32 == 0 && h - r.2 < Pow32(r.1 + 1)
  {
    hide Pow32, Shr, Lower, Cut;
    LowerFacts(t, k, a, h);
    LowerOffset(t, k, a, h, 0);
  }

  /** Trimming and lowering keep the window, in its new coordinates. */
  lemma TrimAt<V>(t: Tree<V>, k: nat, tail: Tree<V>, a: nat, s: nat, left: bool, right: bool, x: nat)
    requires a <= x < s && 1 <= k <= 5 && TailOffset(s) < Pow32(k + 1)
    ensures var r := Trim(t, k, tail, a, s, left, right);
      Valid(r) && r.origin <= a && ListAt(r, x - (a - r.origin)) == WindowAt(t, k, tail, s, x)
  {
    hide Trim, At, Pow32, Shr, ListAt;
    TrimValid(t, k, tail, a, s, left, right);
    var r := Trim(t, k, tail, a, s, left, right);
    ListAtIsWindowAt(r, x - (a - r.origin));
    if x < TailOffset(s) {
      TrimAtRoot(t, k, tail, a, s, left, right, x);
    } else {
      TrimAtTail(t, k, tail, a, s, left, right, x);
    }
  }

  lemma TrimAtRoot<V>(t: Tree<V>, k: nat, tail: Tree<V>, a: nat, s: nat, left: bool, right: bool, x: nat)
    requires a <= x < TailOffset(s) < Pow32(k + 1) && 1 <= k <= 5
    ensures var r := Trim(t, k, tail, a, s, left, right);
      r.origin <= a && At(r.root, r.level, x - (a - r.origin)) == At(t, k, x)
  {
    hide At, Pow32, Shr, TrimRoot;
    if left || right {
      BothSmall(a, TailOffset(s), k + 1);
      TrimRootAt(t, k, a, TailOffset(s), left, right, x);
    }
  }

  lemma TrimAtTail<V>(t: Tree<V>, k: nat, tail: Tree<V>, a: nat, s: nat, left: bool, right: bool, x: nat)
    requires a <= x < s && TailOffset(s) <= x && TailOffset(s) < Pow32(k + 1) && 1 <= k <= 5
    ensures var r := Trim(t, k, tail, a, s, left, right);
      r.origin <= a && At(r.tail, 0, x - (a - r.origin)) == At(tail, 0, x)
  {
    if a >= TailOffset(s) {
      if tail.Some? {
        CutTailAt(tail.value, a - TailOffset(s), x - TailOffset(s), x);
      }
    } else {
      TrimAtTailMoved(t, k, tail, a, s, left, right, x);
    }
  }

  lemma TrimAtTailMoved<V>(t: Tree<V>, k: nat, tail: Tree<V>, a: nat, s: nat, left: bool, right: bool, x: nat)
    requires a < TailOffset(s) <= x < s && TailOffset(s) < Pow32(k + 1) && 1 <= k <= 5
    ensures var r := Trim(t, k, tail, a, s, left, right);
      r.origin <= a && r.tail == tail && At(tail, 0, x - (a - r.origin)) == At(tail, 0, x)
  {
    hide At, Pow32, Shr, Trim, TailOffset, Valid;
    var r := Trim(t, k, tail, a, s, left, right);
    TrimValid(t, k, tail, a, s, left, right);
    TrimTail(t, k, tail, a, s, left, right);
    MovedBlock(a - r.origin, x);
    TailAtMoved(tail, x - (a - r.origin), x);
  }

  lemma TrimTail<V>(t: Tree<V>, k: nat, tail: Tree<V>, a: nat, s: nat, left: bool, right: bool)
    requires a < TailOffset(s) < Pow32(k + 1) && k >= 1
    ensures Trim(t, k, tail, a, s, left, right).tail == tail
  {
    hide Pow32, TrimRoot, TailOffset;
  }

  lemma MovedBlock(f: int, x: int)
    requires f % 32 == 0
    ensures (x - f) % 32 == x % 32
  {
  }

  lemma CutTailAt<V>(n: VNode<V>, a: nat, z: nat, x: nat)
    requires a <= z < 32 && z % 32 == x % 32
    ensures At(Some(RemoveBefore(n, 0, a)), 0, z) == At(Some(n), 0, x)
  {
    RemoveBeforeAt(n, 0, a, z);
    TailAtMoved(Some(n), z, x);
  }

  lemma TailAtMoved<V>(t: Tree<V>, z: nat, x: nat)
    requires z % 32 == x % 32
    ensures At(t, 0, z) == At(t, 0, x)
  {
  }

  // -------------------------------------------------------- setListBounds

  /** The tail is empty, growing the window will not put it back into the trie,
    * and the trie still holds a leaf from before the tail was cut off. */
  ghost predicate StaleTail<V>(l: List<V>, a: int, s: int) {
    && 0 <= s && TailOffset(s) > TailOffset(l.capacity)
    && !Nonempty(l.tail)
    && exists x: nat :: a <= x && TailOffset(l.capacity) <= x < l.capacity && At(l.root, l.level, x).Some?
  }

  /** The highest index shift `setListBounds` can make without leaving level 25. */
  function RoomLeft(k: nat): nat
    decreases 5 - k
  {
    if k >= 5 then 0 else Pow32(k + 1) + RoomLeft(k + 1)
  }

  lemma {:induction false} GrowLeftLevel<V>(t: Tree<V>, k: nat, a: int, f: nat)
    requires k <= 5
    ensures GrowLeft(t, k, a, f).1 <= 5 <==> a + f + RoomLeft(k) >= 0
    decreases 5 - k
  {
    if a + f < 0 {
      var up := Some(VNode(if Nonempty(t) then [Hole, Sub(t.value)] else []));
      if k < 5 {
        GrowLeftLevel(up, k + 1, a, f + Pow32(k + 1));
      } else {
        assert GrowLeft(up, k + 1, a, f + Pow32(k + 1)).1 >= 6;
      }
    }
  }

  /** One index of the window through the second half of `setListBounds`. */
  lemma ReboundAt<V>(l: List<V>, t1: Tree<V>, k1: nat, a: nat, s: nat, o: nat, i: nat, x: nat)
    requires Valid(l) && 1 <= k1 <= 5
    requires a < s && TailOffset(s) < Pow32(6) && TailOffset(i) < Pow32(k1 + 1)
    requires TailOffset(s) < TailOffset(i) ==> t1 == l.root && k1 == l.level && i == l.capacity
    requires a <= x < s && x < i
    ensures var r := Rebound(l, t1, k1, a, s, o, i);
      && Valid(r) && r.origin <= a && r.capacity - r.origin == s - a
      && (ListAt(r, x - (a - r.origin)) == WindowAt(t1, k1, l.tail, i, x)) ==
         !(TailOffset(i) <= x < TailOffset(s) && !Nonempty(l.tail) && At(t1, k1, x).Some?)
  {
    hide At, Pow32, Shr, ListAt, Trim, NewTail, GrowRight;
    var n := NewRoot(l.tail, t1, k1, a, s, i);
    GrowRightLevel(t1, k1, TailOffset(s), 5);
    var tail := NewTail(l, s, i);
    var left, right := a > o, TailOffset(s) < TailOffset(i);
    TrimValid(n.0, n.1, tail, a, s, left, right);
    TrimAt(n.0, n.1, tail, a, s, left, right, x);
    if x >= TailOffset(s) {
      NewTailAt(l, t1, k1, s, i, x);
    } else {
      NewRootAt(l.tail, t1, k1, a, s, i, x);
    }
  }

  lemma ReboundValid<V>(l: List<V>, t1: Tree<V>, k1: nat, a: nat, s: nat, o: nat, i: nat)
    requires 1 <= k1 <= 5 && a < s && TailOffset(s) < Pow32(6)
    ensures var r := Rebound(l, t1, k1, a, s, o, i);
      Valid(r) && r.origin <= a && r.capacity - r.origin == s - a
  {
    hide Pow32, Trim, NewTail, GrowRight;
    var n := NewRoot(l.tail, t1, k1, a, s, i);
    GrowRightLevel(t1, k1, TailOffset(s), 5);
    TrimValid(n.0, n.1, NewTail(l, s, i), a, s, a > o, TailOffset(s) < TailOffset(i));
  }

  /** Where trie index `x` of the old list is found after the bounds changed. */
  function Moved<V>(l: List<V>, begin: int, r: List<V>, x: int): int {
    x - (l.origin + begin) + r.origin
  }

  /** Every index in both windows still shows its value. */
  ghost predicate Keeps<V>(l: List<V>, begin: int, end: Option<int>, r: List<V>) {
    forall x: nat :: l.origin <= x < l.capacity && l.origin + begin <= x < NewCapacity(l, end)
      ==> Moved(l, begin, r, x) >= 0 && ListAt(r, Moved(l, begin, r, x)) == ListAt(l, x)
  }

  lemma Pow32Six()
    ensures Pow32(6) == MAX_SIZE
  {
    assert Pow32(2) == 1024;
    assert Pow32(4) == 32 * (32 * Pow32(2));
    assert Pow32(6) == 32 * (32 * Pow32(4));
  }

  lemma TailOffsetMonotone(s: nat, t: nat)
    requires s <= t
    ensures TailOffset(s) <= TailOffset(t)
  {
  }

  /** Moving the left end right and the right end anywhere: the values in both
    * windows survive, exactly unless a stale leaf shows through an empty tail. */
  lemma BoundsKeeps<V>(l: List<V>, begin: nat, end: Option<int>)
    requires Valid(l) && Bounds(l, begin, end).Ok?
    ensures var r := Bounds(l, begin, end).value;
      && Valid(r)
      && r.capacity - r.origin == (var n := NewCapacity(l, end) - (l.origin + begin); if n < 0 then 0 else n)
      && (Keeps(l, begin, end, r) <==> !StaleTail(l, l.origin + begin, NewCapacity(l, end)))
  {
    hide At, ListAt, Rebound, GrowLeft, Keeps, StaleTail;
    var a, s := l.origin + begin, NewCapacity(l, end);
    GrowLeftNot(l.root, l.level, a);
    if a < s && !(a == l.origin && s == l.capacity) {
      Pow32Six();
      ReboundValid(l, l.root, l.level, a, s, l.origin, l.capacity);
      BoundsKeepsMain(l, begin, end, Rebound(l, l.root, l.level, a, s, l.origin, l.capacity));
    } else {
      BoundsKeepsTrivially(l, begin, end);
    }
  }

  lemma GrowLeftNot<V>(t: Tree<V>, k: nat, a: nat)
    ensures GrowLeft(t, k, a, 0) == (t, k, 0)
  {
  }

  lemma BoundsKeepsTrivially<V>(l: List<V>, begin: nat, end: Option<int>)
    requires Valid(l) && Bounds(l, begin, end).Ok?
    requires l.origin + begin >= NewCapacity(l, end) || (begin == 0 && NewCapacity(l, end) == l.capacity)
    ensures !StaleTail(l, l.origin + begin, NewCapacity(l, end))
    ensures Keeps(l, begin, end, Bounds(l, begin, end).value)
  {
    hide *;
    NotStale(l, l.origin + begin, NewCapacity(l, end));
    if l.origin + begin >= NewCapacity(l, end) {
      KeepsNothing(l, begin, end, Bounds(l, begin, end).value);
    } else {
      BoundsSame(l, end);
      KeepsItself(l, end);
    }
  }

  lemma KeepsNothing<V>(l: List<V>, begin: nat, end: Option<int>, r: List<V>)
    requires l.origin + begin >= NewCapacity(l, end)
    ensures Keeps(l, begin, end, r)
  {
    hide ListAt, NewCapacity, Moved;
  }

  lemma KeepsItself<V>(l: List<V>, end: Option<int>)
    ensures Keeps(l, 0, end, l)
  {
    hide ListAt, NewCapacity;
  }

  lemma BoundsSame<V>(l: List<V>, end: Option<int>)
    requires Valid(l) && Bounds(l, 0, end).Ok? && NewCapacity(l, end) == l.capacity
    ensures Bounds(l, 0, end) == Ok(l)
  {
    hide Valid, NewCapacity, Rebound, GrowLeft;
  }

  lemma NotStale<V>(l: List<V>, a: int, s: int)
    requires a >= s || s == l.capacity
    ensures !StaleTail(l, a, s)
  {
    hide At, TailOffset;
    if 0 <= s <= l.capacity {
      TailOffsetMonotone(s, l.capacity);
    }
  }

  lemma BoundsKeepsMain<V>(l: List<V>, begin: nat, end: Option<int>, r: List<V>)
    requires Valid(l) && l.origin + begin < NewCapacity(l, end) <= MAX_SIZE
    requires r == Rebound(l, l.root, l.level, l.origin + begin, NewCapacity(l, end), l.origin, l.capacity)
    ensures Keeps(l, begin, end, r) <==> !StaleTail(l, l.origin + begin, NewCapacity(l, end))
  {
    hide At, Pow32, ListAt, Rebound, StaleTail, Keeps, TailOffset;
    var a, s := l.origin + begin, NewCapacity(l, end);
    forall x: nat | a <= x < s && x < l.capacity
      ensures Moved(l, begin, r, x) >= 0
      ensures (ListAt(r, Moved(l, begin, r, x)) == ListAt(l, x)) ==
           !(TailOffset(l.capacity) <= x < TailOffset(s) && !Nonempty(l.tail) && At(l.root, l.level, x).Some?)
    {
      BoundsAt(l, begin, s, r, x);
    }
    BoundsKeepsIff(l, begin, end, r);
  }

  lemma BoundsAt<V>(l: List<V>, begin: nat, s: nat, r: List<V>, x: nat)
    requires Valid(l) && l.origin + begin <= x < s && x < l.capacity && s <= MAX_SIZE
    requires r == Rebound(l, l.root, l.level, l.origin + begin, s, l.origin, l.capacity)
    ensures Moved(l, begin, r, x) >= 0
    ensures (ListAt(r, Moved(l, begin, r, x)) == ListAt(l, x)) ==
        !(TailOffset(l.capacity) <= x < TailOffset(s) && !Nonempty(l.tail) && At(l.root, l.level, x).Some?)
  {
    hide At, Pow32, Shr, ListAt, Rebound;
    Pow32Six();
    ReboundAt(l, l.root, l.level, l.origin + begin, s, l.origin, l.capacity, x);
    AlignedBelow(if x < TailOffset(l.capacity) then x else 0, TailOffset(l.capacity), l.level);
    ListAtIsWindowAt(l, x);
  }

  lemma BoundsKeepsIff<V>(l: List<V>, begin: nat, end: Option<int>, r: List<V>)
    requires Valid(l)
    requires l.origin + begin < NewCapacity(l, end)
    requires forall x: nat :: l.origin + begin <= x < NewCapacity(l, end) && x < l.capacity ==>
        && Moved(l, begin, r, x) >= 0
        && (ListAt(r, Moved(l, begin, r, x)) == ListAt(l, x)) ==
           !(TailOffset(l.capacity) <= x < TailOffset(NewCapacity(l, end)) && !Nonempty(l.tail)
             && At(l.root, l.level, x).Some?)
    ensures Keeps(l, begin, end, r) <==> !StaleTail(l, l.origin + begin, NewCapacity(l, end))
  {
    hide At, ListAt;
    var a, s := l.origin + begin, NewCapacity(l, end);
    if StaleTail(l, a, s) {
      var x: nat :| a <= x && TailOffset(l.capacity) <= x < l.capacity && At(l.root, l.level, x).Some?;
      assert x < TailOffset(s) <= s;
      assert ListAt(r, Moved(l, begin, r, x)) != ListAt(l, x);
    } else {
      forall x: nat | l.origin <= x < l.capacity && a <= x < s
        ensures Moved(l, begin, r, x) >= 0 && ListAt(r, Moved(l, begin, r, x)) == ListAt(l, x)
      {
      }
    }
  }

  /** What raising the root leftwards does to a whole window. */
  lemma GrowLeftWindow<V>(l: List<V>, a: int)
    requires Valid(l) && a < 0
    ensures var (t1, k1, f) := GrowLeft(l.root, l.level, a, 0);
      && f % 32 == 0 && f > 0
      && TailOffset(l.capacity + f) < Pow32(k1 + 1)
      && (k1 <= 5 <==> a + RoomLeft(l.level) >= 0)
      && a + f >= 0
      && (k1 > 5 ==> a + f < TailOffset(l.capacity + f))
      && forall x: nat :: x < l.capacity ==>
           WindowAt(t1, k1, l.tail, l.capacity + f, x + f) == WindowAt(l.root, l.level, l.tail, l.capacity, x)
  {
    hide At, Pow32, GrowLeft, RoomLeft, TailOffset;
    var f := GrowLeft(l.root, l.level, a, 0).2;
    GrowLeftLevel(l.root, l.level, a, 0);
    GrowLeftOffset(l, a);
    forall x: nat | x < l.capacity
      ensures var r := GrowLeft(l.root, l.level, a, 0);
        WindowAt(r.0, r.1, l.tail, l.capacity + f, x + f) == WindowAt(l.root, l.level, l.tail, l.capacity, x)
    {
      GrowLeftShown(l, a, x);
    }
  }

  lemma GrowLeftShown<V>(l: List<V>, a: int, x: nat)
    requires Valid(l) && a < 0 && x < l.capacity
    ensures var r := GrowLeft(l.root, l.level, a, 0);
      WindowAt(r.0, r.1, l.tail, l.capacity + r.2, x + r.2) == WindowAt(l.root, l.level, l.tail, l.capacity, x)
  {
    hide At, Pow32, GrowLeft, RoomLeft, TailOffset;
    var f := GrowLeft(l.root, l.level, a, 0).2;
    GrowLeftOffset(l, a);
    TailOffsetMoved(l.capacity, f);
    if x < TailOffset(l.capacity) {
      GrowLeftAt(l.root, l.level, a, 0, x);
    } else {
      TailAtMoved(l.tail, x + f, x);
    }
  }

  lemma GrowLeftOffset<V>(l: List<V>, a: int)
    requires Valid(l) && a < 0
    ensures var (t1, k1, f) := GrowLeft(l.root, l.level, a, 0);
      && f % 32 == 0 && f > 0
      && TailOffset(l.capacity + f) < Pow32(k1 + 1)
      && (k1 > 5 ==> a + f < TailOffset(l.capacity + f))
  {
    hide At, Pow32, GrowLeft, RoomLeft;
    var r := GrowLeft(l.root, l.level, a, 0);
    GrowLeftAt(l.root, l.level, a, 0, TailOffset(l.capacity));
    GrowLeftLevel(l.root, l.level, a, 0);
    RoomAtStart();
    if l.capacity > 0 {
      TailOffsetMoved(l.capacity, r.2);
    }
  }

  lemma RoomAtStart()
    ensures RoomLeft(1) >= 1024
  {
    assert RoomLeft(1) == Pow32(2) + RoomLeft(2);
    assert Pow32(2) == 1024;
  }

  /** Moving only the left end, to the left: all values survive, exactly when
    * the root is not raised to level 30. */
  lemma BoundsKeepsLeft<V>(l: List<V>, begin: int)
    requires Valid(l) && begin < 0 && Bounds(l, begin, None).Ok?
    ensures var r := Bounds(l, begin, None).value;
      && r.origin <= r.capacity
      && r.capacity - r.origin == l.capacity - l.origin - begin
      && (Valid(r) <==> l.origin + begin + RoomLeft(l.level) >= 0)
      && (Valid(r) ==> Keeps(l, begin, None, r))
  {
    hide At, Pow32, ListAt, Rebound, GrowLeft, RoomLeft, TailOffset;
    var a := l.origin + begin;
    Pow32Six();
    if a >= 0 {
      GrowLeftNot(l.root, l.level, a);
      BoundsKeepsLeftMain(l, begin, l.root, l.level, 0);
    } else {
      GrowLeftWindow(l, a);
      var (t1, k1, f) := GrowLeft(l.root, l.level, a, 0);
      if k1 <= 5 {
        BoundsKeepsLeftMain(l, begin, t1, k1, f);
      } else {
        Level30(l, t1, k1, a + f, l.origin + f, l.capacity + f);
      }
    }
  }

  lemma BoundsKeepsLeftMain<V>(l: List<V>, begin: int, t1: Tree<V>, k1: nat, f: nat)
    requires Valid(l) && begin < 0 && l.origin + begin + f >= 0
    requires 1 <= k1 <= 5 && TailOffset(l.capacity + f) < Pow32(k1 + 1)
    requires forall x: nat :: x < l.capacity ==>
      WindowAt(t1, k1, l.tail, l.capacity + f, x + f) == WindowAt(l.root, l.level, l.tail, l.capacity, x)
    ensures var r := Rebound(l, t1, k1, l.origin + begin + f, l.capacity + f, l.origin + f, l.capacity + f);
      && Valid(r) && r.capacity - r.origin == l.capacity - l.origin - begin
      && Keeps(l, begin, None, r)
  {
    hide At, Pow32, ListAt, Rebound, TailOffset, WindowAt;
    Pow32Monotone(k1 + 1, 6);
    ReboundValid(l, t1, k1, l.origin + begin + f, l.capacity + f, l.origin + f, l.capacity + f);
    var r := Rebound(l, t1, k1, l.origin + begin + f, l.capacity + f, l.origin + f, l.capacity + f);
    forall x: nat | l.origin <= x < l.capacity
      ensures Moved(l, begin, r, x) >= 0 && ListAt(r, Moved(l, begin, r, x)) == ListAt(l, x)
    {
      LeftAt(l, begin, t1, k1, f, r, x);
    }
  }

  lemma LeftAt<V>(l: List<V>, begin: int, t1: Tree<V>, k1: nat, f: nat, r: List<V>, x: nat)
    requires Valid(l) && begin < 0 && l.origin + begin + f >= 0 && l.origin <= x < l.capacity
    requires 1 <= k1 <= 5 && TailOffset(l.capacity + f) < Pow32(k1 + 1)
    requires WindowAt(t1, k1, l.tail, l.capacity + f, x + f) == WindowAt(l.root, l.level, l.tail, l.capacity, x)
    requires r == Rebound(l, t1, k1, l.origin + begin + f, l.capacity + f, l.origin + f, l.capacity + f)
    ensures Moved(l, begin, r, x) >= 0 && ListAt(r, Moved(l, begin, r, x)) == ListAt(l, x)
  {
    hide At, Pow32, Shr, ListAt, Rebound;
    Pow32Monotone(k1 + 1, 6);
    ReboundAt(l, t1, k1, l.origin + begin + f, l.capacity + f, l.origin + f, l.capacity + f, x + f);
    AlignedBelow(if x < TailOffset(l.capacity) then x else 0, TailOffset(l.capacity), l.level);
    ListAtIsWindowAt(l, x);
  }

  /** A root at level 30 or above stays there. */
  lemma Level30<V>(l: List<V>, t1: Tree<V>, k1: nat, a: nat, o: nat, i: nat)
    requires k1 > 5 && a < TailOffset(i) < Pow32(k1 + 1) && a <= o
    ensures var r := Rebound(l, t1, k1, a, i, o, i);
      r.level == k1 && r.origin == a && r.capacity == i && r.root == t1 && r.tail == l.tail
  {
  }

  /** An element that changes when the right end moves was `undefined`. */
  lemma BoundsDiffer<V>(l: List<V>, begin: nat, end: Option<int>, x: nat)
    requires Valid(l) && Bounds(l, begin, end).Ok?
    requires l.origin + begin <= x < NewCapacity(l, end) && l.origin <= x < l.capacity
    ensures var r := Bounds(l, begin, end).value;
      && Moved(l, begin, r, x) >= 0
      && (ListAt(r, Moved(l, begin, r, x)) == ListAt(l, x) || ListAt(l, x) == None)
  {
    hide At, ListAt, Rebound, GrowLeft, TailOffset, Pow32;
    var a, s := l.origin + begin, NewCapacity(l, end);
    GrowLeftNot(l.root, l.level, a);
    if !(a == l.origin && s == l.capacity) {
      var r := Rebound(l, l.root, l.level, a, s, l.origin, l.capacity);
      BoundsAt(l, begin, s, r, x);
      ListAtIsWindowAt(l, x);
      EmptyNode(l.tail, 0, x);
    }
  }
}
