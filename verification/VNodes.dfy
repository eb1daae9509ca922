/** The 32-way trie nodes under `List`: `VNode` and the functions that edit it.
  *
  * A slot of a node's array is a hole (`undefined`), a value (level 0) or a
  * child (higher levels).  Levels are counted in digits: `level / 5`.  Nodes are
  * values here; an edit under an owner token and a copy are the same function.
  */
module VNodes {
  import opened Wrappers
  import opened Radix32

  datatype Slot<V> = Hole | Val(v: V) | Sub(node: VNode<V>)
  datatype VNode<V> = VNode(slots: seq<Slot<V>>)

  type Tree<V> = Option<VNode<V>>

  /** `array[s]`, which is `undefined` beyond the end of the array. */
  function SlotAt<V>(n: VNode<V>, s: nat): Slot<V> {
    if s < |n.slots| then n.slots[s] else Hole
  }

  /** `array[s]` as a child node. */
  function Child<V>(n: VNode<V>, s: nat): Tree<V> {
    match SlotAt(n, s)
    case Sub(c) => Some(c)
    case _ => None
  }

  /** `array[s] = x`; writing past the end leaves holes in between. */
  function Put<V>(a: seq<Slot<V>>, s: nat, x: Slot<V>): (r: seq<Slot<V>>)
    ensures s < |r| && r[s] == x
    ensures forall t :: 0 <= t < |r| && t != s ==> r[t] == if t < |a| then a[t] else Hole
    ensures |r| >= |a|
  {
    if s < |a| then a[s := x] else a + seq(s - |a|, _ => Hole) + [x]
  }

  function Array<V>(t: Tree<V>): seq<Slot<V>> {
    if t.Some? then t.value.slots else []
  }

  function Nonempty<V>(t: Tree<V>): bool {
    t.Some? && |t.value.slots| > 0
  }

  /** What the trie stores for index `x`: the meaning of a node. */
  function At<V>(t: Tree<V>, k: nat, x: nat): Option<V>
    decreases k
  {
    if t.None? then None
    else if k == 0 then
      match SlotAt(t.value, Digit(x, 0)) { case Val(v) => Some(v) case _ => None }
    else At(Child(t.value, Digit(x, k)), k - 1, x)
  }

  /** `updateVNode` */
  function UpdateVNode<V(==)>(t: Tree<V>, k: nat, x: nat, v: Option<V>): Tree<V>
    decreases k
  {
    var s := Digit(x, k);
    var c := t.Some? && s < |t.value.slots|;
    if !c && v.None? then t
    else if k > 0 then
      var was := if t.Some? then Child(t.value, s) else None;
      var now := UpdateVNode(was, k - 1, x, v);
      if now == was then t
      else Some(VNode(Put(Array(t), s, if now.Some? then Sub(now.value) else Hole)))
    else if c && t.value.slots[s] == ToSlot(v) then t
    else if v.None? && s == |Array(t)| - 1 then Some(VNode(Array(t)[..s]))
    else Some(VNode(Put(Array(t), s, ToSlot(v))))
  }

  function ToSlot<V>(v: Option<V>): Slot<V> {
    if v.Some? then Val(v.value) else Hole
  }

  /** `VNode.removeBefore`.  The early return compares the index with the level
    * itself, as the code does. */
  function RemoveBefore<V(==)>(n: VNode<V>, k: nat, x: nat): VNode<V>
    decreases k
  {
    if x == 5 * k || |n.slots| == 0 then n
    else
      var s := Digit(x, k);
      if s >= |n.slots| then VNode([])
      else
        var was := if k > 0 then Child(n, s) else None;
        var now := if was.Some? then Some(RemoveBefore(was.value, k - 1, x)) else None;
        if k > 0 && now == was && s == 0 then n
        else if s == 0 && now.None? then n
        else
          var cleared := seq(s, _ => Hole) + n.slots[s..];
          VNode(if now.Some? then cleared[s := Sub(now.value)] else cleared)
  }

  /** `VNode.removeAfter`.  The early return at `x == 1 << 5 * k` leaves later
    * slots in place, as the code does. */
  function RemoveAfter<V(==)>(n: VNode<V>, k: nat, x: nat): VNode<V>
    requires x > 0
    decreases k
  {
    if x == (if k > 0 then Pow32(k) else 0) || |n.slots| == 0 then n
    else
      var s := Digit(x - 1, k);
      if s >= |n.slots| then n
      else
        var was := if k > 0 then Child(n, s) else None;
        var now := if was.Some? then Some(RemoveAfter(was.value, k - 1, x)) else None;
        if k > 0 && now == was && s == |n.slots| - 1 then n
        else
          var kept := n.slots[..s + 1];
          VNode(if now.Some? then kept[s := Sub(now.value)] else kept)
  }

  /** The descent of `listNodeFor`. */
  function LeafFor<V>(t: Tree<V>, k: nat, x: nat): Tree<V>
    decreases k
  {
    if t.None? || k == 0 then t else LeafFor(Child(t.value, Digit(x, k)), k - 1, x)
  }

  /** The promotion of an old tail into the root by `setListBounds`. */
  function PutLeaf<V>(t: Tree<V>, k: nat, p: nat, leaf: VNode<V>): VNode<V>
    requires k >= 1
    decreases k
  {
    var s := Digit(p, k);
    VNode(Put(Array(t), s,
      Sub(if k == 1 then leaf
          else PutLeaf(if t.Some? then Child(t.value, s) else None, k - 1, p, leaf))))
  }

  // ---------------------------------------------------------------- lemmas

  lemma {:induction false} LeafForAt<V>(t: Tree<V>, k: nat, x: nat)
    ensures At(LeafFor(t, k, x), 0, x) == At(t, k, x)
    decreases k
  {
    if t.Some? && k > 0 {
      LeafForAt(Child(t.value, Digit(x, k)), k - 1, x);
    }
  }

  /** One leaf serves a whole block of 32 indices. */
  lemma {:induction false} LeafForBlock<V>(t: Tree<V>, k: nat, x: nat, y: nat)
    requires Shr(x, 1) == Shr(y, 1)
    ensures LeafFor(t, k, x) == LeafFor(t, k, y)
    decreases k
  {
    if t.Some? && k > 0 {
      SameUpper(x, y, k);
      LeafForBlock(Child(t.value, Digit(x, k)), k - 1, x, y);
    }
  }

  lemma {:induction false} SameUpper(x: nat, y: nat, k: nat)
    requires k >= 1 && Shr(x, 1) == Shr(y, 1)
    ensures Shr(x, k) == Shr(y, k)
  {
    if k > 1 {
      ShrOnce(x, k - 1);
      ShrOnce(y, k - 1);
      SameUpper(x, y, k - 1);
    }
  }

  /** A write is read back at its own index and nowhere else in the node. */
  lemma {:induction false} UpdateAt<V>(t: Tree<V>, k: nat, x: nat, v: Option<V>, y: nat)
    requires Shr(x, k + 1) == Shr(y, k + 1)
    ensures At(UpdateVNode(t, k, x, v), k, y) == if y == x then v else At(t, k, y)
    decreases k
  {
    hide Shr, Digit, At, UpdateVNode;
    SameBlock(x, y, k);
    if k == 0 {
      UpdateLeafAt(t, x, v, y);
    } else {
      var s := Digit(x, k);
      var was := if t.Some? then Child(t.value, s) else None;
      assert s >= |Array(t)| ==> was.None?;
      if Digit(y, k) == s {
        UpdateAt(was, k - 1, x, v, y);
        UpdateSame(t, k, x, v, y, was);
      } else {
        UpdateOther(t, k, x, v, y);
      }
    }
  }

  lemma UpdateSame<V>(t: Tree<V>, k: nat, x: nat, v: Option<V>, y: nat, was: Tree<V>)
    requires k > 0 && Digit(x, k) == Digit(y, k)
    requires was == if t.Some? then Child(t.value, Digit(x, k)) else None
    ensures At(UpdateVNode(t, k, x, v), k, y)
         == if Digit(x, k) >= |Array(t)| && v.None? then None else At(UpdateVNode(was, k - 1, x, v), k - 1, y)
    ensures At(t, k, y) == At(was, k - 1, y) && (was.None? ==> At(was, k - 1, y) == None)
  {
    hide Shr, Digit;
  }

  lemma UpdateOther<V>(t: Tree<V>, k: nat, x: nat, v: Option<V>, y: nat)
    requires k > 0 && Digit(x, k) != Digit(y, k)
    ensures At(UpdateVNode(t, k, x, v), k, y) == At(t, k, y)
  {
    hide Shr, Digit;
  }

  lemma UpdateLeafAt<V>(t: Tree<V>, x: nat, v: Option<V>, y: nat)
    requires Shr(x, 1) == Shr(y, 1)
    ensures At(UpdateVNode(t, 0, x, v), 0, y) == if y == x then v else At(t, 0, y)
  {
    assert Digit(x, 0) == Digit(y, 0) <==> x == y by { SameBlock(x, y, 0); }
  }

  lemma {:induction false} RemoveBeforeAt<V>(n: VNode<V>, k: nat, x: nat, y: nat)
    requires Shr(x, k + 1) == Shr(y, k + 1) && x <= y
    ensures At(Some(RemoveBefore(n, k, x)), k, y) == At(Some(n), k, y)
    decreases k
  {
    SameBlock(x, y, k);
    var s := Digit(x, k);
    if k > 0 && s < |n.slots| && Digit(y, k) == s {
      var was := Child(n, s);
      if was.Some? {
        RemoveBeforeAt(was.value, k - 1, x, y);
      }
    }
  }

  lemma {:induction false} RemoveAfterAt<V>(n: VNode<V>, k: nat, x: nat, y: nat)
    requires x > 0 && Shr(x - 1, k + 1) == Shr(y, k + 1) && y < x
    ensures At(Some(RemoveAfter(n, k, x)), k, y) == At(Some(n), k, y)
    decreases k
  {
    SameBlock(y, x - 1, k);
    var s := Digit(x - 1, k);
    if k > 0 && s < |n.slots| && Digit(y, k) == s {
      var was := Child(n, s);
      if was.Some? {
        RemoveAfterAt(was.value, k - 1, x, y);
      }
    }
  }

  /** The promoted leaf answers for its own 32 indices; all others are as before. */
  lemma {:induction false} PutLeafAt<V>(t: Tree<V>, k: nat, p: nat, leaf: VNode<V>, y: nat)
    requires k >= 1 && Shr(p, k + 1) == Shr(y, k + 1)
    ensures At(Some(PutLeaf(t, k, p, leaf)), k, y)
         == if Shr(p, 1) == Shr(y, 1) then At(Some(leaf), 0, y) else At(t, k, y)
    decreases k
  {
    SameBlock(p, y, k);
    if Digit(y, k) == Digit(p, k) {
      if k > 1 {
        PutLeafAt(if t.Some? then Child(t.value, Digit(p, k)) else None, k - 1, p, leaf, y);
      }
    } else if Shr(p, 1) == Shr(y, 1) {
      SameUpper(p, y, k);
    }
  }

  /** A node only looks at the digits up to its own level. */
  lemma {:induction false} AtMoved<V>(t: Tree<V>, k: nat, x: nat, m: nat)
    ensures At(t, k, x + m * Pow32(k + 1)) == At(t, k, x)
    decreases k
  {
    DigitMoved(x, m, k, k + 1);
    if t.Some? && k > 0 {
      assert m * Pow32(k + 1) == (32 * m) * Pow32(k);
      AtMoved(Child(t.value, Digit(x, k)), k - 1, x, 32 * m);
    }
  }
}
