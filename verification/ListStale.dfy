/** The shapes of a list of 65 elements, built one by one and then emptied from
  * the end: its tail becomes empty while a leaf of the trie keeps its elements. */
module ListStale {
  import opened Wrappers
  import opened Radix32
  import opened VNodes
  import opened Lists
  import opened ListOps

  function Vals<V>(vs: seq<V>): seq<Slot<V>> {
    seq(|vs|, i requires 0 <= i < |vs| => Val(vs[i]))
  }

  function Leaf<V>(vs: seq<V>): VNode<V> {
    VNode(Vals(vs))
  }

  /** The list after pushing up to 65 elements one by one. */
  function Built<V>(vs: seq<V>): List<V>
    requires |vs| <= 65
  {
    var n := |vs|;
    if n == 0 then Empty()
    else if n <= 32 then List(0, n, 1, None, Some(Leaf(vs)))
    else if n <= 64 then List(0, n, 1, Some(VNode([Sub(Leaf(vs[..32]))])), Some(Leaf(vs[32..])))
    else List(0, n, 1, Some(VNode([Sub(Leaf(vs[..32])), Sub(Leaf(vs[32..64]))])), Some(Leaf(vs[64..])))
  }

  /** The same after the last two, and then more from the end, were removed: all
    * of them stay in the root. */
  function Emptied<V>(vs: seq<V>, j: nat): List<V>
    requires |vs| == 65 && 32 <= j <= 63
  {
    List(0, 64, 1, Some(VNode([Sub(Leaf(vs[..32])), Sub(Leaf(vs[32..63]))])), Some(Leaf(vs[32..j])))
  }

  lemma BuiltValid<V>(vs: seq<V>)
    requires |vs| <= 65
    ensures Valid(Built(vs)) && Built(vs).origin == 0 && Built(vs).capacity == |vs|
    ensures !StaleTail(Built(vs), 0, |vs| + 1)
  {
    Levels();
  }

  lemma Levels()
    ensures Pow32(1) == 32 && Pow32(2) == 1024
  {
    assert Pow32(1) == 32 * Pow32(0);
  }

  lemma PushIs<V>(l: List<V>, m: List<V>, v: V)
    requires Valid(l) && Bounds(l, 0, Some(Size(l) + 1)) == Ok(m)
    ensures Valid(m) && Size(m) == Size(l) + 1 && Push(l, [Some(v)]) == Ok(ListOps.Set(m, Size(l), Some(v)))
  {
    hide Bounds, ListOps.Set, SetAll, Valid;
    RightSize(l, 1);
    SetAllOne(m, Size(l), Some(v));
  }

  lemma SetAllOne<V>(m: List<V>, i: nat, v: Option<V>)
    requires Valid(m) && i < Size(m)
    ensures SetAll(m, i, [v]) == ListOps.Set(m, i, v)
  {
    hide TailOffset, UpdateVNode;
    assert [v][1..] == [];
  }

  /** One more value at the end of the tail. */
  lemma PutTail<V>(t: Tree<V>, vs: seq<V>, x: nat, v: V)
    requires t == Some(Leaf(vs)) || (t == None && vs == [])
    requires x % 32 == |vs|
    ensures UpdateVNode(t, 0, x, Some(v)) == Some(Leaf(vs + [v]))
  {
    assert Digit(x, 0) == |vs|;
    assert Vals(vs + [v]) == Vals(vs) + [Val(v)];
    assert Array(t) == Vals(vs);
    assert Put(Vals(vs), |vs|, Val(v)) == Vals(vs) + [Val(v)];
  }

  lemma PushBuilt<V>(vs: seq<V>, v: V)
    requires |vs| < 65
    ensures Valid(Built(vs)) && Push(Built(vs), [Some(v)]) == Ok(Built(vs + [v]))
  {
    BuiltValid(vs);
    if |vs| == 32 {
      PushFirstLeaf(vs, v);
    } else if |vs| == 64 {
      PushSecondLeaf(vs, v);
    } else {
      PushInTail(vs, v);
    }
  }

  lemma PushInTail<V>(vs: seq<V>, v: V)
    requires |vs| < 64 && |vs| != 32 && Valid(Built(vs))
    ensures Push(Built(vs), [Some(v)]) == Ok(Built(vs + [v]))
  {
    hide Bounds, UpdateVNode, Push, Built, Valid;
    BoundsInTail(vs);
    BuiltCapacity(vs);
    PushIs(Built(vs), Built(vs).(capacity := |vs| + 1), v);
    SetInTail(vs, v);
  }

  lemma BuiltCapacity<V>(vs: seq<V>)
    requires |vs| <= 65
    ensures Size(Built(vs)) == |vs| && Built(vs).origin == 0
  {}

  lemma SetInTail<V>(vs: seq<V>, v: V)
    requires |vs| < 64 && |vs| != 32
    requires Valid(Built(vs).(capacity := |vs| + 1))
    ensures ListOps.Set(Built(vs).(capacity := |vs| + 1), |vs|, Some(v)) == Built(vs + [v])
  {
    hide UpdateVNode, Leaf;
    var n, l := |vs|, Built(vs);
    if n < 32 {
      PutTail(l.tail, vs, n, v);
    } else {
      PutTail(l.tail, vs[32..], n, v);
      assert (vs + [v])[..32] == vs[..32] && (vs + [v])[32..] == vs[32..] + [v];
    }
  }

  lemma BoundsInTail<V>(vs: seq<V>)
    requires |vs| < 64 && |vs| != 32 && Valid(Built(vs))
    ensures Bounds(Built(vs), 0, Some(|vs| + 1)) == Ok(Built(vs).(capacity := |vs| + 1))
  {
    if |vs| < 32 {
      BoundsInFirst(Built(vs));
    } else {
      BoundsInSecond(Built(vs));
    }
  }

  lemma BoundsInFirst<V>(l: List<V>)
    requires Valid(l) && l.origin == 0 && l.level == 1 && l.capacity < 32 && l.root == None
    ensures Bounds(l, 0, Some(l.capacity + 1)) == Ok(l.(capacity := l.capacity + 1))
  {
    Levels();
    assert TailOffset(l.capacity) == TailOffset(l.capacity + 1) == 0;
  }

  lemma BoundsInSecond<V>(l: List<V>)
    requires Valid(l) && l.origin == 0 && l.level == 1 && 32 < l.capacity < 64
    ensures Bounds(l, 0, Some(l.capacity + 1)) == Ok(l.(capacity := l.capacity + 1))
  {
    Levels();
    assert TailOffset(l.capacity) == TailOffset(l.capacity + 1) == 32;
    hide TailOffset;
  }

  /** A full tail moves to the root. */
  lemma PushFirstLeaf<V>(vs: seq<V>, v: V)
    requires |vs| == 32 && Valid(Built(vs))
    ensures Push(Built(vs), [Some(v)]) == Ok(Built(vs + [v]))
  {
    BoundsFirstLeaf(vs);
    hide Bounds, UpdateVNode, Push;
    var m := List(0, 33, 1, Some(VNode([Sub(Leaf(vs))])), Some(Leaf([])));
    PushIs(Built(vs), m, v);
    PutTail(m.tail, [], 32, v);
    assert (vs + [v])[..32] == vs && (vs + [v])[32..] == [] + [v];
  }

  lemma BoundsFirstLeaf<V>(vs: seq<V>)
    requires |vs| == 32 && Valid(Built(vs))
    ensures Bounds(Built(vs), 0, Some(33)) == Ok(List(0, 33, 1, Some(VNode([Sub(Leaf(vs))])), Some(Leaf([]))))
  {
    Levels();
    assert VNode([]) == Leaf<V>([]) && Digit(0, 1) == 0;
    assert PutLeaf(None, 1, 0, Leaf(vs)) == VNode([Sub(Leaf(vs))]);
  }

  lemma PushSecondLeaf<V>(vs: seq<V>, v: V)
    requires |vs| == 64 && Valid(Built(vs))
    ensures Push(Built(vs), [Some(v)]) == Ok(Built(vs + [v]))
  {
    BoundsSecondLeaf(vs);
    hide Bounds, UpdateVNode, Push;
    var m := List(0, 65, 1, Some(VNode([Sub(Leaf(vs[..32])), Sub(Leaf(vs[32..]))])), Some(Leaf([])));
    PushIs(Built(vs), m, v);
    PutTail(m.tail, [], 64, v);
    assert (vs + [v])[..32] == vs[..32] && (vs + [v])[32..64] == vs[32..] && (vs + [v])[64..] == [] + [v];
  }

  lemma BoundsSecondLeaf<V>(vs: seq<V>)
    requires |vs| == 64 && Valid(Built(vs))
    ensures Bounds(Built(vs), 0, Some(65))
         == Ok(List(0, 65, 1, Some(VNode([Sub(Leaf(vs[..32])), Sub(Leaf(vs[32..]))])), Some(Leaf([]))))
  {
    Levels();
    var root := Built(vs).root;
    assert VNode([]) == Leaf<V>([]) && Digit(32, 1) == 1 && |Leaf(vs[32..]).slots| == 32;
    assert PutLeaf(root, 1, 32, Leaf(vs[32..])) == VNode([Sub(Leaf(vs[..32])), Sub(Leaf(vs[32..]))]);
  }

  // -------------------------------------------------------------- removals

  /** Index 63 is cleared first, in the root. */
  function Cleared63<V>(vs: seq<V>): List<V>
    requires |vs| == 65
  {
    List(0, 65, 1, Some(VNode([Sub(Leaf(vs[..32])), Sub(Leaf(vs[32..63]))])), Some(Leaf(vs[64..])))
  }

  lemma Clear63<V>(vs: seq<V>)
    requires |vs| == 65 && Valid(Built(vs))
    ensures ListOps.Set(Built(vs), 63, None) == Cleared63(vs)
  {
    var l := Built(vs);
    assert Digit(63, 1) == 1 && Digit(63, 0) == 31;
    var leaf := Leaf(vs[32..64]);
    assert |leaf.slots| == 32 && leaf.slots[31] == Val(vs[63]);
    assert Vals(vs[32..64])[..31] == Vals(vs[32..63]);
    assert UpdateVNode(Some(leaf), 0, 63, None) == Some(Leaf(vs[32..63]));
    assert leaf != Leaf(vs[32..63]) by { assert |Vals(vs[32..64])| == 32 && |Vals(vs[32..63])| == 31; }
    var first, now := Sub(Leaf(vs[..32])), Sub(Leaf(vs[32..63]));
    assert l.root.value.slots == [first, Sub(leaf)] && Child(l.root.value, 1) == Some(leaf);
    assert Put([first, Sub(leaf)], 1, now) == [first, now];
    assert UpdateVNode(l.root, 1, 63, None) == Some(VNode([first, now]));
  }

  /** Then the last one is popped: the leaf below becomes the tail and stays in
    * the root too, for the cut is where `removeAfter` returns early. */
  lemma PopCleared<V>(vs: seq<V>)
    requires |vs| == 65 && Valid(Cleared63(vs))
    ensures Pop(Cleared63(vs)) == Ok(Emptied(vs, 63))
  {
    Levels();
    var l := Cleared63(vs);
    var root, leaf := l.root, Leaf(vs[32..63]);
    ShiftOneIsPow32(1);
    assert Digit(63, 1) == 1 && Digit(63, 0) == 31 && Digit(0, 1) == 0 && Digit(32, 1) == 1;
    assert LeafFor(root, 1, 63) == LeafFor(Some(leaf), 0, 63) == Some(leaf);
    assert RemoveAfter(leaf, 0, 64) == leaf;
    assert NewTail(l, 64, 65) == Some(leaf);
    BothSmall(0, 32, 2);
    assert RemoveAfter(root.value, 1, 32) == root.value;
    assert TrimRoot(root, 1, 0, 32, false, true) == (root, 1, 0);
  }

  lemma ClearLast<V>(vs: seq<V>, j: nat)
    requires |vs| == 65 && 32 <= j < 63 && Valid(Emptied(vs, j + 1))
    ensures ListOps.Set(Emptied(vs, j + 1), j, None) == Emptied(vs, j)
  {
    assert Digit(j, 0) == j - 32;
    assert Vals(vs[32..j + 1])[..j - 32] == Vals(vs[32..j]);
  }

  lemma ShapesValid<V>(vs: seq<V>, j: nat)
    requires |vs| == 65 && 32 <= j <= 63
    ensures Valid(Cleared63(vs)) && Valid(Emptied(vs, j))
  {
    Levels();
  }

  /** The last list hides a stale leaf, and one more element shows it. */
  lemma PushShows<V>(vs: seq<V>, v: V)
    requires |vs| == 65 && Valid(Emptied(vs, 32))
    ensures StaleTail(Emptied(vs, 32), 0, 65)
    ensures Push(Emptied(vs, 32), [Some(v)]).Ok?
    ensures var r := Push(Emptied(vs, 32), [Some(v)]).value; r.origin == 0 && ListAt(r, 32) == Some(vs[32])
  {
    Levels();
    var l := Emptied(vs, 32);
    assert vs[32..32] == [];
    assert Digit(32, 1) == 1 && Digit(32, 0) == 0;
    var leaf := Leaf(vs[32..63]);
    assert At(l.root, 1, 32) == At(Some(leaf), 0, 32) == Some(vs[32]);
    var m := List(0, 65, 1, l.root, Some(VNode([])));
    assert Bounds(l, 0, Some(65)) == Ok(m);
    PushIs(l, m, v);
    ShiftOneIsPow32(1);
    assert LeafFor(l.root, 1, 32) == LeafFor(Some(leaf), 0, 32) == Some(leaf);
  }

  lemma BuiltShows63<V>(vs: seq<V>)
    requires |vs| == 65
    ensures ListAt(Built(vs), 63) == Some(vs[63])
  {
    ShiftOneIsPow32(1);
    Levels();
    assert Digit(63, 1) == 1 && Digit(63, 0) == 31;
    var leaf := Leaf(vs[32..64]);
    assert LeafFor(Built(vs).root, 1, 63) == LeafFor(Some(leaf), 0, 63) == Some(leaf);
  }

  lemma ClearedShows64<V>(vs: seq<V>)
    requires |vs| == 65
    ensures ListAt(Cleared63(vs), 64) == Some(vs[64])
  {
    assert Digit(64, 0) == 0;
  }

  lemma EmptiedShows<V>(vs: seq<V>, j: nat)
    requires |vs| == 65 && 32 <= j < 63
    ensures ListAt(Emptied(vs, j + 1), j) == Some(vs[j])
  {
    assert Digit(j, 0) == j - 32;
  }
}
