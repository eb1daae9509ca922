/** Changes of shape on node objects: the loops of `expandNodes` and `packNodes`,
  * and what each change does to the forest of children. */
module OwnedShapes {
  import opened Basics
  import opened Wrappers
  import opened Radix32
  import opened Bitmaps
  import opened TrieNodes
  import opened TrieShapes
  import opened OwnedNodes

  /** The loop of `expandNodes`: `r` are the bits not yet seen. */
  method ExpandNodes<T>(b: nat, nodes: seq<T>) returns (a: seq<Option<T>>, i: nat)
    requires b < 0x1_0000_0000 && Rank(b, 32) == |nodes|
    ensures a == Expand(b, nodes, 32) && i == |nodes|
  {
    hide Expand, Rank, Pow2;
    a, i := [], 0;
    var r: nat, u := b, 0;
    Pow2Word();
    assert nodes[0..] == nodes && [] + Expand(b, nodes, 32) == Expand(b, nodes, 32);
    while r != 0
      invariant 0 <= u <= 32 && |a| == u && 0 <= i && i + Rank(r, 32 - u) == |nodes| && r < Pow2(32 - u)
      invariant a + Expand(r, nodes[i..], 32 - u) == Expand(b, nodes, 32)
      decreases r
    {
      ExpandStep(r, nodes[i..], 32 - u);
      ExpandAssoc(a, if r % 2 == 1 then Some(nodes[i]) else None, nodes, i, r, 31 - u);
      if r % 2 == 1 {
        a, i := a + [Some(nodes[i])], i + 1;
      } else {
        a := a + [None];
      }
      r, u := r / 2, u + 1;
    }
    NoBits(nodes[i..], 32 - u);
    a := a + seq(32 - u, _ => None);
  }

  lemma ExpandStep<T>(r: nat, kids: seq<T>, n: nat)
    requires r < Pow2(n) && r > 0 && Rank(r, n) <= |kids|
    ensures n > 0 && r / 2 < Pow2(n - 1) && Rank(r, n) == r % 2 + Rank(r / 2, n - 1)
    ensures Expand(r, kids, n)
         == [if r % 2 == 1 then Some(kids[0]) else None] + Expand(r / 2, kids[r % 2..], n - 1)
  {
    assert kids[0..] == kids;
  }

  lemma ExpandAssoc<T>(a: seq<Option<T>>, x: Option<T>, nodes: seq<T>, i: nat, r: nat, n: nat)
    requires i + r % 2 <= |nodes| && Rank(r / 2, n) <= |nodes| - i - r % 2
    ensures nodes[i..][r % 2..] == nodes[i + r % 2..]
    ensures a + ([x] + Expand(r / 2, nodes[i + r % 2..], n)) == a + [x] + Expand(r / 2, nodes[i + r % 2..], n)
  {}

  /** Slots past the last bit stay empty. */
  lemma {:induction false} NoBits<T>(kids: seq<T>, n: nat)
    ensures Rank(0, n) == 0 && Expand(0, kids, n) == seq(n, _ => None)
  {
    if n > 0 {
      NoBits(kids, n - 1);
    }
  }

  /** The loop of `packNodes`: `bit` is `1 << s`. */
  method PackNodes<T>(slots: seq<Option<T>>, x: nat) returns (b: nat, a: seq<T>)
    ensures b == PackBits(slots, x) && a == PackKids(slots, x)
  {
    b, a := 0, [];
    var bit: nat := 1;
    assert slots[0..] == slots;
    for s := 0 to |slots|
      invariant b + bit * PackBits(slots[s..], x - s) == PackBits(slots, x)
      invariant a + PackKids(slots[s..], x - s) == PackKids(slots, x)
    {
      var keep := slots[s].Some? && s != x;
      ghost var rest, kids := PackBits(slots[s + 1..], x - s - 1), PackKids(slots[s + 1..], x - s - 1);
      assert slots[s..][1..] == slots[s + 1..];
      assert PackBits(slots[s..], x - s) == (if keep then 1 else 0) + 2 * rest;
      AddBit(bit, if keep then 1 else 0, rest);
      if keep {
        b, a := b + bit, a + [slots[s].value];
      }
      bit := 2 * bit;
    }
  }

  lemma AddBit(p: nat, k: nat, r: nat)
    requires k <= 1
    ensures p * (k + 2 * r) == (if k == 1 then p else 0) + 2 * p * r
  {}

  // ------------------------------------------------------- forests that change

  /** A whole subtree with value `v`. */
  ghost predicate Graft<V>(g: TNode<V>, v: Node<V>, t: OwnerID?)
    reads g, g.repr
  {
    g in g.repr && g.view == v && g.Valid(t)
  }

  /** A forest but for place `p`, from which `g` keeps apart. */
  ghost predicate ForestBut<V>(xs: seq<TNode<V>>, vs: seq<Node<V>>, p: int, apart: set<TNode<V>>,
                               space: set<TNode<V>>, t: OwnerID?)
    reads space
  {
    && |xs| == |vs|
    && (forall i :: 0 <= i < |xs| && i != p ==>
          && xs[i] in space && xs[i].repr <= space && xs[i].view == vs[i] && xs[i].Valid(t)
          && xs[i].repr !! apart)
    && (forall i, j :: 0 <= i < j < |xs| && i != p && j != p ==> xs[i].repr !! xs[j].repr)
  }

  ghost predicate SlotForestBut<V>(xs: seq<Option<TNode<V>>>, vs: seq<Option<Node<V>>>, p: int, apart: set<TNode<V>>,
                                   space: set<TNode<V>>, t: OwnerID?)
    reads space
  {
    && |xs| == |vs|
    && (forall i :: 0 <= i < |xs| && i != p ==> xs[i].Some? == vs[i].Some?)
    && (forall i :: 0 <= i < |xs| && i != p && xs[i].Some? ==>
          && xs[i].value in space && xs[i].value.repr <= space
          && xs[i].value.view == vs[i].value && xs[i].value.Valid(t)
          && xs[i].value.repr !! apart)
    && (forall i, j :: 0 <= i < j < |xs| && i != p && j != p && xs[i].Some? && xs[j].Some? ==>
          xs[i].value.repr !! xs[j].value.repr)
  }

  lemma SetForest<V>(xs: seq<TNode<V>>, vs: seq<Node<V>>, p: nat, g: TNode<V>, v: Node<V>,
                     space: set<TNode<V>>, t: OwnerID?)
    requires ForestBut(xs, vs, p, g.repr, space, t) && p < |xs| && Graft(g, v, t)
    ensures Forest(xs[p := g], vs[p := v], space + g.repr, t)
  {}

  lemma InsertForest<V>(xs: seq<TNode<V>>, vs: seq<Node<V>>, p: nat, g: TNode<V>, v: Node<V>,
                        space: set<TNode<V>>, t: OwnerID?)
    requires ForestBut(xs, vs, -1, g.repr, space, t) && p <= |xs| && Graft(g, v, t)
    ensures Forest(xs[..p] + [g] + xs[p..], vs[..p] + [v] + vs[p..], space + g.repr, t)
  {}

  lemma RemoveForest<V>(xs: seq<TNode<V>>, vs: seq<Node<V>>, p: nat, space: set<TNode<V>>, t: OwnerID?)
    requires ForestBut(xs, vs, p, {}, space, t) && p < |xs|
    ensures Forest(xs[..p] + xs[p + 1..], vs[..p] + vs[p + 1..], space, t)
  {}

  lemma ExpandForest<V>(b: nat, xs: seq<TNode<V>>, vs: seq<Node<V>>, d: nat, g: TNode<V>, v: Node<V>,
                        space: set<TNode<V>>, t: OwnerID?)
    requires ForestBut(xs, vs, -1, g.repr, space, t) && Graft(g, v, t)
    requires Rank(b, 32) == |xs| && d < 32 && !Has(b, d)
    ensures SlotForest(Expand(b, xs, 32)[d := Some(g)], Expand(b, vs, 32)[d := Some(v)], space + g.repr, t)
  {
    hide Has, Rank, Expand;
    var ys, ws := Expand(b, xs, 32), Expand(b, vs, 32);
    forall s: nat | s < 32
      ensures ys[s] == Kid(b, xs, s) && ws[s] == Kid(b, vs, s)
    {
      ExpandKid(b, xs, 32, s);
      ExpandKid(b, vs, 32, s);
    }
    forall i: nat, j: nat | i < j < 32 && ys[i].Some? && ys[j].Some?
      ensures ys[i].value.repr !! ys[j].value.repr
    {
      RankOrder(b, i, j);
    }
  }

  lemma SetSlotForest<V>(xs: seq<Option<TNode<V>>>, vs: seq<Option<Node<V>>>, p: nat, g: TNode<V>, v: Node<V>,
                         space: set<TNode<V>>, t: OwnerID?)
    requires SlotForestBut(xs, vs, p, g.repr, space, t) && p < |xs| && Graft(g, v, t)
    ensures SlotForest(xs[p := Some(g)], vs[p := Some(v)], space + g.repr, t)
  {}

  lemma ClearSlotForest<V>(xs: seq<Option<TNode<V>>>, vs: seq<Option<Node<V>>>, p: nat, space: set<TNode<V>>,
                           t: OwnerID?)
    requires SlotForestBut(xs, vs, p, {}, space, t) && p < |xs|
    ensures SlotForest(xs[p := None], vs[p := None], space, t)
  {}

  lemma {:induction false} PackForest<V>(xs: seq<Option<TNode<V>>>, vs: seq<Option<Node<V>>>, p: int,
                                         space: set<TNode<V>>, t: OwnerID?)
    requires |xs| == |vs| && SlotForestBut(xs, vs, p, {}, space, t)
    requires 0 <= p < |xs| ==> xs[p].Some? && vs[p].Some?
    ensures PackBits(xs, p) == PackBits(vs, p)
    ensures Forest(PackKids(xs, p), PackKids(vs, p), space, t)
  {
    hide SlotForestBut, Forest;
    if xs == [] {
      NoForest(space, t);
    } else {
      TailForest(xs, vs, p, space, t);
      PackForest(xs[1..], vs[1..], p - 1, space, t);
      assert [] + PackKids(xs[1..], p - 1) == PackKids(xs[1..], p - 1);
      assert [] + PackKids(vs[1..], p - 1) == PackKids(vs[1..], p - 1);
      if xs[0].Some? && p != 0 {
        var ys := PackKids(xs[1..], p - 1);
        forall y | y in ys ensures exists i :: 1 <= i < |xs| && i != p && xs[i] == Some(y) {
          var i := PackedFrom(xs[1..], p - 1, y);
          assert xs[i + 1] == Some(y);
        }
        HeadApart(xs, vs, p, space, t, ys);
        ConsForest(xs[0].value, vs[0].value, ys, PackKids(vs[1..], p - 1), space, t);
      }
    }
  }

  lemma NoForest<V>(space: set<TNode<V>>, t: OwnerID?)
    ensures Forest([], [], space, t)
  {}

  /** A packed child comes from a slot that is kept. */
  lemma {:induction false} PackedFrom<T>(xs: seq<Option<T>>, p: int, y: T) returns (i: nat)
    requires y in PackKids(xs, p)
    ensures i < |xs| && i != p && xs[i] == Some(y)
  {
    if xs[0].Some? && p != 0 && xs[0].value == y {
      i := 0;
    } else {
      i := PackedFrom(xs[1..], p - 1, y);
      i := i + 1;
    }
  }

  lemma TailForest<V>(xs: seq<Option<TNode<V>>>, vs: seq<Option<Node<V>>>, p: int, space: set<TNode<V>>, t: OwnerID?)
    requires SlotForestBut(xs, vs, p, {}, space, t) && xs != []
    ensures SlotForestBut(xs[1..], vs[1..], p - 1, {}, space, t)
    ensures p != 0 ==> xs[0].Some? == vs[0].Some?
  {}

  lemma HeadApart<V>(xs: seq<Option<TNode<V>>>, vs: seq<Option<Node<V>>>, p: int, space: set<TNode<V>>, t: OwnerID?,
                     ys: seq<TNode<V>>)
    requires SlotForestBut(xs, vs, p, {}, space, t) && xs != [] && p != 0 && xs[0].Some?
    requires forall y :: y in ys ==> exists i :: 1 <= i < |xs| && i != p && xs[i] == Some(y)
    ensures forall j :: 0 <= j < |ys| ==> xs[0].value.repr !! ys[j].repr
    ensures xs[0].value in space && xs[0].value.repr <= space
    ensures xs[0].value.view == vs[0].value && xs[0].value.Valid(t)
  {
    forall j | 0 <= j < |ys| ensures xs[0].value.repr !! ys[j].repr {
      assert ys[j] in ys;
    }
  }

  lemma ConsForest<V>(x: TNode<V>, v: Node<V>, xs: seq<TNode<V>>, vs: seq<Node<V>>, space: set<TNode<V>>, t: OwnerID?)
    requires Forest(xs, vs, space, t) && forall j :: 0 <= j < |xs| ==> x.repr !! xs[j].repr
    requires x in space && x.repr <= space && x.view == v && x.Valid(t)
    ensures Forest([x] + xs, [v] + vs, space, t)
  {}
}
