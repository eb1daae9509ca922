/** `update` on node objects: it gives the value that the pure update gives, and
  * it changes no node but those of the owner it works for. */
module OwnedTries {
  import opened Basics
  import opened Wrappers
  import opened Radix32
  import opened Bitmaps
  import opened TrieNodes
  import opened TrieShapes
  import opened HashMaps
  import opened OwnedNodes
  import opened OwnedShapes

  /** `key` shares its hash with no other key of the node. */
  ghost predicate NoClash<V>(n: Node<V>, key: Key) {
    forall k :: k in KeysOf(n) && k.hash == key.hash ==> k == key
  }

  /** New nodes only, beside those of `was`. */
  twostate predicate Within<V>(new r: set<TNode<V>>, was: set<TNode<V>>) {
    forall x :: x in r ==> x in was || fresh(x)
  }

  /** `mergeIntoNode` of a value node and a new entry with another hash. */
  method Merge<V>(leaf: TNode<V>, t: OwnerID?, k: nat, entry: (Key, V)) returns (r: TNode<V>)
    requires leaf.Valid(t) && leaf.body.ValueBody? && leaf.view.keyHash != entry.0.hash
    requires Shr(leaf.view.keyHash, k) != Shr(entry.0.hash, k)
    ensures fresh(r) && r.Valid(t) && r.view == MergeInto(leaf.view, k, entry.0.hash, entry)
    ensures Within(r.repr, leaf.repr)
    decreases 7 - k
  {
    var leafHash, hash := leaf.view.keyHash, entry.0.hash;
    SevenDigits(leafHash, hash, k);
    var a, b := Digit(leaf.body.entry.0.hash, k), Digit(hash, k);
    if a == b {
      ShrOnce(leafHash, k);
      ShrOnce(hash, k);
      var m := Merge(leaf, t, k + 1, entry);
      r := NewBitmap(t, Pow2(a), [m], [m.view], m.repr);
    } else {
      var m := NewValue(t, entry);
      var nodes := if a < b then [leaf, m] else [m, leaf];
      ghost var views := if a < b then [leaf.view, m.view] else [m.view, leaf.view];
      r := NewBitmap(t, Pow2(a) + Pow2(b), nodes, views, leaf.repr + m.repr);
    }
  }

  /** `ValueNode.update` */
  method UpdateValue<V(==)>(n: TNode<V>, t: OwnerID?, ghost path: seq<nat>, k: nat, key: Key, v: Option<V>)
    returns (r: Option<TNode<V>>, resized: bool, altered: bool)
    requires n.Valid(t) && n.body.ValueBody? && WF(n.view, path) && OnPath(key.hash, path) && k == |path|
    requires NoClash(n.view, key)
    modifies Editable(n.repr, t)
    ensures Updated(old(n.view), path, key, v, n, r, resized, altered, t)
    ensures r.Some? ==> Within(r.value.repr, old(n.repr))
  {
    hide MergeInto, OnPath, Shr;
    LeafMerge(n.view, path, key);
    var e := n.body.entry;
    if if e.0 == key then v == Some(e.1) else v.None? {
      return Some(n), false, false;
    }
    if v.None? {
      return None, true, true;
    }
    if e.0 == key {
      if Mine(n, t) {
        n.body := ValueBody((e.0, v.value));
        n.view := Value(key.hash, (key, v.value));
        return Some(n), false, true;
      }
      var x := NewValue(t, (key, v.value));
      return Some(x), false, true;
    }
    var m := Merge(n, t, k, (key, v.value));
    return Some(m), true, true;
  }

  /** What an update must give; that the node came back unedited, or edited in
    * place, tells its parent that nothing has to be replaced. */
  ghost predicate Updated<V>(before: Node<V>, path: seq<nat>, key: Key, v: Option<V>, n: TNode<V>,
                                 r: Option<TNode<V>>, resized: bool, altered: bool, t: OwnerID?)
    requires WF(before, path) && OnPath(key.hash, path)
    reads n, if r.Some? then {r.value} + r.value.repr else {}
  {
    var u := Update(before, path, key, v);
    && altered == u.New? && resized == (u.New? && u.resized)
    && (u.Same? ==> r == Some(n))
    && (r.Some? ==> r.value in r.value.repr && r.value.Valid(t))
    && (if u.Same? then n.view == before
        else if u.node.None? then r == None
        else r.Some? && r.value.view == u.node.value)
    && (r == Some(n) ==> Leaf(n.view) == Leaf(before))
  }

  /** `isLeafNode` */
  predicate IsLeaf<V>(n: TNode<V>)
    reads n
  {
    n.body.ValueBody?
  }

  ghost function Repr<V>(g: Option<TNode<V>>): set<TNode<V>>
    reads if g.Some? then {g.value} else {}
  {
    if g.Some? then g.value.repr else {}
  }

  /** The end of `BitmapIndexedNode.update`, once its child in slot `d` became `g`. */
  method FinishBitmap<V>(n: TNode<V>, t: OwnerID?, d: nat, g: Option<TNode<V>>, ghost v: Option<Node<V>>,
                         b: nat, nodes: seq<TNode<V>>, ghost kids: seq<Node<V>>, ghost space: set<TNode<V>>)
    returns (r: TNode<V>)
    requires b < 0x1_0000_0000 && d < 32 && |kids| == Rank(b, 32) && n.body.BitmapBody?
    requires ForestBut(nodes, kids, if Has(b, d) then Rank(b, d) else -1, Repr(g), space, t)
    requires n !in space + Repr(g) && g.Some? == v.Some? && (g.Some? ==> Graft(g.value, v.value, t))
    requires Has(b, d) || g.Some?
    modifies Editable({n}, t)
    ensures r in r.repr && r.Valid(t) && r.view == ReplaceInBitmap(b, kids, d, v)
    ensures Within(r.repr, space + old(Repr(g)) + {n}) && (r == n ==> r.view.Bitmap?)
  {
    hide Has, Rank, Expand, Pow2;
    RankBelow(b, d);
    var p := Place(b, d);
    if Has(b, d) {
      if g.None? {
        if |nodes| == 2 && IsLeaf(nodes[1 - p]) {
          return nodes[1 - p];
        }
        RemoveForest(nodes, kids, p, space, t);
        r := PutBitmap(n, t, Without(b, d), nodes[..p] + nodes[p + 1..], kids[..p] + kids[p + 1..], space);
      } else {
        if |nodes| == 1 && IsLeaf(g.value) {
          return g.value;
        }
        SetForest(nodes, kids, p, g.value, v.value, space, t);
        r := PutBitmap(n, t, b, nodes[p := g.value], kids[p := v.value], space + g.value.repr);
      }
    } else {
      if |nodes| >= MAX_BITMAP {
        var slots, count := ExpandNodes(b, nodes);
        ExpandForest(b, nodes, kids, d, g.value, v.value, space, t);
        r := NewHashArray(t, count + 1, slots[d := g], Expand(b, kids, 32)[d := v], space + g.value.repr);
      } else {
        InsertForest(nodes, kids, p, g.value, v.value, space, t);
        r := PutBitmap(n, t, With(b, d), nodes[..p] + [g.value] + nodes[p..], kids[..p] + [v.value] + kids[p..],
          space + g.value.repr);
      }
    }
  }

  /** The end of `HashArrayMapNode.update`. */
  method FinishHashArray<V>(n: TNode<V>, t: OwnerID?, d: nat, g: Option<TNode<V>>, ghost v: Option<Node<V>>,
                            c: nat, slots: seq<Option<TNode<V>>>, ghost views: seq<Option<Node<V>>>,
                            ghost space: set<TNode<V>>)
    returns (r: TNode<V>)
    requires c > 0 && d < |slots| && n.body.HashArrayBody?
    requires SlotForestBut(slots, views, d, Repr(g), space, t) && slots[d].Some? == views[d].Some?
    requires n !in space + Repr(g) && g.Some? == v.Some? && (g.Some? ==> Graft(g.value, v.value, t))
    requires slots[d].Some? || g.Some?
    modifies Editable({n}, t)
    ensures r in r.repr && r.Valid(t) && r.view == ReplaceInHashArray(c, views, d, v)
    ensures Within(r.repr, space + old(Repr(g)) + {n}) && (r == n ==> !Leaf(r.view))
  {
    var count := c;
    if slots[d].Some? {
      if g.None? {
        count := count - 1;
        if count < MIN_HASH_ARRAY {
          PackForest(slots, views, d, space, t);
          var b, nodes := PackNodes(slots, d);
          r := NewBitmap(t, b, nodes, PackKids(views, d), space);
          return;
        }
      }
    } else {
      count := count + 1;
    }
    if g.Some? {
      SetSlotForest(slots, views, d, g.value, v.value, space, t);
      r := PutHashArray(n, t, count, slots[d := g], views[d := v], space + g.value.repr);
    } else {
      ClearSlotForest(slots, views, d, space, t);
      r := PutHashArray(n, t, count, slots[d := g], views[d := v], space);
    }
  }

  /** `update` below the root. */
  method UpdateNode<V(==)>(n: TNode<V>, t: OwnerID?, ghost path: seq<nat>, k: nat, key: Key, v: Option<V>)
    returns (r: Option<TNode<V>>, resized: bool, altered: bool)
    requires n.Valid(t) && WF(n.view, path) && OnPath(key.hash, path) && k == |path| && NoClash(n.view, key)
    modifies Editable(n.repr, t)
    ensures Updated(old(n.view), path, key, v, n, r, resized, altered, t)
    ensures r.Some? ==> Within(r.value.repr, old(n.repr))
    decreases n.view, 3
  {
    if n.body.ValueBody? {
      r, resized, altered := UpdateValue(n, t, path, k, key, v);
    } else if n.body.BitmapBody? {
      r, resized, altered := UpdateBitmap(n, t, path, k, key, v);
    } else {
      r, resized, altered := UpdateHashArray(n, t, path, k, key, v);
    }
  }

  /** The child in place `p`; the forest around it stays. */
  method UpdateKid<V(==)>(n: TNode<V>, p: nat, t: OwnerID?, ghost path: seq<nat>, k: nat, key: Key, v: Option<V>)
    returns (r: Option<TNode<V>>, resized: bool, altered: bool)
    requires n.Valid(t) && n.body.BitmapBody? && p < |n.body.nodes|
    requires WF(n.view.kids[p], path) && OnPath(key.hash, path) && k == |path| && NoClash(n.view.kids[p], key)
    modifies Editable(n.body.nodes[p].repr, t)
    ensures n.body == old(n.body) && n.view == old(n.view) && n.repr == old(n.repr) && n !in Repr(r)
    ensures Updated(old(n.view.kids[p]), path, key, v, n.body.nodes[p], r, resized, altered, t)
    ensures Within(Repr(r), old(n.body.nodes[p].repr))
    ensures ForestBut(n.body.nodes, n.view.kids, p, Repr(r), n.repr - {n}, t)
    ensures old(NoneMine(n.repr, t)) ==> n.Valid(t) && n.body.nodes[p].view == old(n.view.kids[p])
    decreases n.view, 0
  {
    hide WF, OnPath, NoClash;
    BitmapForest(n, t);
    r, resized, altered := UpdateNode(n.body.nodes[p], t, path, k, key, v);
  }

  /** `BitmapIndexedNode.update` */
  method UpdateBitmap<V(==)>(n: TNode<V>, t: OwnerID?, ghost path: seq<nat>, k: nat, key: Key, v: Option<V>)
    returns (r: Option<TNode<V>>, resized: bool, altered: bool)
    requires n.Valid(t) && WF(n.view, path) && OnPath(key.hash, path) && k == |path| && NoClash(n.view, key)
    requires n.body.BitmapBody?
    modifies Editable(n.repr, t)
    ensures Updated(old(n.view), path, key, v, n, r, resized, altered, t)
    ensures r.Some? ==> Within(r.value.repr, old(n.repr))
    decreases n.view, 2
  {
    hide Has, Rank, OnPath, WF, Update, Updated, ReplaceInBitmap, NoClash, Forest, n.Valid;
    var d := Digit(key.hash, k);
    var b := n.body.bitmap;
    BitmapFacts(n, t, path, key, v);
    if Has(b, d) {
      r, resized, altered := UpdateHeld(n, d, Place(b, d), t, path, k, key, v);
    } else if v.None? {
      NothingToRemove(n, t, path, key);
      return Some(n), false, false;
    } else {
      var m := AddKid(n, d, t, path, key, v.value);
      return Some(m), true, true;
    }
  }

  /** The rest for a slot that holds a child. */
  method UpdateHeld<V(==)>(n: TNode<V>, d: nat, p: nat, t: OwnerID?, ghost path: seq<nat>, k: nat, key: Key,
                           v: Option<V>)
    returns (r: Option<TNode<V>>, resized: bool, altered: bool)
    requires n.Valid(t) && WF(n.view, path) && OnPath(key.hash, path) && k == |path| && NoClash(n.view, key)
    requires n.body.BitmapBody? && n.view.Bitmap? && d == Digit(key.hash, k)
    requires Has(n.body.bitmap, d) && p == Rank(n.body.bitmap, d) && n.body.bitmap == n.view.bitmap
    modifies Editable(n.repr, t)
    ensures Updated(old(n.view), path, key, v, n, r, resized, altered, t)
    ensures r.Some? ==> Within(r.value.repr, old(n.repr))
    decreases n.view, 1
  {
    hide Has, Rank, OnPath, WF, Update, ReplaceInBitmap, NoClash, ForestBut, n.Valid;
    BitmapFacts(n, t, path, key, v);
    var b, nodes := n.body.bitmap, n.body.nodes;
    ghost var kids, space := n.view.kids, n.repr - {n};
    var g;
    g, resized, altered := UpdateKid(n, p, t, path + [d], k + 1, key, v);
    if g == Some(nodes[p]) {
      KeepBitmap(n, t, nodes[p].view, p);
      KeepIsReplace(b, kids, d, nodes[p].view);
      r := Some(n);
    } else {
      var m := FinishBitmap(n, t, d, g, if g.Some? then Some(g.value.view) else None, b, nodes, kids, space);
      r := Some(m);
    }
  }

  /** The rest for an empty slot. */
  method AddKid<V(==)>(n: TNode<V>, d: nat, t: OwnerID?, ghost path: seq<nat>, key: Key, v: V) returns (m: TNode<V>)
    requires n.Valid(t) && WF(n.view, path) && OnPath(key.hash, path) && NoClash(n.view, key)
    requires n.body.BitmapBody? && d == Digit(key.hash, |path|) && !Has(n.body.bitmap, d)
    modifies Editable({n}, t)
    ensures Updated(old(n.view), path, key, Some(v), n, Some(m), true, true, t)
    ensures Within(m.repr, old(n.repr))
  {
    hide Has, Rank, ReplaceInBitmap, WF, OnPath, NoClash, Update, n.Valid;
    BitmapFacts(n, t, path, key, Some(v));
    var x := NewValue(t, (key, v));
    FreshForest(n.body.nodes, n.view.kids, {x}, n.repr - {n}, t);
    m := FinishBitmap(n, t, d, Some(x), Some(x.view), n.body.bitmap, n.body.nodes, n.view.kids, n.repr - {n});
  }

  lemma NothingToRemove<V>(n: TNode<V>, t: OwnerID?, path: seq<nat>, key: Key)
    requires n.Valid(t) && WF(n.view, path) && OnPath(key.hash, path) && Update(n.view, path, key, None) == Same
    ensures Updated(n.view, path, key, None, n, Some(n), false, false, t)
  {}

  lemma FreshForest<V>(xs: seq<TNode<V>>, vs: seq<Node<V>>, apart: set<TNode<V>>, space: set<TNode<V>>, t: OwnerID?)
    requires Forest(xs, vs, space, t) && apart !! space
    ensures ForestBut(xs, vs, -1, apart, space, t)
  {}

  /** The child in place `p` came back: only the value of `n` may change, and
    * only for its owner. */
  ghost method KeepBitmap<V>(n: TNode<V>, t: OwnerID?, v: Node<V>, p: nat)
    requires n.body.BitmapBody? && p < |n.body.nodes| && n.view.Bitmap? && n.view.bitmap == n.body.bitmap
    requires var g := n.body.nodes[p];
      && ForestBut(n.body.nodes, n.view.kids, p, g.repr, n.repr - {n}, t) && Graft(g, v, t) && n !in g.repr
    requires !Mine(n, t) ==> n.Valid(t) && v == n.view.kids[p]
    modifies Editable({n}, t)
    ensures n.Valid(t) && n.body == old(n.body) && n.view == Bitmap(old(n.view.bitmap), old(n.view.kids)[p := v])
    ensures n.repr <= old(n.repr) + n.body.nodes[p].repr + {n}
  {
    if Mine(n, t) {
      var g := n.body.nodes[p];
      SetForest(n.body.nodes, n.view.kids, p, g, v, n.repr - {n}, t);
      assert n.body.nodes[p := g] == n.body.nodes;
      n.view, n.repr := Bitmap(n.body.bitmap, n.view.kids[p := v]), n.repr + g.repr + {n};
    } else {
      assert n.view.kids[p := v] == n.view.kids;
    }
  }

  lemma KeepIsReplace<V>(b: nat, kids: seq<Node<V>>, d: nat, v: Node<V>)
    requires b < 0x1_0000_0000 && d < 32 && |kids| == Rank(b, 32) && Has(b, d)
    requires Rank(b, d) < |kids| && (|kids| == 1 ==> !Leaf(v))
    ensures ReplaceInBitmap(b, kids, d, Some(v)) == Bitmap(b, kids[Rank(b, d) := v])
  {}

  /** The pure update of a bitmap node, by its child. */
  lemma BitmapFacts<V>(n: TNode<V>, t: OwnerID?, path: seq<nat>, key: Key, v: Option<V>)
    requires n.Valid(t) && n.body.BitmapBody? && WF(n.view, path) && OnPath(key.hash, path) && NoClash(n.view, key)
    ensures !Mine(n, t) ==> NoneMine(n.repr, t)
    ensures n in n.repr && n.view.Bitmap? && n.view.bitmap == n.body.bitmap && |n.body.nodes| == |n.view.kids|
    ensures n.view.bitmap < 0x1_0000_0000 && |n.view.kids| == Rank(n.view.bitmap, 32)
    ensures Forest(n.body.nodes, n.view.kids, n.repr - {n}, t)
    ensures OnPath(key.hash, path + [Digit(key.hash, |path|)])
    ensures var d := Digit(key.hash, |path|);
      var b, kids, p := n.view.bitmap, n.view.kids, Rank(n.view.bitmap, d);
      if Has(b, d) then
        && p < |kids| && WF(kids[p], path + [d]) && NoClash(kids[p], key)
        && (|kids| == 1 ==> !Leaf(kids[p]))
        && var u := Update(kids[p], path + [d], key, v);
           Update(n.view, path, key, v)
           == if u.Same? then Same else New(Some(ReplaceInBitmap(b, kids, d, u.node)), u.resized)
      else
        Update(n.view, path, key, v)
        == if v.None? then Same else New(Some(ReplaceInBitmap(b, kids, d, Some(Value(key.hash, (key, v.value))))), true)
  {
    hide Rank, Has, OnPath, NoClash, KeysOf;
    var d := Digit(key.hash, |path|);
    BitmapForest(n, t);
    StepOn(key.hash, path);
    RankBelow(n.view.bitmap, d);
    if Has(n.view.bitmap, d) {
      ChildWF(n.view, path, d);
      ChildNoClash(n.view, d, key);
    }
  }

  lemma ChildNoClash<V>(n: Node<V>, d: nat, key: Key)
    requires NoClash(n, key) && ChildAt(n, d).Some?
    ensures NoClash(ChildAt(n, d).value, key)
  {
    hide Has, Rank;
    var c := ChildAt(n, d).value;
    forall k | k in KeysOf(c) ensures k in KeysOf(n) {
      match n
      case Bitmap(b, kids) => assert c == kids[Place(b, d)];
      case HashArray(_, slots) => assert c == slots[d].value;
    }
  }

  /** The child in slot `d`; the forest around it stays. */
  method UpdateSlot<V(==)>(n: TNode<V>, d: nat, t: OwnerID?, ghost path: seq<nat>, k: nat, key: Key, v: Option<V>)
    returns (r: Option<TNode<V>>, resized: bool, altered: bool)
    requires n.Valid(t) && n.body.HashArrayBody? && d < |n.body.slots| && n.body.slots[d].Some?
    requires WF(n.view.slots[d].value, path) && OnPath(key.hash, path) && k == |path|
    requires NoClash(n.view.slots[d].value, key)
    modifies Editable(n.body.slots[d].value.repr, t)
    ensures n.body == old(n.body) && n.view == old(n.view) && n.repr == old(n.repr) && n !in Repr(r)
    ensures Updated(old(n.view.slots[d].value), path, key, v, n.body.slots[d].value, r, resized, altered, t)
    ensures Within(Repr(r), old(n.body.slots[d].value.repr))
    ensures SlotForestBut(n.body.slots, n.view.slots, d, Repr(r), n.repr - {n}, t)
    ensures old(NoneMine(n.repr, t)) ==> n.Valid(t) && n.body.slots[d].value.view == old(n.view.slots[d].value)
    decreases n.view, 0
  {
    hide WF, OnPath, NoClash;
    HashArrayForest(n, t);
    r, resized, altered := UpdateNode(n.body.slots[d].value, t, path, k, key, v);
  }

  /** `HashArrayMapNode.update` */
  method UpdateHashArray<V(==)>(n: TNode<V>, t: OwnerID?, ghost path: seq<nat>, k: nat, key: Key, v: Option<V>)
    returns (r: Option<TNode<V>>, resized: bool, altered: bool)
    requires n.Valid(t) && WF(n.view, path) && OnPath(key.hash, path) && k == |path| && NoClash(n.view, key)
    requires n.body.HashArrayBody?
    modifies Editable(n.repr, t)
    ensures Updated(old(n.view), path, key, v, n, r, resized, altered, t)
    ensures r.Some? ==> Within(r.value.repr, old(n.repr))
    decreases n.view, 2
  {
    hide OnPath, WF, Update, Updated, ReplaceInHashArray, NoClash, SlotForest, n.Valid;
    var d := Digit(key.hash, k);
    HashArrayFacts(n, t, path, key, v);
    if n.body.slots[d].Some? {
      r, resized, altered := UpdateHeldSlot(n, d, t, path, k, key, v);
    } else if v.None? {
      NothingToRemove(n, t, path, key);
      return Some(n), false, false;
    } else {
      var m := AddSlot(n, d, t, path, key, v.value);
      return Some(m), true, true;
    }
  }

  /** The rest for a slot that holds a child. */
  method UpdateHeldSlot<V(==)>(n: TNode<V>, d: nat, t: OwnerID?, ghost path: seq<nat>, k: nat, key: Key, v: Option<V>)
    returns (r: Option<TNode<V>>, resized: bool, altered: bool)
    requires n.Valid(t) && WF(n.view, path) && OnPath(key.hash, path) && k == |path| && NoClash(n.view, key)
    requires n.body.HashArrayBody? && d == Digit(key.hash, k) && d < |n.body.slots| && n.body.slots[d].Some?
    modifies Editable(n.repr, t)
    ensures Updated(old(n.view), path, key, v, n, r, resized, altered, t)
    ensures r.Some? ==> Within(r.value.repr, old(n.repr))
    decreases n.view, 1
  {
    hide OnPath, WF, Update, ReplaceInHashArray, NoClash, SlotForestBut, n.Valid;
    HashArrayFacts(n, t, path, key, v);
    var c, slots := n.body.count, n.body.slots;
    ghost var views, space := n.view.slots, n.repr - {n};
    var g;
    g, resized, altered := UpdateSlot(n, d, t, path + [d], k + 1, key, v);
    if g == slots[d] {
      KeepHashArray(n, t, slots[d].value.view, d);
      KeepIsReplaceSlot(c, views, d, slots[d].value.view);
      r := Some(n);
    } else {
      var m := FinishHashArray(n, t, d, g, if g.Some? then Some(g.value.view) else None, c, slots, views, space);
      r := Some(m);
    }
  }

  /** The rest for an empty slot. */
  method AddSlot<V(==)>(n: TNode<V>, d: nat, t: OwnerID?, ghost path: seq<nat>, key: Key, v: V) returns (m: TNode<V>)
    requires n.Valid(t) && WF(n.view, path) && OnPath(key.hash, path) && NoClash(n.view, key)
    requires n.body.HashArrayBody? && d == Digit(key.hash, |path|) && d < |n.body.slots| && n.body.slots[d].None?
    modifies Editable({n}, t)
    ensures Updated(old(n.view), path, key, Some(v), n, Some(m), true, true, t)
    ensures Within(m.repr, old(n.repr))
  {
    hide ReplaceInHashArray, WF, OnPath, NoClash, Update, n.Valid;
    HashArrayFacts(n, t, path, key, Some(v));
    var x := NewValue(t, (key, v));
    FreshSlotForest(n.body.slots, n.view.slots, d, {x}, n.repr - {n}, t);
    m := FinishHashArray(n, t, d, Some(x), Some(x.view), n.body.count, n.body.slots, n.view.slots, n.repr - {n});
  }

  lemma FreshSlotForest<V>(xs: seq<Option<TNode<V>>>, vs: seq<Option<Node<V>>>, d: nat, apart: set<TNode<V>>,
                           space: set<TNode<V>>, t: OwnerID?)
    requires SlotForest(xs, vs, space, t) && apart !! space
    ensures SlotForestBut(xs, vs, d, apart, space, t)
  {}

  /** The child in slot `d` came back: only the value of `n` may change, and only
    * for its owner. */
  ghost method KeepHashArray<V>(n: TNode<V>, t: OwnerID?, v: Node<V>, d: nat)
    requires n.body.HashArrayBody? && d < |n.body.slots| && n.body.slots[d].Some?
    requires n.view.HashArray? && n.view.count == n.body.count && |n.view.slots| == |n.body.slots|
    requires var g := n.body.slots[d].value;
      && SlotForestBut(n.body.slots, n.view.slots, d, g.repr, n.repr - {n}, t) && Graft(g, v, t) && n !in g.repr
    requires !Mine(n, t) ==> n.Valid(t) && Some(v) == n.view.slots[d]
    modifies Editable({n}, t)
    ensures n.Valid(t) && n.body == old(n.body)
    ensures n.view == HashArray(old(n.view.count), old(n.view.slots)[d := Some(v)])
    ensures n.repr <= old(n.repr) + n.body.slots[d].value.repr + {n}
  {
    if Mine(n, t) {
      var g := n.body.slots[d].value;
      SetSlotForest(n.body.slots, n.view.slots, d, g, v, n.repr - {n}, t);
      assert n.body.slots[d := Some(g)] == n.body.slots;
      n.view, n.repr := HashArray(n.body.count, n.view.slots[d := Some(v)]), n.repr + g.repr + {n};
    } else {
      assert n.view.slots[d := Some(v)] == n.view.slots;
    }
  }

  lemma KeepIsReplaceSlot<V>(c: nat, slots: seq<Option<Node<V>>>, d: nat, v: Node<V>)
    requires d < |slots| && c > 0 && slots[d].Some?
    ensures ReplaceInHashArray(c, slots, d, Some(v)) == HashArray(c, slots[d := Some(v)])
  {}

  /** The pure update of a hash-array node, by its child. */
  lemma HashArrayFacts<V>(n: TNode<V>, t: OwnerID?, path: seq<nat>, key: Key, v: Option<V>)
    requires n.Valid(t) && n.body.HashArrayBody? && WF(n.view, path) && OnPath(key.hash, path) && NoClash(n.view, key)
    ensures !Mine(n, t) ==> NoneMine(n.repr, t)
    ensures n in n.repr && n.view.HashArray? && n.view.count == n.body.count > 0
    ensures |n.body.slots| == |n.view.slots| == 32
    ensures SlotForest(n.body.slots, n.view.slots, n.repr - {n}, t)
    ensures OnPath(key.hash, path + [Digit(key.hash, |path|)])
    ensures var d := Digit(key.hash, |path|);
      var c, slots := n.view.count, n.view.slots;
      n.body.slots[d].Some? == slots[d].Some? &&
      if slots[d].Some? then
        && WF(slots[d].value, path + [d]) && NoClash(slots[d].value, key)
        && var u := Update(slots[d].value, path + [d], key, v);
           Update(n.view, path, key, v)
           == if u.Same? then Same else New(Some(ReplaceInHashArray(c, slots, d, u.node)), u.resized)
      else
        Update(n.view, path, key, v)
        == if v.None? then Same
           else New(Some(ReplaceInHashArray(c, slots, d, Some(Value(key.hash, (key, v.value))))), true)
  {
    hide OnPath, NoClash, KeysOf, CountSome;
    var d := Digit(key.hash, |path|);
    HashArrayForest(n, t);
    StepOn(key.hash, path);
    if n.view.slots[d].Some? {
      ChildWF(n.view, path, d);
      ChildNoClash(n.view, d, key);
    }
  }

  /** The `get` methods of the node classes. */
  method GetNode<V>(n: TNode<V>, ghost t: OwnerID?, ghost path: seq<nat>, k: nat, key: Key) returns (v: Option<V>)
    requires n.Valid(t) && WF(n.view, path) && k == |path|
    ensures v == TrieNodes.Get(n.view, k, key)
    decreases n.view
  {
    hide Has, Rank;
    match n.body {
      case ValueBody(e) =>
        v := if e.0 == key then Some(e.1) else None;
      case BitmapBody(b, nodes) =>
        var d := Digit(key.hash, k);
        if Has(b, d) {
          ChildWF(n.view, path, d);
          v := GetNode(nodes[Place(b, d)], t, path + [d], k + 1, key);
        } else {
          v := None;
        }
      case HashArrayBody(_, slots) =>
        var d := Digit(key.hash, k);
        if slots[d].Some? {
          ChildWF(n.view, path, d);
          v := GetNode(slots[d].value, t, path + [d], k + 1, key);
        } else {
          v := None;
        }
    }
  }
}
