/** The nodes of the hash trie as objects. A node made for an owner may be edited
  * in place by that owner's later updates; every other node stays as it is.
  *
  * Keys with equal hashes are equal here, so no collision node arises. Child
  * arrays and entries belong to one node each, so they are fields. */
module OwnedNodes {
  import opened Wrappers
  import opened Radix32
  import opened Bitmaps
  import opened TrieNodes
  import opened TrieShapes

  class OwnerID {
    constructor () {}
  }

  datatype Body<V> =
    | ValueBody(entry: (Key, V))
    | BitmapBody(bitmap: nat, nodes: seq<TNode<V>>)
    | HashArrayBody(count: nat, slots: seq<Option<TNode<V>>>)

  class TNode<V(==)> {
    const ownerID: OwnerID?
    var body: Body<V>
    /** The node as a value, and the nodes it is made of. */
    ghost var view: Node<V>
    ghost var repr: set<TNode<V>>

    constructor (ownerID: OwnerID?, body: Body<V>, ghost view: Node<V>, ghost below: set<TNode<V>>)
      ensures this.ownerID == ownerID && this.body == body && this.view == view && repr == below + {this}
    {
      this.ownerID, this.body, this.view := ownerID, body, view;
      new;
      repr := below + {this};
    }

    /** The objects make up `view`, no node hangs in two places, and below a node
      * that `t` may not edit there is none that it may. */
    ghost predicate Valid(t: OwnerID?)
      reads this, repr
      decreases view
    {
      && this in repr
      && (!Mine(this, t) ==> NoneMine(repr, t))
      && match body
         case ValueBody(e) => view == Value(e.0.hash, e)
         case BitmapBody(b, nodes) =>
           && view.Bitmap? && view.bitmap == b && |view.kids| == |nodes|
           && (forall i :: 0 <= i < |nodes| ==>
                 && nodes[i] in repr && nodes[i].repr <= repr && this !in nodes[i].repr
                 && nodes[i].view == view.kids[i] && nodes[i].Valid(t))
           && (forall i, j :: 0 <= i < j < |nodes| ==> nodes[i].repr !! nodes[j].repr)
         case HashArrayBody(c, slots) =>
           && view.HashArray? && view.count == c && |view.slots| == |slots|
           && (forall i :: 0 <= i < |slots| ==> slots[i].Some? == view.slots[i].Some?)
           && (forall i :: 0 <= i < |slots| && slots[i].Some? ==>
                 && slots[i].value in repr && slots[i].value.repr <= repr && this !in slots[i].value.repr
                 && slots[i].value.view == view.slots[i].value && slots[i].value.Valid(t))
           && (forall i, j :: 0 <= i < j < |slots| && slots[i].Some? && slots[j].Some? ==>
                 slots[i].value.repr !! slots[j].value.repr)
    }
  }

  /** `t && t === this.ownerID` */
  predicate Mine<V>(n: TNode<V>, t: OwnerID?) {
    t != null && n.ownerID == t
  }

  predicate NoneMine<V>(nodes: set<TNode<V>>, t: OwnerID?) {
    forall n :: n in nodes ==> !Mine(n, t)
  }

  /** What updates for `t` may edit. */
  ghost function Editable<V>(nodes: set<TNode<V>>, t: OwnerID?): set<TNode<V>> {
    set n | n in nodes && Mine(n, t)
  }

  // ----------------------------------------------------------------- forests

  /** Subtrees that share nothing, one for each value. */
  ghost predicate Forest<V>(xs: seq<TNode<V>>, vs: seq<Node<V>>, space: set<TNode<V>>, t: OwnerID?)
    reads space
  {
    && |xs| == |vs|
    && (forall i :: 0 <= i < |xs| ==> xs[i] in space && xs[i].repr <= space && xs[i].view == vs[i] && xs[i].Valid(t))
    && (forall i, j :: 0 <= i < j < |xs| ==> xs[i].repr !! xs[j].repr)
  }

  ghost predicate SlotForest<V>(xs: seq<Option<TNode<V>>>, vs: seq<Option<Node<V>>>, space: set<TNode<V>>, t: OwnerID?)
    reads space
  {
    && |xs| == |vs|
    && (forall i :: 0 <= i < |xs| ==> xs[i].Some? == vs[i].Some?)
    && (forall i :: 0 <= i < |xs| && xs[i].Some? ==>
          xs[i].value in space && xs[i].value.repr <= space && xs[i].value.view == vs[i].value && xs[i].value.Valid(t))
    && (forall i, j :: 0 <= i < j < |xs| && xs[i].Some? && xs[j].Some? ==> xs[i].value.repr !! xs[j].value.repr)
  }

  /** A node of a valid tree and the forest below it. */
  lemma BitmapForest<V>(n: TNode<V>, t: OwnerID?)
    requires n.Valid(t) && n.body.BitmapBody?
    ensures n.view == Bitmap(n.body.bitmap, n.view.kids)
    ensures Forest(n.body.nodes, n.view.kids, n.repr - {n}, t)
  {}

  lemma HashArrayForest<V>(n: TNode<V>, t: OwnerID?)
    requires n.Valid(t) && n.body.HashArrayBody?
    ensures n.view == HashArray(n.body.count, n.view.slots)
    ensures SlotForest(n.body.slots, n.view.slots, n.repr - {n}, t)
  {}

  // ------------------------------------------------------- making and editing

  method NewValue<V>(t: OwnerID?, entry: (Key, V)) returns (r: TNode<V>)
    ensures fresh(r) && r.Valid(t) && r.view == Value(entry.0.hash, entry) && r.repr == {r}
    ensures r.body == ValueBody(entry)
  {
    r := new TNode(t, ValueBody(entry), Value(entry.0.hash, entry), {});
  }

  method NewBitmap<V>(t: OwnerID?, b: nat, nodes: seq<TNode<V>>, ghost kids: seq<Node<V>>, ghost space: set<TNode<V>>)
    returns (r: TNode<V>)
    requires Forest(nodes, kids, space, t)
    ensures fresh(r) && r.Valid(t) && r.view == Bitmap(b, kids) && r.repr == space + {r} && r.body.BitmapBody?
  {
    r := new TNode(t, BitmapBody(b, nodes), Bitmap(b, kids), space);
  }

  method NewHashArray<V>(t: OwnerID?, c: nat, slots: seq<Option<TNode<V>>>, ghost views: seq<Option<Node<V>>>,
                         ghost space: set<TNode<V>>)
    returns (r: TNode<V>)
    requires SlotForest(slots, views, space, t)
    ensures fresh(r) && r.Valid(t) && r.view == HashArray(c, views) && r.repr == space + {r} && r.body.HashArrayBody?
  {
    r := new TNode(t, HashArrayBody(c, slots), HashArray(c, views), space);
  }

  /** The end of an `update`: the node itself, edited, for its owner; else a new one. */
  method PutBitmap<V>(n: TNode<V>, t: OwnerID?, b: nat, nodes: seq<TNode<V>>, ghost kids: seq<Node<V>>,
                      ghost space: set<TNode<V>>)
    returns (r: TNode<V>)
    requires Forest(nodes, kids, space, t) && n !in space && n.body.BitmapBody?
    modifies Editable({n}, t)
    ensures r.Valid(t) && r.view == Bitmap(b, kids) && r.repr == space + {r} && r.body.BitmapBody?
    ensures if Mine(n, t) then r == n else fresh(r)
  {
    if Mine(n, t) {
      n.body := BitmapBody(b, nodes);
      n.view, n.repr := Bitmap(b, kids), space + {n};
      r := n;
    } else {
      r := NewBitmap(t, b, nodes, kids, space);
    }
  }

  method PutHashArray<V>(n: TNode<V>, t: OwnerID?, c: nat, slots: seq<Option<TNode<V>>>,
                         ghost views: seq<Option<Node<V>>>, ghost space: set<TNode<V>>)
    returns (r: TNode<V>)
    requires SlotForest(slots, views, space, t) && n !in space && n.body.HashArrayBody?
    modifies Editable({n}, t)
    ensures r.Valid(t) && r.view == HashArray(c, views) && r.repr == space + {r} && r.body.HashArrayBody?
    ensures if Mine(n, t) then r == n else fresh(r)
  {
    if Mine(n, t) {
      n.body := HashArrayBody(c, slots);
      n.view, n.repr := HashArray(c, views), space + {n};
      r := n;
    } else {
      r := NewHashArray(t, c, slots, views, space);
    }
  }
}
