/** The law of `update` at every node: it writes one key, keeps every other, and
  * reports truthfully whether the node changed and whether a key came or went. */
module TrieUpdate {
  import opened Wrappers
  import opened Radix32
  import opened Bitmaps
  import opened TrieNodes
  import opened TrieShapes
  import opened TrieLaws

  /** The node in place of `n` after an update. */
  function After<V>(n: Node<V>, u: Upd<V>): Option<Node<V>> {
    if u.Same? then Some(n) else u.node
  }

  /** What an update of `key` to `v` must do, as seen by `other`. */
  ghost predicate Writes<V>(n: Node<V>, path: seq<nat>, key: Key, v: Option<V>, u: Upd<V>, other: Key) {
    var k := |path|;
    && (u.New? && u.node.Some? ==> WF(u.node.value, path))
    && GetOpt(After(n, u), k, other) == (if other == key then v else Get(n, k, other))
    && (u.Same? <==> v == Get(n, k, key))
    && (u.New? ==> (u.resized <==> v.Some? != Get(n, k, key).Some?))
    && (u.New? && u.node.None? ==> Leaf(n))
  }

  lemma LeafLaw<V>(n: Node<V>, path: seq<nat>, key: Key, v: Option<V>, other: Key)
    requires Leaf(n) && WF(n, path) && OnPath(key.hash, path) && OnPath(other.hash, path)
    ensures Writes(n, path, key, v, UpdateLeaf(n, path, key, v), other)
  {
    hide MergeInto;
    LeafMerge(n, path, key);
    if key.hash != n.keyHash {
      LeafGet(n, path, |path|, key);
    }
    if v.Some? && Get(n, |path|, key).None? && (n.Value? || key.hash != n.keyHash) {
      MergeLaw(n, path, (key, v.value), other);
    } else if n.Collision? && key.hash == n.keyHash {
      CollisionLaw(n, path, key, v, other);
    }
  }

  lemma CollisionLaw<V>(n: Node<V>, path: seq<nat>, key: Key, v: Option<V>, other: Key)
    requires n.Collision? && WF(n, path) && key.hash == n.keyHash
    requires OnPath(key.hash, path) && OnPath(other.hash, path)
    ensures Writes(n, path, key, v, UpdateLeaf(n, path, key, v), other)
  {
    hide EditEntries, OnPath, Distinct;
    var es := n.entries;
    var i := Find(es, key);
    if (if i < |es| then v == Some(es[i].1) else v.None?) {
    } else if v.None? && |es| == 2 {
      OneLeft(n, path, key, other);
    } else {
      EditLaw(es, key, v, other);
      EditHashes(es, key, v, n.keyHash);
    }
  }

  /** Of two entries, the other one stays, as a value node. */
  lemma OneLeft<V>(n: Node<V>, path: seq<nat>, key: Key, other: Key)
    requires n.Collision? && WF(n, path) && |n.entries| == 2 && Find(n.entries, key) < 2
    ensures var e := n.entries[1 - Find(n.entries, key)];
      && e.0.hash == n.keyHash && e.0 != key
      && Get(Value(n.keyHash, e), |path|, other) == if other == key then None else Get(n, |path|, other)
  {
    var es := n.entries;
    var i := Find(es, key);
    LookupAt(es, 1 - i);
    if other != es[1 - i].0 && other != key {
      LookupMiss(es, other);
    }
  }

  lemma EditHashes<V>(es: seq<(Key, V)>, key: Key, v: Option<V>, h: Word)
    requires key.hash == h && forall i :: 0 <= i < |es| ==> es[i].0.hash == h
    ensures forall i :: 0 <= i < |EditEntries(es, key, v)| ==> EditEntries(es, key, v)[i].0.hash == h
  {
  }

  /** `get` through a replaced or collapsed node. */
  lemma ReplaceGet<V>(n: Node<V>, path: seq<nat>, d: nat, g: Option<Node<V>>, r: Node<V>, other: Key)
    requires WF(n, path) && !Leaf(n) && OnPath(other.hash, path)
    requires g.Some? ==> WF(g.value, path + [d])
    requires WF(r, path) && (Replaced(n, d, g, r) || Collapsed(n, d, g, r))
    ensures var s := Digit(other.hash, |path|);
      Get(r, |path|, other) == GetOpt(if s == d then g else ChildAt(n, s), |path| + 1, other)
  {
    hide Get, WF, OnPath, ChildAt;
    if Replaced(n, d, g, r) {
      GetInner(r, |path|, other);
    } else {
      var t: nat :| CollapsedTo(n, d, g, r, t);
      assert WF(r, path + [t]) by { if t != d { ChildWF(n, path, t); } }
      CollapsedGet(n, path, d, g, r, t, other);
    }
  }

  lemma CollapsedGet<V>(n: Node<V>, path: seq<nat>, d: nat, g: Option<Node<V>>, r: Node<V>, t: nat, other: Key)
    requires CollapsedTo(n, d, g, r, t) && Leaf(r) && WF(r, path + [t])
    ensures var s := Digit(other.hash, |path|);
      Get(r, |path|, other) == GetOpt(if s == d then g else ChildAt(n, s), |path| + 1, other)
  {
    hide Get, WF, OnPath, ChildAt;
    LeafGet(r, path + [t], |path|, other);
    LeafGet(r, path + [t], |path| + 1, other);
    var s := Digit(other.hash, |path|);
    var c := ChildAt(n, s);
    if s != t {
      LeafElsewhere(r, path, t, other);
      assert (if s == d then g else c) == None;
    }
  }

  lemma LeafElsewhere<V>(r: Node<V>, path: seq<nat>, t: nat, other: Key)
    requires Leaf(r) && WF(r, path + [t]) && Digit(other.hash, |path|) != t
    ensures Get(r, 0, other) == None
  {
    LeafGet(r, path + [t], 0, other);
    assert (path + [t])[|path|] == t;
  }

  /** The law of `update`. */
  lemma {:induction false} UpdateLaw<V>(n: Node<V>, path: seq<nat>, key: Key, v: Option<V>, other: Key)
    requires WF(n, path) && OnPath(key.hash, path) && OnPath(other.hash, path)
    ensures Writes(n, path, key, v, Update(n, path, key, v), other)
    decreases n
  {
    if Leaf(n) {
      LeafLaw(n, path, key, v, other);
    } else {
      var d := Digit(key.hash, |path|);
      StepOn(key.hash, path);
      StepOn(other.hash, path);
      var c := ChildAt(n, d);
      if c.None? {
        InnerLaw(n, path, key, v, UpdateMissing(key, v), other);
      } else {
        ChildWF(n, path, d);
        var below := if Digit(other.hash, |path|) == d then other else key;
        UpdateLaw(c.value, path + [d], key, v, below);
        UpdateLaw(c.value, path + [d], key, v, key);
        InnerLaw(n, path, key, v, Update(c.value, path + [d], key, v), other);
      }
    }
  }

  /** From the child in the key's slot to the inner node above it. */
  lemma InnerLaw<V>(n: Node<V>, path: seq<nat>, key: Key, v: Option<V>, u: Upd<V>, other: Key)
    requires WF(n, path) && !Leaf(n) && OnPath(key.hash, path) && OnPath(other.hash, path)
    requires var d := Digit(key.hash, |path|);
      ChildAt(n, d).None? ==> u == UpdateMissing(key, v)
    requires var d := Digit(key.hash, |path|);
      ChildAt(n, d).Some? ==>
        && Writes(ChildAt(n, d).value, path + [d], key, v, u, key)
        && (Digit(other.hash, |path|) == d ==> Writes(ChildAt(n, d).value, path + [d], key, v, u, other))
    ensures var d := Digit(key.hash, |path|);
      Writes(n, path, key, v, if u.Same? then Same else New(Some(Replace(n, path, d, u.node)), u.resized), other)
  {
    hide WF, Replace, Replaced, Collapsed, Get, ChildAt;
    var k := |path|;
    var d := Digit(key.hash, k);
    GetInner(n, k, key);
    GetInner(n, k, other);
    if u.New? {
      MissingWF(path, key, v, other);
      ReplaceShape(n, path, d, u.node);
      ReplaceGet(n, path, d, u.node, Replace(n, path, d, u.node), other);
    }
  }

  lemma MissingWF<V>(path: seq<nat>, key: Key, v: Option<V>, other: Key)
    requires OnPath(key.hash, path)
    ensures var u := UpdateMissing(key, v);
      u.New? ==> (
        && u.node.Some? && u.resized
        && WF(u.node.value, path + [Digit(key.hash, |path|)])
        && Get(u.node.value, |path| + 1, other) == if other == key then v else None)
  {
    StepOn(key.hash, path);
  }
}
