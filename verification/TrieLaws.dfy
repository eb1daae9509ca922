/** What `update` does to what `get` sees, at every node of the hash trie. */
module TrieLaws {
  import opened Basics
  import opened Wrappers
  import opened Radix32
  import opened Bitmaps
  import opened TrieNodes
  import opened TrieShapes

  // ------------------------------------------------------------ entry arrays

  function Lookup<V>(es: seq<(Key, V)>, key: Key): Option<V> {
    var i := Find(es, key);
    if i < |es| then Some(es[i].1) else None
  }

  lemma LookupAt<V>(es: seq<(Key, V)>, i: nat)
    requires Distinct(es) && i < |es|
    ensures Find(es, es[i].0) == i && Lookup(es, es[i].0) == Some(es[i].1)
  {
    var j := Find(es, es[i].0);
    assert j <= i;
  }

  lemma LookupMiss<V>(es: seq<(Key, V)>, key: Key)
    requires forall i :: 0 <= i < |es| ==> es[i].0 != key
    ensures Find(es, key) == |es| && Lookup(es, key) == None
  {
    var j := Find(es, key);
    if j < |es| {
      assert es[j].0 == key;
    }
  }

  /** Removing by moving the last entry, replacing, or appending. */
  lemma EditLaw<V>(es: seq<(Key, V)>, key: Key, v: Option<V>, other: Key)
    requires Distinct(es)
    ensures var r := EditEntries(es, key, v);
      && Distinct(r)
      && Lookup(r, other) == (if other == key then v else Lookup(es, other))
      && |r| == |es| + (if v.Some? then 1 else 0) - (if Find(es, key) < |es| then 1 else 0)
  {
    var r := EditEntries(es, key, v);
    var i := Find(es, key);
    EditDistinct(es, key, v);
    hide EditEntries;
    if other == key {
      if v.Some? {
        var p := EditPlace(es, key, v);
        LookupAt(r, p);
      } else {
        LookupMiss(r, key);
      }
    } else {
      EditOther(es, key, v, other);
    }
  }

  lemma EditPlace<V>(es: seq<(Key, V)>, key: Key, v: Option<V>) returns (i: nat)
    requires v.Some?
    ensures i < |EditEntries(es, key, v)| && EditEntries(es, key, v)[i] == (key, v.value)
  {
    i := Find(es, key);
  }

  lemma EditOther<V>(es: seq<(Key, V)>, key: Key, v: Option<V>, other: Key)
    requires Distinct(es) && other != key
    ensures Lookup(EditEntries(es, key, v), other) == Lookup(es, other)
  {
    var r := EditEntries(es, key, v);
    var i, j := Find(es, key), Find(es, other);
    EditDistinct(es, key, v);
    if j == |es| {
      LookupMiss(r, other);
    } else {
      var t := if i < |es| && v.None? && j == |es| - 1 then i else j;
      assert r[t] == es[j];
      LookupAt(r, t);
    }
  }

  lemma EditDistinct<V>(es: seq<(Key, V)>, key: Key, v: Option<V>)
    requires Distinct(es)
    ensures Distinct(EditEntries(es, key, v))
    ensures |EditEntries(es, key, v)| == |es| + (if v.Some? then 1 else 0) - (if Find(es, key) < |es| then 1 else 0)
    ensures v.None? ==> forall k :: 0 <= k < |EditEntries(es, key, v)| ==> EditEntries(es, key, v)[k].0 != key
  {
    var i := Find(es, key);
    if i < |es| {
      assert forall k :: 0 <= k < |es| && k != i ==> es[k].0 != es[i].0;
    }
  }

  // ------------------------------------------------------------------ leaves

  /** A leaf finds only keys of its own hash, at any level. */
  lemma LeafGet<V>(n: Node<V>, path: seq<nat>, k: nat, key: Key)
    requires Leaf(n) && WF(n, path)
    ensures Get(n, k, key) == Get(n, 0, key)
    ensures Get(n, k, key).Some? ==> key.hash == n.keyHash && OnPath(key.hash, path)
  {
  }

  lemma BitOf(a: nat, s: nat)
    ensures With(0, a) == Pow2(a)
    ensures Has(Pow2(a), s) <==> s == a
    ensures Rank(Pow2(a), s) == if a < s then 1 else 0
    ensures a < 32 ==> Pow2(a) < 0x1_0000_0000
  {
    ZeroBits(a);
    ZeroBits(s);
    HasWith(0, a, s);
    Pow2Word();
    if a < 32 { WithBound(0, a, 32); }
  }

  lemma {:induction false} ZeroBits(s: nat)
    ensures !Has(0, s) && Rank(0, s) == 0
  {
    if s > 0 { ZeroBits(s - 1); }
  }

  /** `mergeIntoNode` ends within seven levels, and the node it returns finds the
    * new entry and everything the old leaf held. */
  lemma {:induction false} MergeLaw<V>(n: Node<V>, path: seq<nat>, e: (Key, V), other: Key)
    requires Leaf(n) && WF(n, path) && OnPath(e.0.hash, path) && OnPath(other.hash, path)
    requires Get(n, |path|, e.0).None?
    requires n.keyHash == e.0.hash ==> n.Value?
    ensures n.keyHash == e.0.hash || (|path| < 7 && Shr(n.keyHash, |path|) != Shr(e.0.hash, |path|))
    ensures WF(MergeInto(n, |path|, e.0.hash, e), path)
    ensures Get(MergeInto(n, |path|, e.0.hash, e), |path|, other)
         == if other == e.0 then Some(e.1) else Get(n, |path|, other)
    decreases 7 - |path|
  {
    hide WF, Get, OnPath, ChildAt, Shr, MergeInto;
    var k := |path|;
    LeafMerge(n, path, e.0);
    if n.keyHash == e.0.hash {
      NotHeld(n, k, e.0);
      MergeIsCollision(n, k, e);
      MergeEqual(n, path, e, other);
    } else {
      SevenDigits(n.keyHash, e.0.hash, k);
      var a := Digit(n.keyHash, k);
      if a == Digit(e.0.hash, k) {
        SameDown(n, path, e, other);
        SameDown(n, path, e, e.0);
        MergeLaw(n, path + [a], e, if Digit(other.hash, k) == a then other else e.0);
        MergeInner(n, k + 1, e);
        MergeIsSingle(n, k, e);
        MergeSame(n, path, e, other, MergeInto(n, k + 1, e.0.hash, e));
      } else {
        MergeSplit(n, path, e, other);
      }
    }
  }

  lemma NotHeld<V>(n: Node<V>, k: nat, key: Key)
    requires n.Value? && Get(n, k, key).None?
    ensures n.entry.0 != key
  {
  }

  lemma MergeIsCollision<V>(n: Node<V>, k: nat, e: (Key, V))
    requires n.Value? && n.keyHash == e.0.hash
    ensures MergeInto(n, k, e.0.hash, e) == Collision(e.0.hash, [n.entry, e])
  {
  }

  lemma MergeIsSingle<V>(n: Node<V>, k: nat, e: (Key, V))
    requires Leaf(n) && n.keyHash != e.0.hash && Shr(n.keyHash, k) != Shr(e.0.hash, k)
    requires Shr(n.keyHash, k + 1) != Shr(e.0.hash, k + 1) && Digit(n.keyHash, k) == Digit(e.0.hash, k)
    ensures MergeInto(n, k, e.0.hash, e) == Bitmap(Pow2(Digit(n.keyHash, k)), [MergeInto(n, k + 1, e.0.hash, e)])
  {
    hide Shr;
    SevenDigits(n.keyHash, e.0.hash, k);
  }

  lemma MergeEqual<V>(n: Node<V>, path: seq<nat>, e: (Key, V), other: Key)
    requires n.Value? && WF(n, path) && OnPath(e.0.hash, path) && n.keyHash == e.0.hash && n.entry.0 != e.0
    ensures WF(Collision(e.0.hash, [n.entry, e]), path)
    ensures Get(Collision(e.0.hash, [n.entry, e]), |path|, other)
         == if other == e.0 then Some(e.1) else Get(n, |path|, other)
  {
    var es := [n.entry, e];
    assert es[0].0 != es[1].0;
    if other == e.0 { LookupAt(es, 1); } else if other == n.entry.0 { LookupAt(es, 0); } else { LookupMiss(es, other); }
  }

  lemma LeafDown<V>(n: Node<V>, path: seq<nat>)
    requires Leaf(n) && WF(n, path)
    ensures WF(n, path + [Digit(n.keyHash, |path|)])
  {
    StepOn(n.keyHash, path);
  }

  /** The merged node one level down, under the shared digit. */
  lemma MergeSame<V>(n: Node<V>, path: seq<nat>, e: (Key, V), other: Key, m: Node<V>)
    requires Leaf(n) && WF(n, path) && OnPath(e.0.hash, path) && OnPath(other.hash, path)
    requires |path| < 6 && Digit(n.keyHash, |path|) == Digit(e.0.hash, |path|)
    requires !Leaf(m) && WF(m, path + [Digit(n.keyHash, |path|)])
    requires Digit(other.hash, |path|) == Digit(n.keyHash, |path|) ==>
      Get(m, |path| + 1, other) == if other == e.0 then Some(e.1) else Get(n, |path| + 1, other)
    ensures var r := Bitmap(Pow2(Digit(n.keyHash, |path|)), [m]);
      && WF(r, path)
      && Get(r, |path|, other) == if other == e.0 then Some(e.1) else Get(n, |path|, other)
  {
    LeafGet(n, path, |path|, other);
    LeafGet(n, path, |path| + 1, other);
    hide WF, Get, OnPath, ChildAt;
    SingleShape(path, Digit(n.keyHash, |path|), m, other);
  }

  /** A leaf and a new key that share the next digit, one level down. */
  lemma SameDown<V>(n: Node<V>, path: seq<nat>, e: (Key, V), other: Key)
    requires Leaf(n) && WF(n, path) && OnPath(e.0.hash, path) && OnPath(other.hash, path)
    requires |path| < 7 && n.keyHash != e.0.hash && Shr(n.keyHash, |path|) != Shr(e.0.hash, |path|)
    requires Digit(n.keyHash, |path|) == Digit(e.0.hash, |path|)
    ensures var k, a := |path|, Digit(n.keyHash, |path|);
      && k < 6 && Shr(n.keyHash, k + 1) != Shr(e.0.hash, k + 1)
      && WF(n, path + [a])
      && OnPath(e.0.hash, path + [a])
      && Get(n, k, other) == Get(n, k + 1, other)
      && (Digit(other.hash, k) == a ==> OnPath(other.hash, path + [a]))
      && (Digit(other.hash, k) != a ==> Get(n, k, other) == None && other != e.0)
  {
    hide WF, Get;
    var k := |path|;
    ShrOnce(n.keyHash, k);
    ShrOnce(e.0.hash, k);
    SevenDigits(n.keyHash, e.0.hash, k + 1);
    LeafDown(n, path);
    StepOn(e.0.hash, path);
    StepOn(other.hash, path);
    LeafGet(n, path, k, other);
    LeafGet(n, path, k + 1, other);
    OffSlot(n, path, other);
  }

  lemma OffSlot<V>(n: Node<V>, path: seq<nat>, other: Key)
    requires Leaf(n) && WF(n, path)
    ensures Digit(other.hash, |path|) != Digit(n.keyHash, |path|) ==> Get(n, |path|, other) == None
  {
    LeafGet(n, path, |path|, other);
  }

  lemma MergeInner<V>(n: Node<V>, k: nat, e: (Key, V))
    requires Leaf(n) && n.keyHash != e.0.hash && Shr(n.keyHash, k) != Shr(e.0.hash, k)
    ensures !Leaf(MergeInto(n, k, e.0.hash, e))
  {
  }

  lemma SingleShape<V>(path: seq<nat>, a: nat, m: Node<V>, other: Key)
    requires |path| <= 6 && a < 32 && WF(m, path + [a]) && !Leaf(m) && OnPath(other.hash, path)
    ensures WF(Bitmap(Pow2(a), [m]), path)
    ensures Get(Bitmap(Pow2(a), [m]), |path|, other)
         == if Digit(other.hash, |path|) == a then Get(m, |path| + 1, other) else None
  {
    hide Rank, Has, Pow2;
    BitOf(a, Digit(other.hash, |path|));
    BitOf(a, 32);
    forall s | 0 <= s < 32 && ChildAt(Bitmap(Pow2(a), [m]), s).Some?
      ensures WF(ChildAt(Bitmap(Pow2(a), [m]), s).value, path + [s])
    {
      BitOf(a, s);
    }
    BitmapWF(Pow2(a), [m], path);
  }

  lemma MergeSplit<V>(n: Node<V>, path: seq<nat>, e: (Key, V), other: Key)
    requires Leaf(n) && WF(n, path) && OnPath(e.0.hash, path) && OnPath(other.hash, path)
    requires Get(n, |path|, e.0).None? && |path| < 7
    requires n.keyHash != e.0.hash && Shr(n.keyHash, |path|) != Shr(e.0.hash, |path|)
    requires Digit(n.keyHash, |path|) != Digit(e.0.hash, |path|)
    ensures WF(MergeInto(n, |path|, e.0.hash, e), path)
    ensures Get(MergeInto(n, |path|, e.0.hash, e), |path|, other)
         == if other == e.0 then Some(e.1) else Get(n, |path|, other)
  {
    var a, b := Digit(n.keyHash, |path|), Digit(e.0.hash, |path|);
    hide MergeInto, Pair, OnPath, WF, Get, ChildAt;
    LeafDown(n, path);
    ValueDown(e, path);
    MergeIsPair(n, |path|, e);
    SevenDigits(n.keyHash, e.0.hash, |path|);
    PairShape(path, a, b, n, Value(e.0.hash, e));
    PairGet(n, path, e, other);
  }

  lemma ValueDown<V>(e: (Key, V), path: seq<nat>)
    requires OnPath(e.0.hash, path)
    ensures WF(Value(e.0.hash, e), path + [Digit(e.0.hash, |path|)])
  {
    StepOn(e.0.hash, path);
  }

  lemma PairGet<V>(n: Node<V>, path: seq<nat>, e: (Key, V), other: Key)
    requires Leaf(n) && WF(n, path) && OnPath(e.0.hash, path) && Get(n, |path|, e.0).None?
    requires Digit(n.keyHash, |path|) != Digit(e.0.hash, |path|)
    requires forall s :: 0 <= s < 32 ==>
      ChildAt(Pair(Digit(n.keyHash, |path|), Digit(e.0.hash, |path|), n, Value(e.0.hash, e)), s)
      == if s == Digit(n.keyHash, |path|) then Some(n)
         else if s == Digit(e.0.hash, |path|) then Some(Value(e.0.hash, e)) else None
    ensures Get(Pair(Digit(n.keyHash, |path|), Digit(e.0.hash, |path|), n, Value(e.0.hash, e)), |path|, other)
         == if other == e.0 then Some(e.1) else Get(n, |path|, other)
  {
    var k := |path|;
    var m := Value(e.0.hash, e);
    var p := Pair(Digit(n.keyHash, k), Digit(e.0.hash, k), n, m);
    assert !Leaf(p);
    LeafGet(n, path, k, other);
    LeafGet(n, path, k + 1, other);
    assert Get(m, k + 1, other) == if other == e.0 then Some(e.1) else None;
    hide Pair, WF, Get, OnPath, ChildAt;
    GetInner(p, k, other);
  }

  lemma MergeIsPair<V>(n: Node<V>, k: nat, e: (Key, V))
    requires Leaf(n) && k < 7 && n.keyHash != e.0.hash && Shr(n.keyHash, k) != Shr(e.0.hash, k)
    requires Digit(n.keyHash, k) != Digit(e.0.hash, k)
    ensures MergeInto(n, k, e.0.hash, e) == Pair(Digit(n.keyHash, k), Digit(e.0.hash, k), n, Value(e.0.hash, e))
  {
  }

  /** At an inner node, `get` goes on in the slot of the key's digit. */
  lemma GetInner<V>(n: Node<V>, k: nat, key: Key)
    requires !Leaf(n)
    ensures Get(n, k, key) == GetOpt(ChildAt(n, Digit(key.hash, k)), k + 1, key)
  {
  }

  /** A node of two children. */
  function Pair<V>(a: nat, b: nat, x: Node<V>, y: Node<V>): Node<V> {
    Bitmap(Pow2(a) + Pow2(b), if a < b then [x, y] else [y, x])
  }

  lemma PairShape<V>(path: seq<nat>, a: nat, b: nat, x: Node<V>, y: Node<V>)
    requires |path| <= 6 && a < 32 && b < 32 && a != b && WF(x, path + [a]) && WF(y, path + [b])
    ensures WF(Pair(a, b, x, y), path)
    ensures !Leaf(Pair(a, b, x, y)) && forall s :: 0 <= s < 32 ==>
      ChildAt(Pair(a, b, x, y), s) == if s == a then Some(x) else if s == b then Some(y) else None
  {
    hide Rank, Has, Pow2, WF;
    PairBits(a, b);
    forall s | 0 <= s < 32
      ensures ChildAt(Pair(a, b, x, y), s) == if s == a then Some(x) else if s == b then Some(y) else None
    {
      PairKid(a, b, x, y, s);
    }
    BitmapWF(Pow2(a) + Pow2(b), Pair(a, b, x, y).kids, path);
  }

  lemma PairBits(a: nat, b: nat)
    requires a < 32 && b < 32 && a != b
    ensures Pow2(a) + Pow2(b) < 0x1_0000_0000 && Rank(Pow2(a) + Pow2(b), 32) == 2
  {
    hide Rank, Has, Pow2;
    BitOf(a, b);
    BitOf(a, 32);
    HasWith(Pow2(a), b, 32);
    Pow2Word();
    WithBound(Pow2(a), b, 32);
  }

  lemma PairKid<V>(a: nat, b: nat, x: Node<V>, y: Node<V>, s: nat)
    requires a < 32 && b < 32 && a != b
    ensures ChildAt(Pair(a, b, x, y), s) == if s == a then Some(x) else if s == b then Some(y) else None
  {
    hide Rank, Has, Pow2;
    PairBits(a, b);
    BitOf(a, s);
    BitOf(a, b);
    InsertKid(Pow2(a), [x], b, y, s);
    var c := With(Pow2(a), b);
    ChildIsKid(c, Pair(a, b, x, y).kids, s);
    assert [x][..Rank(Pow2(a), b)] + [y] + [x][Rank(Pow2(a), b)..] == Pair(a, b, x, y).kids;
    assert Kid(Pow2(a), [x], s) == if s == a then Some(x) else None;
  }
}
