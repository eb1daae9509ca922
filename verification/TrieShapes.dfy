/** What the changes of shape in the hash trie do to the children: insertion,
  * removal, expansion, packing and collapsing, seen slot by slot. */
module TrieShapes {
  import opened Basics
  import opened Wrappers
  import opened Radix32
  import opened Bitmaps
  import opened TrieNodes

  /** The child in slot `s` of a bitmap node, by rank. */
  ghost function Kid<T>(b: nat, kids: seq<T>, s: nat): Option<T> {
    if Has(b, s) && Rank(b, s) < |kids| then Some(kids[Rank(b, s)]) else None
  }

  lemma ChildIsKid<V>(b: nat, kids: seq<Node<V>>, s: nat)
    requires b < 0x1_0000_0000
    ensures ChildAt(Bitmap(b, kids), s) == Kid(b, kids, s)
  {
  }

  lemma RankOrder(b: nat, d: nat, s: nat)
    requires Has(b, d) && s != d
    ensures Has(b, s) ==> Rank(b, s) != Rank(b, d)
    ensures s > d ==> Rank(b, s) > Rank(b, d)
    ensures s < d ==> Rank(b, s) <= Rank(b, d)
  {
    if s < d {
      RankMonotone(b, s, d);
      if Has(b, s) { RankStrict(b, s, d); }
    } else {
      RankStrict(b, d, s);
    }
  }

  lemma SetKid<T>(b: nat, kids: seq<T>, d: nat, x: T, s: nat)
    requires Has(b, d) && Rank(b, d) < |kids|
    ensures Kid(b, kids[Rank(b, d) := x], s) == if s == d then Some(x) else Kid(b, kids, s)
  {
    if s != d { RankOrder(b, d, s); }
  }

  lemma InsertKid<T>(b: nat, kids: seq<T>, d: nat, x: T, s: nat)
    requires !Has(b, d) && Rank(b, d) <= |kids|
    ensures Kid(With(b, d), kids[..Rank(b, d)] + [x] + kids[Rank(b, d)..], s)
         == if s == d then Some(x) else Kid(b, kids, s)
  {
    HasWith(b, d, s);
    HasWith(b, d, d);
    if s != d { RankOrder(With(b, d), d, s); }
  }

  lemma RemoveKid<T>(b: nat, kids: seq<T>, d: nat, s: nat)
    requires Has(b, d) && Rank(b, d) < |kids|
    ensures Kid(Without(b, d), kids[..Rank(b, d)] + kids[Rank(b, d) + 1..], s)
         == if s == d then None else Kid(b, kids, s)
  {
    HasWithout(b, d, s);
    if s != d { RankOrder(b, d, s); }
  }

  lemma {:induction false} ExpandKid<T>(b: nat, kids: seq<T>, n: nat, s: nat)
    requires Rank(b, n) <= |kids| && s < n
    ensures Expand(b, kids, n)[s] == Kid(b, kids, s)
  {
    hide Kid;
    if s == 0 {
      FirstKid(b, kids);
    } else {
      NextKid(b, kids, s);
      ExpandKid(b / 2, kids[b % 2..], n - 1, s - 1);
    }
    assert kids[0..] == kids;
  }

  lemma FirstKid<T>(b: nat, kids: seq<T>)
    ensures Kid(b, kids, 0) == if b % 2 == 1 && kids != [] then Some(kids[0]) else None
  {
  }

  lemma NextKid<T>(b: nat, kids: seq<T>, s: nat)
    requires s > 0 && b % 2 <= |kids|
    ensures Kid(b, kids, s) == Kid(b / 2, kids[b % 2..], s - 1)
  {
  }

  lemma {:induction false} ExpandCount<T>(b: nat, kids: seq<T>, n: nat)
    requires Rank(b, n) <= |kids|
    ensures CountSome(Expand(b, kids, n)) == Rank(b, n)
  {
    if n > 0 {
      if b % 2 == 1 { ExpandCount(b / 2, kids[1..], n - 1); } else { ExpandCount(b / 2, kids, n - 1); }
    }
  }

  lemma {:induction false} CountSet<T>(slots: seq<Option<T>>, d: nat, g: Option<T>)
    requires d < |slots|
    ensures CountSome(slots[d := g]) + (if slots[d].Some? then 1 else 0)
         == CountSome(slots) + (if g.Some? then 1 else 0)
  {
    if d > 0 {
      assert slots[d := g][1..] == slots[1..][d - 1 := g];
      CountSet(slots[1..], d - 1, g);
    }
  }

  lemma {:induction false} PackKid<T>(slots: seq<Option<T>>, x: int, s: nat)
    requires s < |slots|
    ensures Kid(PackBits(slots, x), PackKids(slots, x), s) == if s == x then None else slots[s]
  {
    var first := slots[0].Some? && x != 0;
    var rest := PackBits(slots[1..], x - 1);
    assert PackBits(slots, x) % 2 == (if first then 1 else 0) && PackBits(slots, x) / 2 == rest;
    if s > 0 {
      PackKid(slots[1..], x - 1, s - 1);
    }
  }

  lemma {:induction false} PackSize<T>(slots: seq<Option<T>>, x: int)
    ensures Rank(PackBits(slots, x), |slots|) == |PackKids(slots, x)|
         == CountSome(slots) - if 0 <= x < |slots| && slots[x].Some? then 1 else 0
    ensures PackBits(slots, x) < Pow2(|slots|)
  {
    if slots != [] {
      PackSize(slots[1..], x - 1);
      assert PackBits(slots, x) / 2 == PackBits(slots[1..], x - 1);
    }
  }

  /** The children of a node of two: the slot beside `d`. */
  lemma {:induction false} SlotOf(b: nat, n: nat, i: nat) returns (s: nat)
    requires i < Rank(b, n)
    ensures s < n && Has(b, s) && Rank(b, s) == i
  {
    RankStep(b, n - 1);
    if Has(b, n - 1) && Rank(b, n - 1) == i {
      s := n - 1;
    } else {
      s := SlotOf(b, n - 1, i);
    }
  }

  lemma {:induction false} WithBound(b: nat, d: nat, n: nat)
    requires b < Pow2(n) && d < n && !Has(b, d)
    ensures With(b, d) < Pow2(n)
  {
    var p := Pow2(n - 1);
    assert b / 2 < p;
    if d > 0 {
      WithBound(b / 2, d - 1, n - 1);
      assert b / 2 + Pow2(d - 1) + 1 <= p;
    }
  }

  lemma Pow2Word()
    ensures Pow2(32) == 0x1_0000_0000
  {
    assert Pow2(4) == 16;
    assert Pow2(8) == 2 * (2 * (2 * (2 * Pow2(4))));
    assert Pow2(12) == 2 * (2 * (2 * (2 * Pow2(8))));
    assert Pow2(16) == 2 * (2 * (2 * (2 * Pow2(12))));
    assert Pow2(20) == 2 * (2 * (2 * (2 * Pow2(16))));
    assert Pow2(24) == 2 * (2 * (2 * (2 * Pow2(20))));
    assert Pow2(28) == 2 * (2 * (2 * (2 * Pow2(24))));
    assert Pow2(32) == 2 * (2 * (2 * (2 * Pow2(28))));
  }

  // --------------------------------------------------- the result of a change

  /** A node that lost or gained a child in slot `d` still has the others. */
  ghost predicate Replaced<V>(n: Node<V>, d: nat, g: Option<Node<V>>, r: Node<V>) {
    !Leaf(r) && forall s :: 0 <= s < 32 ==> ChildAt(r, s) == if s == d then g else ChildAt(n, s)
  }

  /** A leaf took the place of a node whose only other slot was `d`. */
  ghost predicate Collapsed<V>(n: Node<V>, d: nat, g: Option<Node<V>>, r: Node<V>) {
    Leaf(r) && exists t: nat :: CollapsedTo(n, d, g, r, t)
  }

  ghost predicate CollapsedTo<V>(n: Node<V>, d: nat, g: Option<Node<V>>, r: Node<V>, t: nat) {
    && t < 32
    && (if t == d then g else ChildAt(n, t)) == Some(r)
    && forall s :: 0 <= s < 32 && s != t ==> (if s == d then g else ChildAt(n, s)) == None
  }

  lemma ReplaceShape<V>(n: Node<V>, path: seq<nat>, d: nat, g: Option<Node<V>>)
    requires WF(n, path) && !Leaf(n) && d < 32
    requires g.Some? ==> WF(g.value, path + [d])
    requires g.None? ==> ChildAt(n, d).Some? && Leaf(ChildAt(n, d).value)
    ensures var r := Replace(n, path, d, g);
      WF(r, path) && (Replaced(n, d, g, r) || Collapsed(n, d, g, r))
  {
    match n
    case Bitmap(b, kids) => BitmapShape(b, kids, path, d, g);
    case HashArray(c, slots) => HashArrayShape(c, slots, path, d, g);
  }

  lemma HashArrayShape<V>(c: nat, slots: seq<Option<Node<V>>>, path: seq<nat>, d: nat, g: Option<Node<V>>)
    requires WF(HashArray(c, slots), path) && d < 32
    requires g.Some? ==> WF(g.value, path + [d])
    requires g.None? ==> slots[d].Some?
    ensures var r := ReplaceInHashArray(c, slots, d, g);
      WF(r, path) && Replaced(HashArray(c, slots), d, g, r)
  {
    hide Rank, Has, Pow2, PackBits, PackKids, CountSome, OnPath;
    CountSet(slots, d, g);
    PackSize(slots, d);
    Pow2Word();
    var r := ReplaceInHashArray(c, slots, d, g);
    if slots[d].Some? && g.None? && c - 1 < MIN_HASH_ARRAY {
      forall s | 0 <= s < 32
        ensures ChildAt(r, s) == if s == d then None else slots[s]
      {
        PackKid(slots, d, s);
        ChildIsKid(r.bitmap, r.kids, s);
      }
      BitmapWF(r.bitmap, r.kids, path);
    }
  }

  /** A bitmap node is well-formed when its counts and its children are. */
  lemma BitmapWF<V>(b: nat, kids: seq<Node<V>>, path: seq<nat>)
    requires |path| <= 6 && b < 0x1_0000_0000
    requires 1 <= |kids| == Rank(b, 32) <= MAX_BITMAP
    requires |kids| == 1 ==> !Leaf(kids[0])
    requires forall s :: 0 <= s < 32 && ChildAt(Bitmap(b, kids), s).Some? ==>
      WF(ChildAt(Bitmap(b, kids), s).value, path + [s])
    ensures WF(Bitmap(b, kids), path)
  {
    hide Rank, Has, OnPath;
    forall s | 0 <= s < 32 && Has(b, s)
      ensures Rank(b, s) < |kids| && WF(kids[Rank(b, s)], path + [s])
    {
      RankBelow(b, s);
      assert ChildAt(Bitmap(b, kids), s) == Some(kids[Rank(b, s)]);
    }
  }

  lemma BitmapShape<V>(b: nat, kids: seq<Node<V>>, path: seq<nat>, d: nat, g: Option<Node<V>>)
    requires WF(Bitmap(b, kids), path) && d < 32
    requires g.Some? ==> WF(g.value, path + [d])
    requires g.None? ==> Has(b, d) && Leaf(kids[Rank(b, d)])
    ensures var r := ReplaceInBitmap(b, kids, d, g);
      && WF(r, path)
      && (Replaced(Bitmap(b, kids), d, g, r) || Collapsed(Bitmap(b, kids), d, g, r))
  {
    if Has(b, d) {
      if g.Some? {
        BitmapShapeSet(b, kids, path, d, g.value);
      } else {
        BitmapShapeRemoved(b, kids, path, d);
      }
    } else {
      BitmapShapeNew(b, kids, path, d, g.value);
    }
  }

  lemma BitmapShapeNew<V>(b: nat, kids: seq<Node<V>>, path: seq<nat>, d: nat, x: Node<V>)
    requires WF(Bitmap(b, kids), path) && d < 32 && WF(x, path + [d]) && !Has(b, d)
    ensures var r := ReplaceInBitmap(b, kids, d, Some(x));
      WF(r, path) && Replaced(Bitmap(b, kids), d, Some(x), r)
  {
    hide Rank, Has, With, Without, Expand, Replaced;
    RankBelow(b, d);
    if |kids| >= MAX_BITMAP {
      ExpandShape(b, kids, path, d, x);
    } else {
      InsertShape(b, kids, path, d, x);
    }
  }

  lemma BitmapShapeSet<V>(b: nat, kids: seq<Node<V>>, path: seq<nat>, d: nat, x: Node<V>)
    requires WF(Bitmap(b, kids), path) && d < 32 && Has(b, d) && WF(x, path + [d])
    ensures var r := ReplaceInBitmap(b, kids, d, Some(x));
      WF(r, path) && (Replaced(Bitmap(b, kids), d, Some(x), r) || Collapsed(Bitmap(b, kids), d, Some(x), r))
  {
    hide Rank, Has, With, Without, Expand, Replaced, Collapsed;
    if |kids| == 1 && Leaf(x) {
      SoleLeafShape(b, kids, path, d, x);
    } else {
      SetShape(b, kids, path, d, x);
    }
  }

  lemma BitmapShapeRemoved<V>(b: nat, kids: seq<Node<V>>, path: seq<nat>, d: nat)
    requires WF(Bitmap(b, kids), path) && d < 32 && Has(b, d) && Leaf(kids[Rank(b, d)])
    ensures var r := ReplaceInBitmap(b, kids, d, None);
      WF(r, path) && (Replaced(Bitmap(b, kids), d, None, r) || Collapsed(Bitmap(b, kids), d, None, r))
  {
    hide Rank, Has, With, Without, Expand, Replaced, Collapsed;
    if |kids| == 2 && Leaf(kids[1 - Rank(b, d)]) {
      OtherLeafShape(b, kids, path, d);
    } else {
      RemoveShape(b, kids, path, d);
    }
  }

  lemma ExpandShape<V>(b: nat, kids: seq<Node<V>>, path: seq<nat>, d: nat, x: Node<V>)
    requires WF(Bitmap(b, kids), path) && d < 32 && WF(x, path + [d])
    requires !Has(b, d) && |kids| >= MAX_BITMAP
    ensures var r := HashArray(|kids| + 1, Expand(b, kids, 32)[d := Some(x)]);
      WF(r, path) && Replaced(Bitmap(b, kids), d, Some(x), r)
  {
    hide Rank, Has, Expand, CountSome, OnPath;
    var slots := Expand(b, kids, 32);
    ExpandCount(b, kids, 32);
    ExpandKid(b, kids, 32, d);
    CountSet(slots, d, Some(x));
    forall s | 0 <= s < 32
      ensures slots[s] == ChildAt(Bitmap(b, kids), s)
    {
      ExpandKid(b, kids, 32, s);
      ChildIsKid(b, kids, s);
    }
  }

  lemma SetShape<V>(b: nat, kids: seq<Node<V>>, path: seq<nat>, d: nat, x: Node<V>)
    requires WF(Bitmap(b, kids), path) && d < 32 && WF(x, path + [d])
    requires Has(b, d) && (|kids| == 1 ==> !Leaf(x))
    ensures Rank(b, d) < |kids|
    ensures var r := Bitmap(b, kids[Rank(b, d) := x]);
      WF(r, path) && Replaced(Bitmap(b, kids), d, Some(x), r)
  {
    hide Rank, Has, OnPath;
    RankBelow(b, d);
    var r := Bitmap(b, kids[Rank(b, d) := x]);
    forall s | 0 <= s < 32
      ensures ChildAt(r, s) == if s == d then Some(x) else ChildAt(Bitmap(b, kids), s)
    {
      SetKid(b, kids, d, x, s);
      ChildIsKid(b, kids, s);
      ChildIsKid(b, r.kids, s);
    }
    BitmapWF(b, r.kids, path);
  }

  lemma InsertShape<V>(b: nat, kids: seq<Node<V>>, path: seq<nat>, d: nat, x: Node<V>)
    requires WF(Bitmap(b, kids), path) && d < 32 && WF(x, path + [d])
    requires !Has(b, d) && |kids| < MAX_BITMAP
    ensures Rank(b, d) <= |kids|
    ensures var r := Bitmap(With(b, d), kids[..Rank(b, d)] + [x] + kids[Rank(b, d)..]);
      WF(r, path) && Replaced(Bitmap(b, kids), d, Some(x), r)
  {
    hide Rank, Has, OnPath, With;
    RankBelow(b, d);
    HasWith(b, d, 32);
    Pow2Word();
    WithBound(b, d, 32);
    var r := Bitmap(With(b, d), kids[..Rank(b, d)] + [x] + kids[Rank(b, d)..]);
    forall s | 0 <= s < 32
      ensures ChildAt(r, s) == if s == d then Some(x) else ChildAt(Bitmap(b, kids), s)
    {
      InsertKid(b, kids, d, x, s);
      ChildIsKid(b, kids, s);
      ChildIsKid(r.bitmap, r.kids, s);
    }
    BitmapWF(r.bitmap, r.kids, path);
  }

  lemma RemoveShape<V>(b: nat, kids: seq<Node<V>>, path: seq<nat>, d: nat)
    requires WF(Bitmap(b, kids), path) && d < 32
    requires Has(b, d) && Leaf(kids[Rank(b, d)])
    requires |kids| == 2 ==> !Leaf(kids[1 - Rank(b, d)])
    ensures var r := Bitmap(Without(b, d), kids[..Rank(b, d)] + kids[Rank(b, d) + 1..]);
      WF(r, path) && Replaced(Bitmap(b, kids), d, None, r)
  {
    hide Rank, Has, OnPath, Without;
    RankBelow(b, d);
    HasWithout(b, d, 32);
    var r := Bitmap(Without(b, d), kids[..Rank(b, d)] + kids[Rank(b, d) + 1..]);
    forall s | 0 <= s < 32
      ensures ChildAt(r, s) == if s == d then None else ChildAt(Bitmap(b, kids), s)
    {
      RemoveKid(b, kids, d, s);
      ChildIsKid(b, kids, s);
      assert r.bitmap <= b by { WithoutSmaller(b, d); }
      ChildIsKid(r.bitmap, r.kids, s);
    }
    WithoutSmaller(b, d);
    BitmapWF(r.bitmap, r.kids, path);
  }

  lemma WithoutSmaller(b: nat, d: nat)
    requires Has(b, d)
    ensures Without(b, d) <= b
  {
  }

  lemma OtherLeafShape<V>(b: nat, kids: seq<Node<V>>, path: seq<nat>, d: nat)
    requires WF(Bitmap(b, kids), path) && d < 32
    requires Has(b, d) && |kids| == 2 && Rank(b, d) < 2 && Leaf(kids[1 - Rank(b, d)])
    ensures var r := kids[1 - Rank(b, d)];
      WF(r, path) && Collapsed(Bitmap(b, kids), d, None, r)
  {
    hide Rank, Has;
    var p := Rank(b, d);
    var t := SlotOf(b, 32, 1 - p);
    var r := kids[1 - p];
    ChildIsKid(b, kids, t);
    LeafUp(r, path, t);
    forall s | 0 <= s < 32 && s != t && s != d
      ensures ChildAt(Bitmap(b, kids), s) == None
    {
      RankBelow(b, s);
      RankOrder(b, d, s);
      RankOrder(b, t, s);
      ChildIsKid(b, kids, s);
    }
    assert CollapsedTo(Bitmap(b, kids), d, None, r, t);
  }

  lemma SoleLeafShape<V>(b: nat, kids: seq<Node<V>>, path: seq<nat>, d: nat, x: Node<V>)
    requires WF(Bitmap(b, kids), path) && d < 32 && WF(x, path + [d])
    requires Has(b, d) && |kids| == 1 && Leaf(x)
    ensures WF(x, path) && Collapsed(Bitmap(b, kids), d, Some(x), x)
  {
    hide Rank, Has;
    LeafUp(x, path, d);
    RankBelow(b, d);
    forall s | 0 <= s < 32 && s != d
      ensures ChildAt(Bitmap(b, kids), s) == None
    {
      RankBelow(b, s);
      RankOrder(b, d, s);
      ChildIsKid(b, kids, s);
    }
    assert CollapsedTo(Bitmap(b, kids), d, Some(x), x, d);
  }

  /** A leaf may move up. */
  lemma LeafUp<V>(n: Node<V>, path: seq<nat>, s: nat)
    requires Leaf(n) && WF(n, path + [s])
    ensures WF(n, path)
  {
    assert forall j :: 0 <= j < |path| ==> (path + [s])[j] == path[j];
  }
}
