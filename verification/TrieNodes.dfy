/** The nodes of the hash trie under `Map`, as values, with `get` and `update`.
  *
  * A key is known by its class under `is` and by its hash, so equal keys have
  * equal hashes; nothing else is said about `hash`.  Levels are counted in
  * digits: the source's `shift` is `5 * k`.  An update with `None` is a removal
  * (the `NOT_SET` value).
  */
module TrieNodes {
  import opened Basics
  import opened Wrappers
  import opened Radix32
  import opened Bitmaps

  type Word = x: nat | x < 0x1_0000_0000

  datatype Key = Key(id: int, hash: Word)

  datatype Node<V> =
    | Bitmap(bitmap: nat, kids: seq<Node<V>>)
    | HashArray(count: nat, slots: seq<Option<Node<V>>>)
    | Collision(keyHash: Word, entries: seq<(Key, V)>)
    | Value(keyHash: Word, entry: (Key, V))

  /** What `update` returns: the node itself, or another (or no) node together
    * with the `didChangeSize` flag; `didAlter` is set exactly for `New`. */
  datatype Upd<V> = Same | New(node: Option<Node<V>>, resized: bool)

  const MAX_BITMAP: nat := 16
  const MIN_HASH_ARRAY: nat := 8

  /** `isLeafNode` */
  predicate Leaf<V>(n: Node<V>) {
    n.Value? || n.Collision?
  }

  /** The first entry with key `key`, or the number of entries. */
  function Find<V>(es: seq<(Key, V)>, key: Key): (i: nat)
    ensures i <= |es|
    ensures i < |es| ==> es[i].0 == key
    ensures forall j :: 0 <= j < i ==> es[j].0 != key
  {
    if es == [] then 0 else if es[0].0 == key then 0 else 1 + Find(es[1..], key)
  }

  /** The edit of an entry array by `update` of an array or collision node. */
  function EditEntries<V>(es: seq<(Key, V)>, key: Key, v: Option<V>): seq<(Key, V)> {
    var i := Find(es, key);
    if i < |es| then
      if v.None? then
        if i == |es| - 1 then es[..i] else es[..|es| - 1][i := es[|es| - 1]]
      else es[i := (key, v.value)]
    else if v.None? then es
    else es + [(key, v.value)]
  }

  /** Place of the child in slot `d`: `popCount(bitmap & (1 << d) - 1)`. */
  function Place(b: nat, d: nat): (r: nat)
    requires b < 0x1_0000_0000
    ensures r == Rank(b, d)
  {
    RankIsPopCount(b, d);
    PopCount(Below(b, d))
  }

  /** `expandNodes` before the new child is written: `n` slots. */
  function Expand<T>(b: nat, kids: seq<T>, n: nat): (r: seq<Option<T>>)
    requires Rank(b, n) <= |kids|
    ensures |r| == n
  {
    if n == 0 then []
    else if b % 2 == 1 then [Some(kids[0])] + Expand(b / 2, kids[1..], n - 1)
    else [None] + Expand(b / 2, kids, n - 1)
  }

  /** `packNodes`: the bitmap and the children, leaving out slot `x`. */
  function PackBits<T>(slots: seq<Option<T>>, x: int): nat {
    if slots == [] then 0
    else (if slots[0].Some? && x != 0 then 1 else 0) + 2 * PackBits(slots[1..], x - 1)
  }

  function PackKids<T>(slots: seq<Option<T>>, x: int): seq<T> {
    if slots == [] then []
    else (if slots[0].Some? && x != 0 then [slots[0].value] else []) + PackKids(slots[1..], x - 1)
  }

  function CountSome<T>(slots: seq<Option<T>>): nat {
    if slots == [] then 0 else (if slots[0].Some? then 1 else 0) + CountSome(slots[1..])
  }

  /** `mergeIntoNode`: a leaf and a new entry under one node. */
  function MergeInto<V>(n: Node<V>, k: nat, hash: Word, entry: (Key, V)): Node<V>
    requires Leaf(n)
    requires n.keyHash == hash ==> n.Value?
    requires n.keyHash == hash || Shr(n.keyHash, k) != Shr(hash, k)
    decreases 7 - k
  {
    if n.keyHash == hash then Collision(hash, [n.entry, entry])
    else
      SevenDigits(n.keyHash, hash, k);
      var a, b := Digit(n.keyHash, k), Digit(hash, k);
      if a == b then
        ShrOnce(n.keyHash, k);
        ShrOnce(hash, k);
        Bitmap(Pow2(a), [MergeInto(n, k + 1, hash, entry)])
      else
        var m := Value(hash, entry);
        Bitmap(Pow2(a) + Pow2(b), if a < b then [n, m] else [m, n])
  }

  /** Two different words differ in one of their seven digits. */
  lemma SevenDigits(x: Word, y: Word, k: nat)
    requires Shr(x, k) != Shr(y, k)
    ensures k < 7
  {
    if k >= 7 {
      Pow32Monotone(7, k);
      assert Pow32(7) == 32 * 32 * 32 * 32 * 32 * 32 * 32;
      ShrSmall(x, k);
      ShrSmall(y, k);
    }
  }

  /** Digits of `h` below `|path|` are those of the path. */
  predicate OnPath(h: nat, path: seq<nat>) {
    forall j :: 0 <= j < |path| ==> Digit(h, j) == path[j]
  }

  predicate Distinct<V>(es: seq<(Key, V)>) {
    forall i, j :: 0 <= i < j < |es| ==> es[i].0 != es[j].0
  }

  /** Shape of a node reached by a path of digits: who may lie below it, and the
    * sizes that trigger the changes of representation. */
  ghost predicate WF<V>(n: Node<V>, path: seq<nat>)
    decreases n
  {
    match n
    case Value(h, e) => h == e.0.hash && OnPath(h, path)
    case Collision(h, es) =>
      && |es| >= 2 && Distinct(es) && OnPath(h, path)
      && forall i :: 0 <= i < |es| ==> es[i].0.hash == h
    case Bitmap(b, kids) =>
      && |path| <= 6 && b < 0x1_0000_0000
      && 1 <= |kids| == Rank(b, 32) <= MAX_BITMAP
      && (|kids| == 1 ==> !Leaf(kids[0]))
      && forall s :: 0 <= s < 32 && Has(b, s) ==>
           Rank(b, s) < |kids| && WF(kids[Rank(b, s)], path + [s])
    case HashArray(c, slots) =>
      && |path| <= 6 && |slots| == 32
      && MIN_HASH_ARRAY <= c == CountSome(slots)
      && forall s :: 0 <= s < 32 && slots[s].Some? ==> WF(slots[s].value, path + [s])
  }

  /** `get` with `undefined` for a missing key. */
  function Get<V>(n: Node<V>, k: nat, key: Key): Option<V>
    decreases n
  {
    match n
    case Value(_, e) => if e.0 == key then Some(e.1) else None
    case Collision(_, es) => var i := Find(es, key); if i < |es| then Some(es[i].1) else None
    case Bitmap(b, kids) =>
      var d := Digit(key.hash, k);
      if b < 0x1_0000_0000 && Has(b, d) && Place(b, d) < |kids| then Get(kids[Place(b, d)], k + 1, key) else None
    case HashArray(_, slots) =>
      var d := Digit(key.hash, k);
      if d < |slots| && slots[d].Some? then Get(slots[d].value, k + 1, key) else None
  }

  function GetOpt<V>(n: Option<Node<V>>, k: nat, key: Key): Option<V> {
    if n.Some? then Get(n.value, k, key) else None
  }

  /** The child in slot `d` of an inner node. */
  function ChildAt<V>(n: Node<V>, d: nat): (c: Option<Node<V>>)
    ensures c.Some? ==> c.value < n
  {
    match n
    case Bitmap(b, kids) =>
      if b < 0x1_0000_0000 && Has(b, d) && Place(b, d) < |kids| then Some(kids[Place(b, d)]) else None
    case HashArray(_, slots) => if d < |slots| then slots[d] else None
    case _ => None
  }

  lemma ChildWF<V>(n: Node<V>, path: seq<nat>, d: nat)
    requires WF(n, path) && !Leaf(n) && d < 32 && ChildAt(n, d).Some?
    ensures WF(ChildAt(n, d).value, path + [d])
  {
  }

  /** `updateNode` without a node. */
  function UpdateMissing<V>(key: Key, v: Option<V>): Upd<V> {
    if v.None? then Same else New(Some(Value(key.hash, (key, v.value))), true)
  }

  /** `ValueNode.update` and `HashCollisionNode.update` */
  function UpdateLeaf<V(==)>(n: Node<V>, path: seq<nat>, key: Key, v: Option<V>): Upd<V>
    requires Leaf(n) && WF(n, path) && OnPath(key.hash, path)
  {
    LeafMerge(n, path, key);
    match n
    case Value(h, e) =>
      if e.0 == key then
        if v == Some(e.1) then Same
        else if v.None? then New(None, true)
        else New(Some(Value(h, (key, v.value))), false)
      else if v.None? then Same
      else New(Some(MergeInto(n, |path|, key.hash, (key, v.value))), true)
    case Collision(h, es) =>
      if key.hash != h then
        if v.None? then Same
        else New(Some(MergeInto(n, |path|, key.hash, (key, v.value))), true)
      else
        var i := Find(es, key);
        if (if i < |es| then v == Some(es[i].1) else v.None?) then Same
        else if v.None? && |es| == 2 then New(Some(Value(h, es[1 - i])), true)
        else New(Some(Collision(h, EditEntries(es, key, v))), v.None? || i == |es|)
  }

  /** The `update` methods of the node classes below the root. */
  function Update<V(==)>(n: Node<V>, path: seq<nat>, key: Key, v: Option<V>): Upd<V>
    requires WF(n, path) && OnPath(key.hash, path)
    decreases n
  {
    if Leaf(n) then UpdateLeaf(n, path, key, v)
    else
      var d := Digit(key.hash, |path|);
      StepOn(key.hash, path);
      var c := ChildAt(n, d);
      var u := if c.None? then UpdateMissing(key, v)
               else (ChildWF(n, path, d); Update(c.value, path + [d], key, v));
      if u.Same? then Same else New(Some(Replace(n, path, d, u.node)), u.resized)
  }

  /** The ends of `BitmapIndexedNode.update` and `HashArrayMapNode.update`. */
  function Replace<V>(n: Node<V>, path: seq<nat>, d: nat, g: Option<Node<V>>): Node<V>
    requires WF(n, path) && !Leaf(n) && d < 32
  {
    match n
    case Bitmap(b, kids) => ReplaceInBitmap(b, kids, d, g)
    case HashArray(c, slots) =>
      ReplaceInHashArray(c, slots, d, g)
  }

  /** The end of `BitmapIndexedNode.update`: child `g` in slot `d`. */
  function ReplaceInBitmap<V>(b: nat, kids: seq<Node<V>>, d: nat, g: Option<Node<V>>): Node<V>
    requires b < 0x1_0000_0000 && d < 32 && |kids| == Rank(b, 32)
  {
    var p := Place(b, d);
    RankBelow(b, d);
    if !Has(b, d) && g.Some? && |kids| >= MAX_BITMAP then
      HashArray(|kids| + 1, Expand(b, kids, 32)[d := g])
    else if Has(b, d) && g.None? && |kids| == 2 && Leaf(kids[1 - p]) then kids[1 - p]
    else if Has(b, d) && g.Some? && |kids| == 1 && Leaf(g.value) then g.value
    else if Has(b, d) then
      if g.Some? then Bitmap(b, kids[p := g.value])
      else Bitmap(Without(b, d), kids[..p] + kids[p + 1..])
    else if g.Some? then Bitmap(With(b, d), kids[..p] + [g.value] + kids[p..])
    else Bitmap(b, kids)
  }

  /** The end of `HashArrayMapNode.update`. */
  function ReplaceInHashArray<V>(c: nat, slots: seq<Option<Node<V>>>, d: nat, g: Option<Node<V>>): Node<V>
    requires d < |slots| && c > 0
  {
    if slots[d].Some? && g.None? && c - 1 < MIN_HASH_ARRAY then
      Bitmap(PackBits(slots, d), PackKids(slots, d))
    else
      HashArray(if slots[d].None? then c + 1 else if g.None? then c - 1 else c, slots[d := g])
  }

  lemma RankBelow(b: nat, d: nat)
    requires d < 32
    ensures Rank(b, d) + (if Has(b, d) then 1 else 0) <= Rank(b, 32)
  {
    RankStep(b, d);
    RankMonotone(b, d + 1, 32);
  }

  lemma {:induction false} RankMonotone(b: nat, d: nat, e: nat)
    requires d <= e
    ensures Rank(b, d) <= Rank(b, e)
  {
    if d < e {
      RankStep(b, e - 1);
      RankMonotone(b, d, e - 1);
    }
  }

  lemma StepOn(h: nat, path: seq<nat>)
    requires OnPath(h, path)
    ensures OnPath(h, path + [Digit(h, |path|)])
  {
  }

  /** Two hashes on one path are equal or differ from its end on. */
  lemma LeafMerge<V>(n: Node<V>, path: seq<nat>, key: Key)
    requires WF(n, path) && Leaf(n) && OnPath(key.hash, path)
    ensures n.keyHash == key.hash || Shr(n.keyHash, |path|) != Shr(key.hash, |path|)
  {
    if Shr(n.keyHash, |path|) == Shr(key.hash, |path|) {
      SameDigits(n.keyHash, key.hash, |path|);
    }
  }
}
