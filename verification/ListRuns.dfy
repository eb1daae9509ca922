/** Whole runs of `List` operations, the loops of `setListBounds`, and two lists
  * on which the library departs from a plain sequence. */
module ListRuns {
  import opened Wrappers
  import opened Radix32
  import opened VNodes
  import opened Lists
  import opened ListOps

  // -------------------------------------------------------------- the loops

  /** `setListBounds`; its three loops follow. */
  method SetListBounds<V(==)>(l: List<V>, begin: int, end: Option<int>) returns (r: Result<List<V>, Error>)
    requires Valid(l)
    ensures r == Bounds(l, begin, end)
  {
    hide Rebound, Pow32, TailOffset;
    var o, i := l.origin, l.capacity;
    var a, s := o + begin, NewCapacity(l, end);
    if s > MAX_SIZE || a < -MAX_SIZE || s - a > MAX_SIZE { return Err(RangeError); }
    if a == o && s == i { return Ok(l); }
    if a >= s { return Ok(Empty()); }

    var root, level, shift := RaiseLeft(l.root, l.level, a);
    var t := FinishBounds(l, root, level, a + shift, s + shift, o + shift, i + shift);
    return Ok(t);
  }

  method FinishBounds<V(==)>(l: List<V>, root1: Tree<V>, level1: nat, a: nat, s: nat, o: nat, i: nat)
    returns (r: List<V>)
    requires a < s && level1 >= 1
    ensures r == Rebound(l, root1, level1, a, s, o, i)
  {
    hide Trim, ListNodeFor, TailOffset;
    var p, h := TailOffset(i), TailOffset(s);
    var root, level := RaiseRight(root1, level1, h);

    var tail := l.tail;
    if h < p {
      tail := FindLeaf(l, s - 1);
    } else if h > p {
      tail := Some(VNode([]));
    }
    if h > p && a < i && Nonempty(l.tail) {
      root := Some(PutLeaf(root, level, p, l.tail.value));
    }
    if s < i && tail.Some? {
      tail := Some(RemoveAfter(tail.value, 0, s));
    }
    r := FinishTrim(root, level, tail, a, s, a > o, h < p);
  }

  /** The end of `setListBounds`. */
  method FinishTrim<V(==)>(root0: Tree<V>, level0: nat, tail0: Tree<V>, a: nat, s: nat, left: bool, right: bool)
    returns (r: List<V>)
    requires a < s && level0 >= 1 && TailOffset(s) < Pow32(level0 + 1)
    ensures r == Trim(root0, level0, tail0, a, s, left, right)
  {
    hide TailOffset, Pow32, RemoveBefore, RemoveAfter, Lower;
    var root, level, tail := root0, level0, tail0;
    var h := TailOffset(s);
    if a >= h {
      if tail.Some? {
        tail := Some(RemoveBefore(tail.value, 0, a - h));
      }
      return List(a - h, s - h, 1, None, tail);
    } else if left || right {
      BothSmall(a, h, level + 1);
      var f;
      root, level, f := LowerRoot(root, level, a, h);
      if root.Some? && left {
        root := Some(RemoveBefore(root.value, level, a - f));
      }
      if root.Some? && right {
        root := Some(RemoveAfter(root.value, level, h - f));
      }
      return List(a - f, s - f, level, root, tail);
    }
    return List(a, s, level, root, tail);
  }

  method RaiseLeft<V>(root0: Tree<V>, level0: nat, a: int) returns (root: Tree<V>, level: nat, shift: nat)
    ensures (root, level, shift) == GrowLeft(root0, level0, a, 0)
  {
    root, level, shift := root0, level0, 0;
    while a + shift < 0
      invariant GrowLeft(root, level, a, shift) == GrowLeft(root0, level0, a, 0)
      decreases -(a + shift)
    {
      root := Some(VNode(if Nonempty(root) then [Hole, Sub(root.value)] else []));
      level := level + 1;
      shift := shift + Pow32(level);
    }
  }

  method RaiseRight<V>(root0: Tree<V>, level0: nat, h: nat) returns (root: Tree<V>, level: nat)
    ensures (root, level) == GrowRight(root0, level0, h)
  {
    root, level := root0, level0;
    while h >= Pow32(level + 1)
      invariant GrowRight(root, level, h) == GrowRight(root0, level0, h)
      decreases h - Pow32(level + 1)
    {
      root := Some(VNode(if Nonempty(root) then [Sub(root.value)] else []));
      level := level + 1;
    }
  }

  method LowerRoot<V>(root0: Tree<V>, level0: nat, a: nat, h: nat) returns (root: Tree<V>, level: nat, f: nat)
    requires level0 >= 1 && a < h && h % 32 == 0 && Shr(a, level0 + 1) == Shr(h, level0 + 1) == 0
    ensures level >= 1 && (root, level, f) == Lower(root0, level0, a, h, 0)
    ensures f <= a
  {
    hide Shr, Pow32;
    root, level, f := root0, level0, 0;
    while root.Some? && Digit(a, level) == Shr(h, level)
      invariant 1 <= level <= level0 && Shr(a, level + 1) == Shr(h, level + 1)
      invariant Lower(root, level, a, h, f) == Lower(root0, level0, a, h, 0)
      decreases level
    {
      var v := Digit(a, level);
      LowerStep(a, h, level);
      if v != 0 {
        f := f + Pow32(level) * v;
      }
      level := level - 1;
      root := Child(root.value, v);
    }
    LowerOffset(root0, level0, a, h, 0);
  }

  /** `listNodeFor` with its loop. */
  method FindLeaf<V>(l: List<V>, x: nat) returns (r: Tree<V>)
    ensures r == ListNodeFor(l, x)
  {
    if x >= TailOffset(l.capacity) { return l.tail; }
    if x < ShiftOne(5 * l.level + 5) {
      r := l.root;
      var k := l.level;
      while r.Some? && k > 0
        invariant LeafFor(r, k, x) == LeafFor(l.root, l.level, x)
      {
        r := Child(r.value, Digit(x, k));
        k := k - 1;
      }
      return r;
    }
    return None;
  }

  // ------------------------------------------------------------------- runs

  /** One call; `slice` with its ends resolved. */
  datatype Op<V> =
    | OpPush(vs: seq<Option<V>>)
    | OpPop
    | OpUnshift(vs: seq<Option<V>>)
    | OpShift
    | OpSet(i: int, v: Option<V>)
    | OpSlice(begin: nat, end: nat)

  /** `set` is called at existing indices, and `slice` resolves its ends. */
  predicate InRange<V>(n: int, op: Op<V>) {
    match op
    case OpSet(i, _) => -n <= i < n
    case OpSlice(begin, end) => begin <= n && end <= n
    case _ => true
  }

  /** No range error: the list stays within 2^30 places, from -2^30 on. */
  predicate Bounded<V>(l: List<V>, op: Op<V>) {
    match op
    case OpPush(vs) => l.capacity + |vs| <= 0x4000_0000
    case OpUnshift(vs) => |vs| - l.origin <= 0x4000_0000 && Size(l) + |vs| <= 0x4000_0000
    case _ => true
  }

  function Apply<V(==)>(l: List<V>, op: Op<V>): (r: Result<List<V>, Error>)
    requires Valid(l) && InRange(Size(l), op)
    ensures r.Ok? <==> Bounded(l, op)
  {
    hide ListAt, Push, Pop, Shift, Unshift, Slice, Set, TailOffset;
    match op
    case OpPush(vs) =>
      PushOk(l, vs);
      Push(l, vs)
    case OpPop =>
      PopContents(l);
      Pop(l)
    case OpUnshift(vs) =>
      UnshiftOk(l, vs);
      Unshift(l, vs)
    case OpShift =>
      ShiftContents(l);
      Shift(l)
    case OpSet(i, v) => Ok(Set(l, i, v))
    case OpSlice(begin, end) =>
      SliceContents(l, begin, end);
      Slice(l, begin, end)
  }

  /** The same call on a sequence. */
  function ApplySeq<V>(s: seq<Option<V>>, op: Op<V>): seq<Option<V>>
    requires InRange(|s|, op)
  {
    match op
    case OpPush(vs) => s + vs
    case OpPop => if s == [] then [] else s[..|s| - 1]
    case OpUnshift(vs) => vs + s
    case OpShift => if s == [] then [] else s[1..]
    case OpSet(i, v) => s[if i < 0 then |s| + i else i := v]
    case OpSlice(begin, end) => if begin >= end then [] else s[begin..end]
  }

  /** And room on the left for what `unshift` adds. */
  predicate Fits<V>(l: List<V>, op: Op<V>) {
    InRange(Size(l), op) && Bounded(l, op) && (op.OpUnshift? ==> Room(l, |op.vs|))
  }

  /** And no stale leaf that a `push` would show. */
  ghost predicate Safe<V>(l: List<V>, op: Op<V>) {
    Fits(l, op) && (op.OpPush? ==> !StaleTail(l, l.origin, l.capacity + |op.vs|))
  }

  /** A call gives a list below level 30 with the contents of the same call on the
    * sequence, exactly when it is safe. */
  lemma StepLaw<V>(l: List<V>, op: Op<V>)
    requires Valid(l) && InRange(Size(l), op)
    ensures |Contents(l)| == Size(l)
    ensures (match Apply(l, op)
             case Ok(r) => Valid(r) && Contents(r) == ApplySeq(Contents(l), op)
             case Err(_) => false)
      <==> Safe(l, op)
  {
    if Apply(l, op).Ok? {
      StepContents(l, op);
    }
    hide *;
    ContentsSize(l);
  }

  lemma StepContents<V>(l: List<V>, op: Op<V>)
    requires Valid(l) && InRange(Size(l), op) && Bounded(l, op)
    ensures |Contents(l)| == Size(l)
    ensures var r := Apply(l, op).value;
      Valid(r) && Contents(r) == ApplySeq(Contents(l), op) <==> Safe(l, op)
  {
    hide ListAt, Push, Pop, Shift, Unshift, Slice, Set, StaleTail, Contents, TailOffset, RoomLeft;
    ContentsSize(l);
    match op
    case OpPush(vs) =>
      PushOk(l, vs);
      PushContents(l, vs);
    case OpPop => PopContents(l);
    case OpUnshift(vs) =>
      UnshiftOk(l, vs);
      UnshiftContents(l, vs);
    case OpShift => ShiftContents(l);
    case OpSet(i, v) => SetContents(l, i, v);
    case OpSlice(begin, end) => SliceContents(l, begin, end);
  }

  /** A run of safe calls; `None` when a call is not safe. */
  ghost function Run<V>(l: List<V>, ops: seq<Op<V>>): Option<List<V>>
    requires Valid(l)
    decreases |ops|
  {
    if ops == [] then Some(l)
    else if !Safe(l, ops[0]) then None
    else
      StepLaw(l, ops[0]);
      Run(Apply(l, ops[0]).value, ops[1..])
  }

  ghost function RunSeq<V>(s: seq<Option<V>>, ops: seq<Op<V>>): Option<seq<Option<V>>>
    decreases |ops|
  {
    if ops == [] then Some(s)
    else if !InRange(|s|, ops[0]) then None
    else RunSeq(ApplySeq(s, ops[0]), ops[1..])
  }

  /** Any run of safe calls behaves as on a sequence of defined and undefined
    * elements, through every change of level, origin and tail. */
  lemma {:induction false} RunRefines<V>(l: List<V>, ops: seq<Op<V>>)
    requires Valid(l) && Run(l, ops).Some?
    ensures Valid(Run(l, ops).value) && RunSeq(Contents(l), ops) == Some(Contents(Run(l, ops).value))
    decreases |ops|
  {
    hide ListAt, Apply, ApplySeq, Contents, StaleTail, TailOffset;
    if ops != [] {
      StepLaw(l, ops[0]);
      RunRefines(Apply(l, ops[0]).value, ops[1..]);
    }
  }

  /** Every `get`, after every run from the empty list. */
  lemma RunGet<V>(ops: seq<Op<V>>, i: int)
    requires Run(Empty<V>(), ops).Some?
    ensures var l := Run(Empty<V>(), ops).value;
      && RunSeq([], ops).Some?
      && var s := RunSeq<V>([], ops).value;
         && Size(l) == |s|
         && Get(l, i) == (var j := if i < 0 then |s| + i else i; if 0 <= j < |s| then s[j] else None)
  {
    hide ListAt, Run, RunSeq, TailOffset;
    assert Contents(Empty<V>()) == [];
    RunRefines(Empty<V>(), ops);
    GetContents(Run(Empty<V>(), ops).value, i);
  }

  lemma GetContents<V>(l: List<V>, i: int)
    requires Valid(l)
    ensures var s := Contents(l);
      && Size(l) == |s|
      && Get(l, i) == (var j := if i < 0 then |s| + i else i; if 0 <= j < |s| then s[j] else None)
  {
    hide ListAt, TailOffset;
  }

  // ---------------------------------------------------- runs of defined values

  ghost function Defined<V>(s: seq<V>): (r: seq<Option<V>>) {
    seq(|s|, i requires 0 <= i < |s| => Some(s[i]))
  }

  ghost predicate AllDefined<V>(s: seq<Option<V>>) {
    forall i :: 0 <= i < |s| ==> s[i].Some?
  }

  ghost predicate WritesDefined<V>(op: Op<V>) {
    match op
    case OpPush(vs) => AllDefined(vs)
    case OpUnshift(vs) => AllDefined(vs)
    case OpSet(_, v) => v.Some?
    case _ => true
  }

  /** A list of defined values has something in its tail. */
  lemma DefinedNotStale<V>(l: List<V>, n: nat)
    requires Valid(l) && AllDefined(Contents(l))
    ensures !StaleTail(l, l.origin, n)
  {
    hide Pow32, At, ListAt;
    if l.capacity > l.origin {
      assert Contents(l)[Size(l) - 1] == ListAt(l, l.capacity - 1);
      ListAtIsWindowAt(l, l.capacity - 1);
      EmptyNode(l.tail, 0, l.capacity - 1);
    }
  }

  lemma DefinedStays<V>(s: seq<Option<V>>, op: Op<V>)
    requires AllDefined(s) && InRange(|s|, op) && WritesDefined(op)
    ensures AllDefined(ApplySeq(s, op))
  {
  }

  /** On runs that write defined values, no push is ever stale: fitting is enough. */
  lemma {:induction false} DefinedRunIsSafe<V>(l: List<V>, ops: seq<Op<V>>)
    requires Valid(l) && AllDefined(Contents(l)) && forall i :: 0 <= i < |ops| ==> WritesDefined(ops[i])
    ensures Run(l, ops).Some? <==> RunFits(l, ops)
    decreases |ops|
  {
    hide ListAt, Apply, ApplySeq, Contents, StaleTail, TailOffset, RoomLeft, WritesDefined;
    if ops != [] && Fits(l, ops[0]) {
      DefinedNotStale(l, l.capacity + if ops[0].OpPush? then |ops[0].vs| else 0);
      StepLaw(l, ops[0]);
      DefinedStays(Contents(l), ops[0]);
      DefinedRunIsSafe(Apply(l, ops[0]).value, ops[1..]);
    }
  }

  /** Every call of the run fits the list it meets. */
  predicate RunFits<V(==)>(l: List<V>, ops: seq<Op<V>>)
    requires Valid(l)
    decreases |ops|
  {
    ops == [] ||
    (Fits(l, ops[0]) &&
      (FitsValid(l, ops[0]); RunFits(Apply(l, ops[0]).value, ops[1..])))
  }

  lemma FitsValid<V>(l: List<V>, op: Op<V>)
    requires Valid(l) && Fits(l, op)
    ensures Valid(Apply(l, op).value)
  {
    hide ListAt, Push, Pop, Shift, Unshift, Slice, Set, StaleTail, Contents, TailOffset, RoomLeft;
    match op
    case OpPush(vs) =>
      PushOk(l, vs);
      PushContents(l, vs);
    case _ => StepLaw(l, op);
  }

  // ------------------------------------------------------ two departing lists

  /** The trie that one defined element at index 32 leaves behind. */
  function OneAt32<V>(x: V): Tree<V> {
    Some(VNode([Hole, Sub(VNode([Val(x)]))]))
  }

  /** Size 65, one element set, cut to 33, that element set to `undefined`: the
    * list shows 33 times `undefined`, over a trie that still holds the element. */
  lemma StaleSteps<V>(x: V)
    ensures Bounds(Empty<V>(), 0, Some(65)) == Ok(List(0, 65, 1, None, Some(VNode([]))))
    ensures Set(List(0, 65, 1, None, Some(VNode([]))), 32, Some(x)) == List(0, 65, 1, OneAt32(x), Some(VNode([])))
    ensures Slice(List(0, 65, 1, OneAt32(x), Some(VNode([]))), 0, 33)
         == Ok(List(0, 33, 1, OneAt32(x), Some(VNode([Val(x)]))))
    ensures Set(List(0, 33, 1, OneAt32(x), Some(VNode([Val(x)]))), 32, None)
         == List(0, 33, 1, OneAt32(x), Some(VNode([])))
    ensures Get<V>(List(0, 33, 1, OneAt32(x), Some(VNode([]))), 32) == None
  {
    SliceStep(x);
    SetStep(x);
    hide Bounds, Slice, At, UpdateVNode;
    SizeStep<V>();
    ClearStep(x);
  }

  lemma SizeStep<V>()
    ensures Bounds(Empty<V>(), 0, Some(65)) == Ok(List(0, 65, 1, None, Some(VNode([]))))
  {
  }

  lemma SetStep<V>(x: V)
    ensures Set(List(0, 65, 1, None, Some(VNode([]))), 32, Some(x)) == List(0, 65, 1, OneAt32(x), Some(VNode([])))
  {
    assert Digit(32, 1) == 1;
    assert Put([], 0, Val(x)) == [Val(x)];
    assert Put([], 1, Sub(VNode([Val(x)]))) == [Hole, Sub(VNode([Val(x)]))];
  }

  lemma ClearStep<V>(x: V)
    ensures Set(List(0, 33, 1, OneAt32(x), Some(VNode([Val(x)]))), 32, None)
         == List(0, 33, 1, OneAt32(x), Some(VNode([])))
    ensures Get<V>(List(0, 33, 1, OneAt32(x), Some(VNode([]))), 32) == None
  {
  }

  lemma SliceStep<V>(x: V)
    ensures Slice(List(0, 65, 1, OneAt32(x), Some(VNode([]))), 0, 33)
         == Ok(List(0, 33, 1, OneAt32(x), Some(VNode([Val(x)]))))
  {
    var l := List(0, 65, 1, OneAt32(x), Some(VNode([])));
    ShiftOneIsPow32(1);
    var leaf := VNode([Val(x)]);
    assert LeafFor(l.root, 1, 32) == LeafFor(Some(leaf), 0, 32) == Some(leaf) by {
      assert Digit(32, 1) == 1;
    }
    assert RemoveAfter(leaf, 0, 33) == leaf;
    assert NewTail(l, 33, 65) == Some(leaf);
    assert Digit(0, 1) == 0;
    BothSmall(0, 32, 2);
    assert TrimRoot(l.root, 1, 0, 32, false, true) == (l.root, 1, 0);
  }

  /** ... and 32 more elements bring it back. */
  lemma StalePush<V>(x: V, vs: seq<Option<V>>)
    requires |vs| == 32
    ensures var l := List(0, 33, 1, OneAt32(x), Some(VNode([])));
      Push(l, vs).Ok? && Contents(Push(l, vs).value) != Contents(l) + vs
  {
    var l := List(0, 33, 1, OneAt32(x), Some(VNode([])));
    assert At(l.root, 1, 32) == Some(x) by {
      assert Digit(32, 1) == 1;
      assert At(Child(l.root.value, 1), 0, 32) == Some(x);
    }
    assert StaleTail(l, 0, 65);
    PushContents(l, vs);
  }

  /** The list that `setSize(0x2000021)` makes of the empty one: level 25. */
  function LongList<V>(): List<V> {
    List(0, 0x200_0021, 5, Some(VNode([])), Some(VNode([])))
  }

  lemma LongListIsMade<V>()
    ensures Valid(LongList<V>()) && Bounds(Empty<V>(), 0, Some(0x200_0021)) == Ok(LongList())
  {
    Pow32s();
    var h := 0x200_0020;
    var e: Tree<V> := Some(VNode([]));
    assert GrowRight(e, 5, h) == (e, 5);
    assert GrowRight(e, 4, h) == GrowRight(e, 5, h);
    assert GrowRight(e, 3, h) == GrowRight(e, 4, h);
    assert GrowRight(e, 2, h) == GrowRight(e, 3, h);
    assert GrowRight(None, 1, h) == GrowRight(e, 2, h);
  }

  lemma Pow32s()
    ensures Pow32(2) == 0x400 && Pow32(3) == 0x8000 && Pow32(4) == 0x10_0000
    ensures Pow32(5) == 0x200_0000 && Pow32(6) == 0x4000_0000
  {
    assert Pow32(1) == 32;
    assert Pow32(3) == 32 * Pow32(2) && Pow32(4) == 32 * Pow32(3);
    assert Pow32(5) == 32 * Pow32(4) && Pow32(6) == 32 * Pow32(5);
  }

  /** Two public calls, `setSize` and `unshift`, after which the new element
    * cannot be read. */
  lemma LongListLosesUnshift<V>(v: V)
    ensures Valid(LongList<V>()) && Bounds(Empty<V>(), 0, Some(0x200_0021)) == Ok(LongList())
    ensures Unshift(LongList(), [Some(v)]).Ok?
    ensures Get(Unshift(LongList(), [Some(v)]).value, 0) == None
  {
    LongListIsMade<V>();
    LongFits<V>();
    hide Bounds;
    var vs := [Some(v)];
    assert |vs| == 1 && Unshift(LongList(), vs).Ok?;
    UnshiftLost(LongList(), vs);
  }

  lemma LongFits<V>()
    ensures !Room(LongList<V>(), 1) && Bounds(LongList<V>(), -1, None).Ok?
  {
    hide GrowLeft, Rebound;
  }
}
