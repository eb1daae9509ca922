/** The public operations of `List`, against plain sequences of `undefined`able
  * elements. */
module ListOps {
  import opened Wrappers
  import opened Radix32
  import opened VNodes
  import opened Lists

  /** `updateList` at an index inside the list, negative ones counting back. */
  function Set<V(==)>(l: List<V>, i: int, v: Option<V>): List<V>
    requires l.origin <= l.capacity && -Size(l) <= i < Size(l)
  {
    var x := (if i < 0 then Size(l) + i else i) + l.origin;
    if x >= TailOffset(l.capacity) then l.(tail := UpdateVNode(l.tail, 0, x, v))
    else l.(root := UpdateVNode(l.root, l.level, x, v))
  }

  /** The loop of `set` calls in `push` and `unshift`. */
  function SetAll<V(==)>(l: List<V>, i: nat, vs: seq<Option<V>>): (r: List<V>)
    requires l.origin <= l.capacity && i + |vs| <= Size(l)
    ensures r.origin == l.origin && r.capacity == l.capacity && r.level == l.level && Size(r) == Size(l)
    ensures Valid(l) ==> Valid(r)
    decreases |vs|
  {
    if vs == [] then l else SetAll(Set(l, i, vs[0]), i + 1, vs[1..])
  }

  function Push<V(==)>(l: List<V>, vs: seq<Option<V>>): (r: Result<List<V>, Error>)
    requires Valid(l)
    ensures r.Ok? ==> Valid(r.value) && r.value.origin <= r.value.capacity && Size(r.value) == Size(l) + |vs|
  {
    hide *;
    SetResult(Grown(l, |vs|), Size(l), vs)
  }

  /** The list with room for `n` more elements at its end. */
  function Grown<V(==)>(l: List<V>, n: nat): (r: Result<List<V>, Error>)
    requires Valid(l)
    ensures Size(l) >= 0
    ensures r.Ok? ==> Valid(r.value) && r.value.origin <= r.value.capacity && Size(r.value) == Size(l) + n
  {
    hide *;
    RightSize(l, n);
    Bounds(l, 0, Some(Size(l) + n))
  }

  function SetResult<V(==)>(m: Result<List<V>, Error>, i: nat, vs: seq<Option<V>>): (r: Result<List<V>, Error>)
    requires m.Ok? ==> m.value.origin <= m.value.capacity && i + |vs| <= Size(m.value)
    ensures r.Ok? <==> m.Ok?
    ensures r.Ok? ==> r.value.origin <= r.value.capacity && Size(r.value) == Size(m.value)
    ensures r.Ok? && Valid(m.value) ==> Valid(r.value)
  {
    hide *;
    if m.Err? then m else Ok(SetAll(m.value, i, vs))
  }

  /** The room that `setListBounds` makes on the right. */
  lemma RightSize<V>(l: List<V>, n: nat)
    requires Valid(l)
    ensures Size(l) >= 0
    ensures var r := Bounds(l, 0, Some(Size(l) + n));
      r.Ok? ==> Valid(r.value) && r.value.origin <= r.value.capacity && Size(r.value) == Size(l) + n
  {
    hide Bounds, Valid, Keeps, StaleTail, NewCapacity;
    OneEnd(l, n);
    if Bounds(l, 0, Some(Size(l) + n)).Ok? {
      BoundsKeeps(l, 0, Some(Size(l) + n));
      Ordered(Bounds(l, 0, Some(Size(l) + n)).value);
    }
  }

  lemma OneEnd<V>(l: List<V>, n: nat)
    requires Valid(l)
    ensures NewCapacity(l, Some(Size(l) + n)) - l.origin == Size(l) + n && Size(l) >= 0
    ensures NewCapacity(l, Some(Size(l) + n)) == l.capacity + n
  {
    hide TailOffset, Pow32;
  }

  lemma Ordered<V>(l: List<V>)
    requires Valid(l)
    ensures l.origin <= l.capacity
  {
    hide TailOffset, Pow32;
  }

  function Pop<V(==)>(l: List<V>): Result<List<V>, Error>
    requires Valid(l)
  {
    Bounds(l, 0, Some(-1))
  }

  function Shift<V(==)>(l: List<V>): Result<List<V>, Error>
    requires Valid(l)
  {
    Bounds(l, 1, None)
  }

  /** `slice` between resolved ends. */
  function Slice<V(==)>(l: List<V>, begin: nat, end: nat): Result<List<V>, Error>
    requires Valid(l) && begin <= Size(l) && end <= Size(l)
  {
    Bounds(l, begin, Some(end))
  }

  /** `unshift` of all its arguments. */
  function Unshift<V(==)>(l: List<V>, vs: seq<Option<V>>): (r: Result<List<V>, Error>)
    requires Valid(l)
    ensures r.Ok? ==> r.value.origin <= r.value.capacity && Size(r.value) == Size(l) + |vs|
  {
    hide *;
    LeftSize(l, -|vs|);
    SetResult(Bounds(l, -|vs|, None), 0, vs)
  }

  /** The room that `setListBounds` makes on the left. */
  lemma LeftSize<V>(l: List<V>, begin: int)
    requires Valid(l) && begin <= 0
    ensures var r := Bounds(l, begin, None);
      r.Ok? ==> r.value.origin <= r.value.capacity && Size(r.value) == Size(l) - begin >= -begin
  {
    hide GrowLeft, Rebound, TailOffset;
    if begin < 0 && Bounds(l, begin, None).Ok? {
      BoundsKeepsLeft(l, begin);
    }
  }

  /** `push` raises the range error exactly when the list would end past 2^30. */
  lemma PushOk<V>(l: List<V>, vs: seq<Option<V>>)
    requires Valid(l)
    ensures Push(l, vs).Ok? <==> l.capacity + |vs| <= 0x4000_0000
  {
    hide GrowLeft, Rebound, TailOffset, Pow32, SetAll;
    RightSize(l, |vs|);
  }

  /** A list that starts at 0 still does after `push`. */
  lemma PushFromZero<V>(l: List<V>, vs: seq<Option<V>>)
    requires Valid(l) && l.origin == 0 && Push(l, vs).Ok?
    ensures Push(l, vs).value.origin == 0
  {
    hide Bounds, Valid, SetAll, Size;
    RightSize(l, |vs|);
    BoundsFromZero(l, Some(Size(l) + |vs|));
  }

  lemma BoundsFromZero<V>(l: List<V>, end: Option<int>)
    requires Valid(l) && l.origin == 0 && Bounds(l, 0, end).Ok?
    ensures Bounds(l, 0, end).value.origin == 0
  {
    hide Rebound, TailOffset, Pow32;
    GrowLeftNot(l.root, l.level, 0);
    if 0 < NewCapacity(l, end) {
      ReboundFromZero(l, NewCapacity(l, end));
    }
  }

  lemma ReboundFromZero<V>(l: List<V>, s: nat)
    requires Valid(l) && 0 < s <= MAX_SIZE
    ensures Rebound(l, l.root, l.level, 0, s, l.origin, l.capacity).origin == 0
  {
    hide Trim, NewRoot, NewTail, TailOffset, Pow32;
    var (t, k) := NewRoot(l.tail, l.root, l.level, 0, s, l.capacity);
    TrimFromZero(t, k, NewTail(l, s, l.capacity), s, 0 > l.origin, TailOffset(s) < TailOffset(l.capacity));
  }

  lemma TrimFromZero<V>(t: Tree<V>, k: nat, tail: Tree<V>, s: nat, left: bool, right: bool)
    requires s > 0 && k >= 1 && TailOffset(s) < Pow32(k + 1)
    ensures Trim(t, k, tail, 0, s, left, right).origin == 0
  {
    hide TrimRoot, TailOffset, Pow32;
  }

  /** `unshift` raises it exactly when the list would start before -2^30 or hold more
    * than 2^30 elements. */
  lemma UnshiftOk<V>(l: List<V>, vs: seq<Option<V>>)
    requires Valid(l)
    ensures Unshift(l, vs).Ok? <==> |vs| - l.origin <= 0x4000_0000 && Size(l) + |vs| <= 0x4000_0000
  {
    hide GrowLeft, Rebound, TailOffset, Pow32, SetAll;
    LeftSize(l, -|vs|);
    SmallCapacity(l);
  }

  lemma SmallCapacity<V>(l: List<V>)
    requires Valid(l)
    ensures l.origin <= l.capacity <= 0x4000_0000
  {
    hide TailOffset, Pow32;
    Pow32Monotone(l.level + 1, 6);
    Pow32Six();
    CapacityBound(l.capacity);
  }

  /** Whether `n` more elements fit in front below level 30. */
  predicate Room<V>(l: List<V>, n: int) {
    l.origin - n + RoomLeft(l.level) >= 0
  }

  // ---------------------------------------------------------------- one call

  /** `set` replaces one element. */
  lemma SetContents<V>(l: List<V>, i: int, v: Option<V>)
    requires Valid(l) && -Size(l) <= i < Size(l)
    ensures Valid(Set(l, i, v))
    ensures Contents(Set(l, i, v)) == Contents(l)[if i < 0 then Size(l) + i else i := v]
  {
    hide At, Pow32, UpdateVNode, ListAt;
    var r := Set(l, i, v);
    var x := (if i < 0 then Size(l) + i else i) + l.origin;
    assert r == Set(l, x - l.origin, v);
    forall y: nat | l.origin <= y < l.capacity
      ensures ListAt(r, y) == if y == x then v else ListAt(l, y)
    {
      SetAt(l, x, v, y);
    }
    assert forall j :: 0 <= j < |Contents(l)| ==> Contents(r)[j] == ListAt(r, l.origin + j);
  }

  lemma SetAt<V>(l: List<V>, x: nat, v: Option<V>, y: nat)
    requires Valid(l) && l.origin <= x < l.capacity && l.origin <= y < l.capacity
    ensures ListAt(Set(l, x - l.origin, v), y) == if x == y then v else ListAt(l, y)
  {
    hide At, Pow32, UpdateVNode, ListAt;
    var r := Set(l, x - l.origin, v);
    var p := TailOffset(l.capacity);
    ListAtIsWindowAt(l, y);
    ListAtIsWindowAt(r, y);
    if x >= p && y >= p {
      TailOffsetBlock(l.capacity, x);
      TailOffsetBlock(l.capacity, y);
      UpdateAt(l.tail, 0, x, v, y);
    } else if x < p && y < p {
      BothSmall(x, p, l.level + 1);
      BothSmall(y, p, l.level + 1);
      UpdateAt(l.root, l.level, x, v, y);
    }
  }

  lemma {:induction false} SetAllContents<V>(l: List<V>, i: nat, vs: seq<Option<V>>)
    requires Valid(l) && i + |vs| <= Size(l)
    ensures Contents(SetAll(l, i, vs)) == Contents(l)[..i] + vs + Contents(l)[i + |vs|..]
    decreases |vs|
  {
    hide ListAt, Valid, UpdateVNode;
    if vs != [] {
      SetContents(l, i, vs[0]);
      SetAllContents(Set(l, i, vs[0]), i + 1, vs[1..]);
    }
  }

  /** What `Keeps` says of the sequences. */
  lemma KeepsContents<V>(l: List<V>, begin: int, end: Option<int>, r: List<V>)
    requires l.origin <= l.capacity && r.origin <= r.capacity
    requires r.capacity - r.origin == NewCapacity(l, end) - (l.origin + begin)
    ensures Keeps(l, begin, end, r) <==>
      forall j :: 0 <= j < |Contents(r)| && 0 <= j + begin < |Contents(l)| ==>
        Contents(r)[j] == Contents(l)[j + begin]
  {
    hide ListAt;
    if Keeps(l, begin, end, r) {
      forall j | 0 <= j < |Contents(r)| && 0 <= j + begin < |Contents(l)|
        ensures Contents(r)[j] == Contents(l)[j + begin]
      {
        assert Moved(l, begin, r, l.origin + j + begin) == r.origin + j;
      }
    } else {
      var x: nat :| l.origin <= x < l.capacity && l.origin + begin <= x < NewCapacity(l, end)
        && !(Moved(l, begin, r, x) >= 0 && ListAt(r, Moved(l, begin, r, x)) == ListAt(l, x));
      var j := x - l.origin - begin;
      assert Contents(r)[j] != Contents(l)[j + begin];
    }
  }

  /** `push` appends, exactly unless a stale leaf shows through an empty tail. */
  lemma PushContents<V>(l: List<V>, vs: seq<Option<V>>)
    requires Valid(l) && Push(l, vs).Ok?
    ensures Valid(Push(l, vs).value)
    ensures Contents(Push(l, vs).value) == Contents(l) + vs <==> !StaleTail(l, l.origin, l.capacity + |vs|)
  {
    hide *;
    var end := Some(Size(l) + |vs|);
    PushIsSetAll(l, vs);
    OneEnd(l, |vs|);
    BoundsKeeps(l, 0, end);
    PushKept(l, end, Bounds(l, 0, end).value, vs);
  }

  lemma PushIsSetAll<V>(l: List<V>, vs: seq<Option<V>>)
    requires Valid(l) && Push(l, vs).Ok?
    ensures Bounds(l, 0, Some(Size(l) + |vs|)).Ok?
    ensures var m := Bounds(l, 0, Some(Size(l) + |vs|)).value;
      Valid(m) && m.origin <= m.capacity && 0 <= Size(l) && Size(m) == Size(l) + |vs|
      && Push(l, vs) == Ok(SetAll(m, Size(l), vs))
  {
    hide Bounds, Valid, SetAll, Size;
    RightSize(l, |vs|);
  }

  lemma PushKept<V>(l: List<V>, end: Option<int>, m: List<V>, vs: seq<Option<V>>)
    requires Valid(l) && Valid(m) && Size(l) >= 0 && Size(m) == Size(l) + |vs| == NewCapacity(l, end) - l.origin
    ensures Contents(SetAll(m, Size(l), vs)) == Contents(l) + vs <==> Keeps(l, 0, end, m)
  {
    hide Keeps, SetAll, Valid, Contents, NewCapacity;
    Ordered(l);
    Ordered(m);
    ContentsSize(l);
    ContentsSize(m);
    KeepsContents(l, 0, end, m);
    SetAllContents(m, Size(l), vs);
    SameFront(Contents(l), Contents(m), vs);
  }

  lemma SameFront<T>(s: seq<T>, t: seq<T>, vs: seq<T>)
    requires |s| <= |t|
    ensures t[..|s|] + vs == s + vs <==> forall j :: 0 <= j < |t| && 0 <= j + 0 < |s| ==> t[j] == s[j + 0]
  {
    if t[..|s|] == s {
      assert forall j :: 0 <= j < |t| && 0 <= j + 0 < |s| ==> t[j] == s[j + 0];
    } else {
      var j :| 0 <= j < |s| && t[j] != s[j];
      assert (t[..|s|] + vs)[j] != (s + vs)[j];
      assert !(t[j] == s[j + 0]);
    }
  }

  /** A list cut to a window of itself. */
  lemma Shrunk<V>(l: List<V>, begin: nat, end: Option<int>)
    requires Valid(l) && NewCapacity(l, end) <= l.capacity
    ensures Bounds(l, begin, end).Ok? && Valid(Bounds(l, begin, end).value)
    ensures var n := NewCapacity(l, end) - (l.origin + begin);
      n <= |Contents(l)| - begin
      && Contents(Bounds(l, begin, end).value) == if n <= 0 then [] else Contents(l)[begin..begin + n]
  {
    hide Bounds, ListAt, Keeps, StaleTail, TailOffset, NewCapacity;
    NoError(l, begin, end);
    BoundsKeeps(l, begin, end);
    NotStaleShrunk(l, l.origin + begin, NewCapacity(l, end));
    var n := NewCapacity(l, end) - (l.origin + begin);
    var r := Bounds(l, begin, end).value;
    if n > 0 {
      KeepsContents(l, begin, end, r);
      WindowOf(Contents(l), begin, Contents(r));
    }
  }

  lemma WindowOf<T>(s: seq<T>, begin: nat, t: seq<T>)
    requires begin + |t| <= |s|
    requires forall j :: 0 <= j < |t| && 0 <= j + begin < |s| ==> t[j] == s[j + begin]
    ensures t == s[begin..begin + |t|]
  {
  }

  lemma PopContents<V>(l: List<V>)
    requires Valid(l)
    ensures Pop(l).Ok? && Valid(Pop(l).value)
    ensures Contents(Pop(l).value) == if Contents(l) == [] then [] else Contents(l)[..|Contents(l)| - 1]
  {
    hide Bounds, Contents, TailOffset;
    Shrunk(l, 0, Some(-1));
    ContentsSize(l);
  }

  lemma ContentsSize<V>(l: List<V>)
    requires Valid(l)
    ensures |Contents(l)| == l.capacity - l.origin && NewCapacity(l, Some(-1)) == l.capacity - 1
    ensures forall n: nat :: n <= |Contents(l)| ==> Contents(l)[n..|Contents(l)|] == Contents(l)[n..]
  {
  }

  lemma ShiftContents<V>(l: List<V>)
    requires Valid(l)
    ensures Shift(l).Ok? && Valid(Shift(l).value)
    ensures Contents(Shift(l).value) == if Contents(l) == [] then [] else Contents(l)[1..]
  {
    hide Bounds, Contents, TailOffset;
    Shrunk(l, 1, None);
    ContentsSize(l);
  }

  lemma SliceContents<V>(l: List<V>, begin: nat, end: nat)
    requires Valid(l) && begin <= Size(l) && end <= Size(l)
    ensures Slice(l, begin, end).Ok? && Valid(Slice(l, begin, end).value)
    ensures Contents(Slice(l, begin, end).value) == if begin >= end then [] else Contents(l)[begin..end]
  {
    hide Bounds, Contents, TailOffset;
    Shrunk(l, begin, Some(end));
    ContentsSize(l);
  }

  lemma NotStaleShrunk<V>(l: List<V>, a: int, s: int)
    requires s <= l.capacity
    ensures !StaleTail(l, a, s)
  {
    hide At, TailOffset;
    if s >= 0 {
      TailOffsetMonotone(s, l.capacity);
    }
  }

  /** Shrinking a list raises no range error. */
  lemma NoError<V>(l: List<V>, begin: nat, end: Option<int>)
    requires Valid(l) && NewCapacity(l, end) <= l.capacity
    ensures Bounds(l, begin, end).Ok?
  {
    hide GrowLeft, Rebound, TailOffset, Pow32;
    SmallCapacity(l);
  }

  lemma CapacityBound(t: nat)
    ensures TailOffset(t) < MAX_SIZE ==> t <= MAX_SIZE
  {
  }

  /** `unshift` prepends all its arguments, exactly when they fit. */
  lemma UnshiftContents<V>(l: List<V>, vs: seq<Option<V>>)
    requires Valid(l) && Unshift(l, vs).Ok?
    ensures var r := Unshift(l, vs).value;
      && r.origin <= r.capacity && Size(r) == Size(l) + |vs|
      && (Valid(r) <==> Room(l, |vs|))
      && (Valid(r) ==> Contents(r) == vs + Contents(l))
  {
    hide ListAt, Bounds, Keeps, RoomLeft, Contents, TailOffset;
    LeftSize(l, -|vs|);
    if vs == [] {
      NoArguments(l);
    } else {
      var m := Bounds(l, -|vs|, None).value;
      BoundsKeepsLeft(l, -|vs|);
      SameShape(m, SetAll(m, 0, vs));
      if Room(l, |vs|) {
        KeepsContents(l, -|vs|, None, m);
        SetAllContents(m, 0, vs);
        ContentsSize(l);
        ContentsSize(m);
        FrontAndRest(Contents(m), vs, Contents(l));
      }
    }
  }

  lemma NoArguments<V>(l: List<V>)
    requires Valid(l) && Unshift(l, []).Ok?
    ensures Unshift(l, []) == Ok(l) && Room(l, 0) && [] + Contents(l) == Contents(l)
  {
    hide ListAt, RoomLeft, GrowLeft, Rebound, TailOffset;
    LeftSize(l, 0);
  }

  /** Validity depends on the bounds and the level alone, for lists with elements. */
  lemma SameShape<V>(l: List<V>, r: List<V>)
    requires l.origin == r.origin && l.capacity == r.capacity && l.level == r.level && l.origin < l.capacity
    ensures Valid(l) <==> Valid(r)
  {
  }

  lemma FrontAndRest<T>(t: seq<T>, vs: seq<T>, s: seq<T>)
    requires |t| == |vs| + |s|
    requires forall j :: 0 <= j < |t| && 0 <= j + -|vs| < |s| ==> t[j] == s[j + -|vs|]
    ensures t[..0] + vs + t[0 + |vs|..] == vs + s
  {
    assert t[|vs|..] == s;
  }

  // ------------------------------------------------- `unshift` past level 25

  /** A left shift that does not fit raises the root to level 30. */
  lemma {:induction false} GrowLeftSix<V>(t: Tree<V>, k: nat, a: int, f: nat)
    requires k <= 5 && a + f + RoomLeft(k) < 0 && a + f + RoomLeft(k) + MAX_SIZE >= 0
    ensures var r := GrowLeft(t, k, a, f); r.1 == 6 && r.2 == f + RoomLeft(k) + MAX_SIZE
    decreases 5 - k
  {
    Pow32Six();
    hide Pow32;
    var t1 := Some(VNode(if Nonempty(t) then [Hole, Sub(t.value)] else []));
    if k < 5 {
      GrowLeftSix(t1, k + 1, a, f + Pow32(k + 1));
    } else {
      assert GrowLeft(t1, 6, a, f + Pow32(6)) == (t1, 6, f + Pow32(6));
    }
  }

  /** At level 30 the index limit `1 << 35` is 8, so the front of the list is out
    * of reach of `get`. */
  lemma UnshiftLost<V>(l: List<V>, vs: seq<Option<V>>)
    requires Valid(l) && Unshift(l, vs).Ok? && !Room(l, |vs|)
    ensures var r := Unshift(l, vs).value; r.level == 6 && Size(r) > 0 && Get(r, 0) == None
  {
    hide RoomLeft, GrowLeft, Rebound, TailOffset, Pow32;
    LeftSize(l, -|vs|);
    var m := Bounds(l, -|vs|, None).value;
    LostShape(l, -|vs|);
    var r := SetAll(m, 0, vs);
    assert ShiftOne(35) == 8;
  }

  lemma LostShape<V>(l: List<V>, begin: int)
    requires Valid(l) && begin <= 0 && Bounds(l, begin, None).Ok? && !Room(l, -begin)
    ensures var r := Bounds(l, begin, None).value;
      r.level == 6 && 8 <= r.origin < TailOffset(r.capacity) && r.origin < r.capacity
  {
    hide GrowLeft, RoomLeft, Rebound, TailOffset, Pow32;
    var a := l.origin + begin;
    Pow32Six();
    RoomKinds(l.level);
    GrowLeftSix(l.root, l.level, a, 0);
    GrowLeftOffset(l, a);
    var (t, k, f) := GrowLeft(l.root, l.level, a, 0);
    TailBelow(l.capacity + f);
    LongEnough(l);
    Level30(l, t, k, a + f, l.origin + f, l.capacity + f);
  }

  lemma RoomKinds(k: nat)
    ensures RoomLeft(k) >= 0 && (1 <= k < 5 ==> RoomLeft(k) >= 8)
  {
    Pow32Monotone(1, k + 1);
  }

  lemma TailBelow(t: nat)
    requires t > 0
    ensures TailOffset(t) < t
  {
  }

  lemma LongEnough<V>(l: List<V>)
    requires Valid(l)
    ensures l.level > 1 ==> l.capacity > 32
  {
  }

  /** The first of defined arguments is read back at index 0, exactly when all of
    * them fit below level 30. */
  lemma UnshiftExactly<V>(l: List<V>, vs: seq<Option<V>>)
    requires Valid(l) && Unshift(l, vs).Ok? && vs != [] && vs[0].Some?
    ensures Size(Unshift(l, vs).value) >= 0
    ensures Get(Unshift(l, vs).value, 0) == vs[0] <==> Room(l, |vs|)
  {
    hide Unshift, ListAt, Pow32, RoomLeft;
    UnshiftContents(l, vs);
    if Room(l, |vs|) {
      var r := Unshift(l, vs).value;
      assert Contents(r)[0] == vs[0];
    } else {
      UnshiftLost(l, vs);
    }
  }
}
