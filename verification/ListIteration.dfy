/** `iterateList`: the nested walks over nodes and leaves, which do not go through
  * `listNodeFor`, and the values they yield until they are done. On it stands the
  * iteration of `List` and of `OrderedMap`. */
module ListIteration {
  import opened Basics
  import opened Wrappers
  import opened Radix32
  import opened VNodes
  import opened Lists
  import opened ListOps

  /** The values at the trie indices from `lo` to `hi`, either way round. */
  ghost function Window<V>(l: List<V>, lo: nat, hi: nat, reverse: bool): (w: seq<Option<V>>)
    ensures |w| == if lo <= hi then hi - lo else 0
  {
    seq(if lo <= hi then hi - lo else 0,
        i requires 0 <= i < hi - lo => ListAt(l, if reverse then hi - 1 - i else lo + i))
  }

  lemma WindowSplit<V>(l: List<V>, lo: nat, mid: nat, hi: nat)
    requires lo <= mid <= hi
    ensures Window(l, lo, mid, false) + Window(l, mid, hi, false) == Window(l, lo, hi, false)
  {
    hide ListAt;
  }

  lemma WindowSplitBack<V>(l: List<V>, lo: nat, mid: nat, hi: nat)
    requires lo <= mid <= hi
    ensures Window(l, mid, hi, true) + Window(l, lo, mid, true) == Window(l, lo, hi, true)
  {
    hide ListAt;
  }

  /** Pieces `a` to `b`, each of `p` indices, as far as they belong to the list. */
  ghost function Span<V>(l: List<V>, offset: nat, p: nat, a: nat, b: nat, reverse: bool): seq<Option<V>>
    requires l.origin <= l.capacity
  {
    Window(l, Cut(l, offset + a * p), Cut(l, offset + b * p), reverse)
  }

  lemma SpanNone<V>(l: List<V>, offset: nat, p: nat, a: nat, reverse: bool)
    requires l.origin <= l.capacity
    ensures Span(l, offset, p, a, a, reverse) == []
  {
  }

  /** One more piece, at either end. */
  lemma SpanNext<V>(l: List<V>, offset: nat, p: nat, a: nat, i: nat, b: nat)
    requires l.origin <= l.capacity && a <= i < b
    ensures Span(l, offset, p, a, i, false) + Span(l, offset, p, i, i + 1, false) == Span(l, offset, p, a, i + 1, false)
    ensures Span(l, offset, p, i + 1, b, true) + Span(l, offset, p, i, i + 1, true) == Span(l, offset, p, i, b, true)
  {
    hide Window;
    Times(a, i, p);
    Times(i, i + 1, p);
    Times(i + 1, b, p);
    WindowSplit(l, Cut(l, offset + a * p), Cut(l, offset + i * p), Cut(l, offset + (i + 1) * p));
    WindowSplitBack(l, Cut(l, offset + i * p), Cut(l, offset + (i + 1) * p), Cut(l, offset + b * p));
  }

  lemma Times(a: int, b: int, p: nat)
    ensures a <= b ==> a * p <= b * p
    ensures (a + 1) * p == a * p + p && 0 * p == 0
  {
  }

  /** `t` is the node of level `k` above the indices `x` with `Shr(x, k + 1) == m`. */
  ghost predicate Above<V>(l: List<V>, t: Tree<V>, k: nat, m: nat) {
    forall x: nat :: l.origin <= x < l.capacity && x < TailOffset(l.capacity) && Shr(x, k + 1) == m
      ==> ListAt(l, x) == At(t, k, x)
  }

  /** Where block `m` of `p` indices starts, cut to the list. */
  function Cut<V>(l: List<V>, offset: nat): (x: nat)
    requires l.origin <= l.capacity
    ensures l.origin <= x <= l.capacity
  {
    if offset < l.origin then l.origin else if offset > l.capacity then l.capacity else offset
  }

  /** `iterateList` */
  method IterateList<V>(l: List<V>, reverse: bool) returns (values: seq<Option<V>>)
    requires Valid(l)
    ensures values == if reverse then Reverse(Contents(l)) else Contents(l)
  {
    hide ListAt, Pow32, TailOffset, Span, Contents;
    AboveRoot(l);
    values := IterateNodeOrLeaf(l, l.root, l.level, 0, 0, reverse);
    WholeSpan(l, Pow32(l.level + 1), reverse);
    WholeWindow(l, reverse);
  }

  lemma WholeWindow<V>(l: List<V>, reverse: bool)
    requires l.origin <= l.capacity
    ensures Window(l, l.origin, l.capacity, reverse) == if reverse then Reverse(Contents(l)) else Contents(l)
  {
    hide ListAt, Reverse;
    if reverse {
      forall i | 0 <= i < |Contents(l)|
        ensures Window(l, l.origin, l.capacity, true)[i] == Reverse(Contents(l))[i]
      {
        ReverseAt(Contents(l), i);
      }
    }
  }

  lemma WholeSpan<V>(l: List<V>, p: nat, reverse: bool)
    requires l.origin <= l.capacity <= p
    ensures Span(l, 0, p, 0, 1, reverse) == Window(l, l.origin, l.capacity, reverse)
  {
    assert 0 * p == 0 && 1 * p == p;
  }

  lemma AboveRoot<V>(l: List<V>)
    requires Valid(l)
    ensures Above(l, l.root, l.level, 0) && l.capacity <= Pow32(l.level + 1)
    ensures 0 == 0 * Pow32(l.level + 1)
  {
    hide ListAt, At, Pow32;
    forall x: nat | x < TailOffset(l.capacity) && Shr(x, l.level + 1) == 0
      ensures ListAt(l, x) == At(l.root, l.level, x)
    {
      ShrSmall(x, l.level + 1);
      ListAtIsWindowAt(l, x);
    }
    WholeLeaves(l.level);
  }

  /** The block of a node is a whole number of leaves. */
  lemma WholeLeaves(k: nat)
    ensures Pow32(k + 1) % 32 == 0
  {
  }

  /** `iterateNodeOrLeaf`; `offset` is where block `m` starts. */
  method IterateNodeOrLeaf<V>(l: List<V>, t: Tree<V>, k: nat, offset: nat, ghost m: nat, reverse: bool)
    returns (values: seq<Option<V>>)
    requires l.origin <= l.capacity && Above(l, t, k, m) && offset == m * Pow32(k + 1)
    requires offset <= l.capacity && l.origin < offset + Pow32(k + 1)
    ensures values == Span(l, offset, Pow32(k + 1), 0, 1, reverse)
    decreases k, 1
  {
    hide *;
    if k == 0 {
      values := IterateLeaf(l, t, offset, m, reverse);
    } else {
      values := IterateNode(l, t, k, offset, m, reverse);
    }
  }

  /** `iterateNode` */
  method IterateNode<V>(l: List<V>, t: Tree<V>, k: nat, offset: nat, ghost m: nat, reverse: bool)
    returns (values: seq<Option<V>>)
    requires l.origin <= l.capacity && Above(l, t, k, m) && offset == m * Pow32(k + 1) && k > 0
    requires offset <= l.capacity && l.origin < offset + Pow32(k + 1)
    ensures values == Span(l, offset, Pow32(k + 1), 0, 1, reverse)
    decreases k, 0
  {
    hide *;
    var next := if offset > l.origin then 0 else Shr(l.origin - offset, k);
    var stop := Shr(l.capacity - offset, k) + 1;
    if stop > 32 {
      stop := 32;
    }
    Ends(l, k, offset, next, stop, reverse);
    ghost var first, last := next, stop;
    values := [];
    SpanNone(l, offset, Pow32(k), if reverse then last else first, reverse);
    CoversIn(l, offset, Pow32(k), first, last);
    while next != stop
      invariant first <= next <= stop <= last <= 32 && if reverse then next == first else stop == last
      invariant reverse ==> values == Span(l, offset, Pow32(k), stop, last, true)
      invariant !reverse ==> values == Span(l, offset, Pow32(k), first, next, false)
      decreases stop - next
    {
      var i;
      if reverse {
        stop := stop - 1;
        i := stop;
      } else {
        i := next;
        next := next + 1;
      }
      Visit(l, t, k, offset, m, i, first, last, reverse);
      var vs := IterateNodeOrLeaf(l, ChildOf(t, i), k - 1, offset + i * Pow32(k), 32 * m + i, reverse);
      values := values + vs;
      SpanNext(l, offset, Pow32(k), first, i, last);
    }
  }

  /** `array && array[i]` */
  function ChildOf<V>(t: Tree<V>, i: nat): Tree<V> {
    if t.Some? then Child(t.value, i) else None
  }

  lemma CoversIn<V>(l: List<V>, offset: nat, p: nat, a: nat, b: nat)
    requires Covers(l, offset, p, a, b)
    ensures a <= b <= 32
  {
  }

  /** The child `i` has what a visit needs, and its indices are piece `i`. */
  lemma Visit<V>(l: List<V>, t: Tree<V>, k: nat, offset: nat, m: nat, i: nat, first: nat, last: nat,
                 reverse: bool)
    requires k > 0 && l.origin <= l.capacity && Above(l, t, k, m) && offset == m * Pow32(k + 1)
    requires Covers(l, offset, Pow32(k), first, last) && first <= i < last
    ensures Above(l, ChildOf(t, i), k - 1, 32 * m + i)
    ensures offset + i * Pow32(k) == (32 * m + i) * Pow32(k - 1 + 1)
    ensures offset + i * Pow32(k) <= l.capacity && l.origin < offset + i * Pow32(k) + Pow32(k - 1 + 1)
    ensures Span(l, offset + i * Pow32(k), Pow32(k - 1 + 1), 0, 1, reverse)
         == Span(l, offset, Pow32(k), i, i + 1, reverse)
  {
    hide *;
    CoversIn(l, offset, Pow32(k), first, last);
    AboveChild(l, t, k, m, i);
    Child32(offset, k, m, i);
    CoversOne(l, offset, Pow32(k), first, i, last);
    SpanPiece(l, offset, Pow32(k), i, reverse);
  }

  lemma Child32(offset: nat, k: nat, m: nat, i: nat)
    requires k > 0 && offset == m * Pow32(k + 1)
    ensures k - 1 + 1 == k && offset + i * Pow32(k) == (32 * m + i) * Pow32(k)
  {
    var p := Pow32(k);
    assert Pow32(k + 1) == 32 * p;
    hide Pow32;
    Times32(m, p);
    assert (32 * m + i) * p == 32 * (m * p) + i * p;
  }

  lemma CoversOne<V>(l: List<V>, offset: nat, p: nat, a: nat, i: nat, b: nat)
    requires Covers(l, offset, p, a, b) && a <= i < b
    ensures offset + i * p <= l.capacity && l.origin < offset + i * p + p
  {
    Times(a + 1, i + 1, p);
    Times(i, b - 1, p);
    Times(i, i, p);
  }

  lemma SpanPiece<V>(l: List<V>, offset: nat, p: nat, i: nat, reverse: bool)
    requires l.origin <= l.capacity
    ensures Span(l, offset + i * p, p, 0, 1, reverse) == Span(l, offset, p, i, i + 1, reverse)
  {
    hide Window;
    Times(i, i, p);
    assert 0 * p == 0 && 1 * p == p;
    assert offset + i * p + 1 * p == offset + (i + 1) * p;
  }

  /** Each piece from `a` to `b` may be visited. */
  ghost predicate Covers<V>(l: List<V>, offset: nat, p: nat, a: nat, b: nat) {
    a <= b <= 32 && l.origin < offset + (a + 1) * p && offset + (b - 1) * p <= l.capacity
  }

  /** The first and the last child that are visited cover the window. */
  lemma Ends<V>(l: List<V>, k: nat, offset: nat, next: nat, stop: nat, reverse: bool)
    requires k > 0 && l.origin <= l.capacity && offset <= l.capacity && l.origin < offset + Pow32(k + 1)
    requires next == if offset > l.origin then 0 else Shr(l.origin - offset, k)
    requires var n := Shr(l.capacity - offset, k) + 1; stop == if n > 32 then 32 else n
    ensures Covers(l, offset, Pow32(k), next, stop)
    ensures Span(l, offset, Pow32(k), next, stop, reverse) == Span(l, offset, Pow32(k + 1), 0, 1, reverse)
  {
    hide Span, Shr, Pow32, Covers;
    LowEnd(l, k, offset, next);
    HighEnd(l, k, offset, stop);
    if offset <= l.origin {
      ShrMonotone(l.origin - offset, l.capacity - offset, k);
    }
    EndsMeet(l, offset, k, next, stop, reverse);
  }

  lemma LowEnd<V>(l: List<V>, k: nat, offset: nat, next: nat)
    requires k > 0 && offset <= l.capacity && l.origin < offset + Pow32(k + 1)
    requires next == if offset > l.origin then 0 else Shr(l.origin - offset, k)
    ensures next < 32 && l.origin < offset + (next + 1) * Pow32(k)
    ensures l.origin <= l.capacity ==> Cut(l, offset + next * Pow32(k)) == Cut(l, offset)
  {
    var p := Pow32(k);
    assert Pow32(k + 1) == 32 * p;
    hide Pow32, Shr;
    Times(next, next, p);
    if offset <= l.origin {
      ShrFloor(l.origin - offset, k);
      if next >= 32 {
        Times(32, next, p);
      }
    }
  }

  lemma HighEnd<V>(l: List<V>, k: nat, offset: nat, stop: nat)
    requires k > 0 && l.origin <= l.capacity && offset <= l.capacity
    requires var n := Shr(l.capacity - offset, k) + 1; stop == if n > 32 then 32 else n
    ensures 1 <= stop && offset + (stop - 1) * Pow32(k) <= l.capacity
    ensures Cut(l, offset + stop * Pow32(k)) == Cut(l, offset + Pow32(k + 1))
  {
    var p, n := Pow32(k), Shr(l.capacity - offset, k) + 1;
    assert Pow32(k + 1) == 32 * p;
    hide Pow32, Shr;
    ShrFloor(l.capacity - offset, k);
    Times(stop - 1, n - 1, p);
    Times(n, 32, p);
  }

  lemma EndsMeet<V>(l: List<V>, offset: nat, k: nat, next: nat, stop: nat, reverse: bool)
    requires l.origin <= l.capacity && next <= stop <= 32
    requires l.origin < offset + (next + 1) * Pow32(k) && offset + (stop - 1) * Pow32(k) <= l.capacity
    requires Cut(l, offset + next * Pow32(k)) == Cut(l, offset)
    requires Cut(l, offset + stop * Pow32(k)) == Cut(l, offset + Pow32(k + 1))
    ensures Covers(l, offset, Pow32(k), next, stop)
    ensures Span(l, offset, Pow32(k), next, stop, reverse) == Span(l, offset, Pow32(k + 1), 0, 1, reverse)
  {
    hide Window, Pow32, Cut;
    Times(0, 1, Pow32(k + 1));
  }

  lemma AboveChild<V>(l: List<V>, t: Tree<V>, k: nat, m: nat, i: nat)
    requires k > 0 && Above(l, t, k, m) && i < 32
    ensures Above(l, ChildOf(t, i), k - 1, 32 * m + i)
  {
    var child := ChildOf(t, i);
    hide ListAt, Shr;
    forall x: nat | l.origin <= x < l.capacity && x < TailOffset(l.capacity) && Shr(x, k) == 32 * m + i
      ensures ListAt(l, x) == At(child, k - 1, x)
    {
      ShrOnce(x, k);
    }
  }

  /** `iterateLeaf` */
  method IterateLeaf<V>(l: List<V>, t: Tree<V>, offset: nat, ghost m: nat, reverse: bool)
    returns (values: seq<Option<V>>)
    requires l.origin <= l.capacity && Above(l, t, 0, m) && offset == m * Pow32(1)
    requires offset <= l.capacity && l.origin < offset + Pow32(1)
    ensures values == Span(l, offset, Pow32(1), 0, 1, reverse)
  {
    hide *;
    var leaf := if offset == TailOffset(l.capacity) then l.tail else t;
    var next := if offset > l.origin then 0 else l.origin - offset;
    var stop := l.capacity - offset;
    if stop > 32 {
      stop := 32;
    }
    LeafEnds(l, offset, next, stop, reverse);
    ghost var first, last := next, stop;
    values := [];
    SpanNone(l, offset, 1, if reverse then last else first, reverse);
    while next != stop
      invariant first <= next <= stop <= last <= 32 && if reverse then next == first else stop == last
      invariant reverse ==> values == Span(l, offset, 1, stop, last, true)
      invariant !reverse ==> values == Span(l, offset, 1, first, next, false)
      decreases stop - next
    {
      var i;
      if reverse {
        stop := stop - 1;
        i := stop;
      } else {
        i := next;
        next := next + 1;
      }
      LeafValue(l, t, offset, m, i);
      SpanOne(l, offset, i, reverse);
      values := values + [At(leaf, 0, i)];
      SpanNext(l, offset, 1, first, i, last);
    }
  }

  lemma LeafEnds<V>(l: List<V>, offset: nat, next: int, stop: int, reverse: bool)
    requires l.origin <= l.capacity && offset <= l.capacity && l.origin < offset + Pow32(1)
    requires next == if offset > l.origin then 0 else l.origin - offset
    requires stop == if l.capacity - offset > 32 then 32 else l.capacity - offset
    ensures 0 <= next <= stop <= 32
    ensures next < stop ==> l.origin <= offset + next && offset + stop <= l.capacity
    ensures Span(l, offset, 1, next, stop, reverse) == Span(l, offset, Pow32(1), 0, 1, reverse)
  {
    hide Window;
    assert Pow32(0) == 1 && Pow32(1) == 32;
  }

  lemma SpanOne<V>(l: List<V>, offset: nat, i: nat, reverse: bool)
    requires l.origin <= offset + i < l.capacity
    ensures Span(l, offset, 1, i, i + 1, reverse) == [ListAt(l, offset + i)]
  {
    hide ListAt;
  }

  lemma LeafValue<V>(l: List<V>, t: Tree<V>, offset: nat, m: nat, i: nat)
    requires Above(l, t, 0, m) && offset == m * Pow32(1) && i < 32 && l.origin <= offset + i < l.capacity
    ensures At(if offset == TailOffset(l.capacity) then l.tail else t, 0, i) == ListAt(l, offset + i)
  {
    hide At;
    var x := offset + i;
    LeafBlock(m, i);
    TailAtMoved(l.tail, i, x);
    TailAtMoved(t, i, x);
    if x >= TailOffset(l.capacity) {
      SameMultiple(offset, TailOffset(l.capacity), x);
    }
  }

  lemma LeafBlock(m: nat, i: nat)
    requires i < 32
    ensures Pow32(1) == 32 && Shr(m * 32 + i, 1) == m && (m * 32 + i) % 32 == i % 32 && m * 32 % 32 == 0
  {
    assert Pow32(0) == 1 && Shr(m * 32 + i, 1) == Shr((m * 32 + i) / 32, 0);
  }

  lemma SameMultiple(a: nat, b: nat, x: nat)
    requires a % 32 == 0 && b % 32 == 0 && a <= x < a + 32 && b <= x < b + 32
    ensures a == b
  {
  }

  // ------------------------------------------------------------- the callers

  /** `List.__iterate` with a visitor that never stops it: its calls in order. */
  method Iterate<V>(l: List<V>, reverse: bool) returns (calls: seq<(Option<V>, nat)>)
    requires Valid(l)
    ensures |calls| == Size(l)
    ensures forall i :: 0 <= i < |calls| ==>
      var j := if reverse then Size(l) - 1 - i else i; calls[i] == (Get(l, j), j)
  {
    hide ListAt, TailOffset, Pow32, Reverse;
    var values := IterateList(l, reverse);
    var n := if reverse then Size(l) else 0;
    calls := [];
    for i := 0 to |values|
      invariant |calls| == i && n == if reverse then Size(l) - i else i
      invariant forall j :: 0 <= j < i ==> calls[j] == (values[j], if reverse then Size(l) - 1 - j else j)
    {
      if reverse {
        ReverseAt(Contents(l), i);
        n := n - 1;
        calls := calls + [(values[i], n)];
      } else {
        calls := calls + [(values[i], n)];
        n := n + 1;
      }
    }
    forall i | 0 <= i < |calls|
      ensures var j := if reverse then Size(l) - 1 - i else i; calls[i] == (Get(l, j), j)
    {
      if reverse {
        ReverseAt(Contents(l), i);
      }
    }
  }
}
