/** The laws of `updateOrderedMap`: iteration order, agreement of its two parts,
  * and the bound on holes. */
module OrderedMapLaws {
  import opened Wrappers
  import opened Lists
  import opened ListOps
  import opened ListRuns
  import opened TrieNodes
  import opened OrderedMaps
  import HashMaps

  // -------------------------------------------------------------------- set

  /** Setting a live key keeps its place. */
  lemma SetLive<V>(m: OrderedMap<V>, key: Key, v: V)
    requires Agree(m) && key in HashMaps.Model(m.index)
    ensures OrderedMaps.Set(m, key, v).Ok?
    ensures var r := OrderedMaps.Set(m, key, v).value;
      Agree(r) && Entries(r) == Replaced(Entries(m), key, v) && r.index == m.index
        && Lists.Size(r.list) == Lists.Size(m.list)
  {
    hide ListAt, ListOps.Set, HashMaps.Model, HashMaps.RootWF, HashMaps.Get, Lists.Get;
    hide Contents, Live, AgreeAt, Replaced, FirstAt;
    IndexLaw(m, key);
    var c, e := Contents(m.list), Some((key, v));
    var u := HashMaps.Get(m.index, key).value;
    ContentsSize(m.list);
    LiveReplace(c, key, v, u);
    AgreeValue(HashMaps.Model(m.index), c, key, v, u);
    if c[u].value.1 == v {
      assert c[u := e] == c;
    } else {
      SetContents(m.list, u, e);
      ContentsSize(ListOps.Set(m.list, u, e));
    }
  }

  /** A new value at the place of a key. */
  lemma AgreeValue<V>(s: map<Key, nat>, c: seq<Option<Entry<V>>>, key: Key, v: V, u: nat)
    requires AgreeAt(s, c) && FirstAt(c, key, u)
    ensures c[u].Some? && c[u].value.0 == key && AgreeAt(s, c[u := Some((key, v))])
  {
  }

  /** `set` raises the range error only for a new key when the list ends at 2^30. */
  lemma SetOk<V>(m: OrderedMap<V>, key: Key, v: V)
    requires Agree(m)
    ensures HashMaps.Get(m.index, key).Some? <==> key in HashMaps.Model(m.index)
    ensures OrderedMaps.Set(m, key, v).Ok? <==>
      HashMaps.Get(m.index, key).Some? || m.list.capacity < 0x4000_0000
  {
    hide ListAt, Push, HashMaps.Model, HashMaps.Get;
    IndexLaw(m, key);
    PushOk(m.list, [Some((key, v))]);
  }

  /** A new key goes to the end; the two parts then agree, exactly unless the push
    * lets a stale leaf of the list show. */
  lemma SetNew<V>(m: OrderedMap<V>, key: Key, v: V)
    requires Agree(m) && key !in HashMaps.Model(m.index) && OrderedMaps.Set(m, key, v).Ok?
    ensures var r := OrderedMaps.Set(m, key, v).value;
      && HashMaps.Valid(r.index) && Lists.Valid(r.list)
      && Lists.Size(r.list) == Lists.Size(m.list) + 1 && OrderedMaps.Size(r) == OrderedMaps.Size(m) + 1
      && (Agree(r) <==> !StaleTail(m.list, m.list.origin, m.list.capacity + 1))
      && (Agree(r) ==> Entries(r) == Replaced(Entries(m), key, v))
  {
    hide ListAt, Push, StaleTail, HashMaps.Model, HashMaps.Set, HashMaps.RootWF, Contents, AgreeAt, Live;
    IndexLaw(m, key);
    PushContents(m.list, [Some((key, v))]);
    var r := OrderedMaps.Set(m, key, v).value;
    var c := Contents(m.list);
    ContentsSize(m.list);
    IndexSet(m.index, key, |c|);
    if Contents(r.list) == c + [Some((key, v))] {
      AgreeAppend(HashMaps.Model(m.index), c, key, v);
      ReplacedNew(c, key, v);
      LiveMore(c, (key, v));
    } else {
      PushLast(m.list, Some((key, v)));
      StaleDisagrees(m, key, v, |c|);
    }
  }

  lemma LiveMore<V>(c: seq<Option<Entry<V>>>, e: Entry<V>)
    ensures Live(c + [Some(e)]) == Live(c) + [e]
  {
    LiveConcat(c, [Some(e)]);
    assert Live([Some(e)]) == [e];
  }

  /** A stale leaf shows an entry that the index does not have. */
  lemma StaleDisagrees<V>(m: OrderedMap<V>, key: Key, v: V, n: nat)
    requires Agree(m) && n == |Contents(m.list)| && key !in HashMaps.Model(m.index)
    requires Push(m.list, [Some((key, v))]).Ok?
    requires Contents(Push(m.list, [Some((key, v))]).value) != Contents(m.list) + [Some((key, v))]
    ensures !AgreeAt(HashMaps.Model(m.index)[key := n], Contents(Push(m.list, [Some((key, v))]).value))
  {
    hide ListAt, Push, HashMaps.Model, HashMaps.RootWF;
    var c, c' := Contents(m.list), Contents(Push(m.list, [Some((key, v))]).value);
    PushLast(m.list, Some((key, v)));
    var j :| 0 <= j < |c| && c'[j] != c[j];
    PushDiffers(m.list, Some((key, v)), j);
    AgreeFixes(HashMaps.Model(m.index), c, key, c', j);
  }

  lemma IndexSet(m: HashMaps.HashMap<nat>, key: Key, n: nat)
    requires HashMaps.Valid(m) && key !in HashMaps.Model(m)
    ensures HashMaps.Valid(HashMaps.Set(m, key, n))
    ensures HashMaps.Model(HashMaps.Set(m, key, n)) == HashMaps.Model(m)[key := n]
    ensures HashMaps.Set(m, key, n).size == m.size + 1
  {
    hide HashMaps.Model, HashMaps.UpdateMap;
    HashMaps.UpdateModel(m, key, Some(n));
    HashMaps.SizeModel(m);
    HashMaps.SizeModel(HashMaps.Set(m, key, n));
  }

  lemma PushLast<V>(l: List<V>, v: Option<V>)
    requires Lists.Valid(l) && Push(l, [v]).Ok?
    ensures var c := Contents(Push(l, [v]).value);
      |c| == Lists.Size(l) + 1 && c[|c| - 1] == v
  {
    hide Bounds, Keeps, StaleTail, Contents, SetAll, Lists.Valid;
    RightSize(l, 1);
    var m := Bounds(l, 0, Some(Lists.Size(l) + 1)).value;
    ContentsSize(m);
    SetAllContents(m, Lists.Size(l), [v]);
    LastOf(Contents(m), v);
  }

  lemma LastOf<T>(t: seq<T>, v: T)
    requires t != []
    ensures var n := |t| - 1;
      t[..n] + [v] + t[n + |[v]|..] == t[..n] + [v]
  {
  }

  lemma PushDiffers<V>(l: List<V>, v: Option<V>, j: nat)
    requires Lists.Valid(l) && Push(l, [v]).Ok? && j < Lists.Size(l)
    ensures var c := Contents(Push(l, [v]).value);
      j < |c| && (c[j] == Contents(l)[j] || Contents(l)[j] == None)
  {
    hide Bounds, Keeps, StaleTail, ListAt, SetAll;
    var end := Some(Lists.Size(l) + 1);
    BoundsKeeps(l, 0, end);
    var m := Bounds(l, 0, end).value;
    SetAllContents(m, Lists.Size(l), [v]);
    BoundsDiffer(l, 0, end, l.origin + j);
    var t, n := Contents(m), Lists.Size(l);
    assert (t[..n] + [v] + t[n + 1..])[j] == t[j];
    assert Moved(l, 0, m, l.origin + j) == m.origin + j;
  }

  lemma AgreeAppend<V>(s: map<Key, nat>, c: seq<Option<Entry<V>>>, key: Key, v: V)
    requires AgreeAt(s, c) && key !in s
    ensures AgreeAt(s[key := |c|], c + [Some((key, v))])
  {
  }

  /** Agreement leaves the holes empty. */
  lemma AgreeFixes<V>(s: map<Key, nat>, c: seq<Option<Entry<V>>>, key: Key, d: seq<Option<Entry<V>>>, j: nat)
    requires AgreeAt(s, c) && key !in s && |d| == |c| + 1 && j < |c|
    requires c[j] == None && d[j].Some?
    ensures !AgreeAt(s[key := |c|], d)
  {
    var k := d[j].value.0;
    assert k in s ==> s[k] != j;
  }

  // ----------------------------------------------------------------- remove

  /** Removing a key without compaction: a hole, or a shorter list. */
  lemma RemoveInPlace<V>(m: OrderedMap<V>, key: Key)
    requires Agree(m) && key in HashMaps.Model(m.index)
    requires !(Lists.Size(m.list) >= MIN_COMPACT && Lists.Size(m.list) >= 2 * m.index.size)
    ensures OrderedMaps.Remove(m, key).Ok?
    ensures var r := OrderedMaps.Remove(m, key).value;
      && Agree(r) && Entries(r) == Deleted(Entries(m), key)
      && OrderedMaps.Size(r) == OrderedMaps.Size(m) - 1
      && Lists.Size(r.list) <= Lists.Size(m.list)
  {
    hide ListAt, ListOps.Set, Pop, HashMaps.Model, HashMaps.UpdateMap, HashMaps.RootWF;
    hide Contents, AgreeAt, Live, FirstAt, Deleted;
    IndexLaw(m, key);
    var c, s := Contents(m.list), HashMaps.Model(m.index);
    var u := HashMaps.Get(m.index, key).value;
    ContentsSize(m.list);
    IndexRemove(m.index, key);
    if u == |c| - 1 {
      PopContents(m.list);
      ContentsSize(Pop(m.list).value);
      LiveDeleteLast(c, key);
      AgreePop(s, c, key);
    } else {
      SetContents(m.list, u, None);
      ContentsSize(ListOps.Set(m.list, u, None));
      LiveDelete(c, key, u);
      AgreeHole(s, c, key);
    }
  }

  lemma LiveDeleteLast<V>(c: seq<Option<Entry<V>>>, key: Key)
    requires c != [] && FirstAt(c, key, |c| - 1)
    ensures Live(c[..|c| - 1]) == Deleted(Live(c), key)
  {
    var u := |c| - 1;
    LiveDelete(c, key, u);
    assert c[u := None] == c[..u] + [None];
    LiveConcat(c[..u], [None]);
  }

  lemma IndexRemove(m: HashMaps.HashMap<nat>, key: Key)
    requires HashMaps.Valid(m) && key in HashMaps.Model(m)
    ensures HashMaps.Valid(HashMaps.Remove(m, key))
    ensures HashMaps.Model(HashMaps.Remove(m, key)) == HashMaps.Model(m) - {key}
    ensures HashMaps.Remove(m, key).size == m.size - 1
  {
    hide HashMaps.Model, HashMaps.UpdateMap;
    HashMaps.UpdateModel(m, key, None);
    HashMaps.SizeModel(m);
    HashMaps.SizeModel(HashMaps.Remove(m, key));
    assert (HashMaps.Model(m) - {key}).Keys == HashMaps.Model(m).Keys - {key};
  }

  lemma AgreePop<V>(s: map<Key, nat>, c: seq<Option<Entry<V>>>, key: Key)
    requires AgreeAt(s, c) && key in s && s[key] == |c| - 1
    ensures AgreeAt(s - {key}, c[..|c| - 1])
  {
  }

  lemma AgreeHole<V>(s: map<Key, nat>, c: seq<Option<Entry<V>>>, key: Key)
    requires AgreeAt(s, c) && key in s
    ensures AgreeAt(s - {key}, c[s[key] := None])
  {
  }

  /** Removing a key by rebuilding both parts leaves no hole. */
  lemma RemoveCompact<V>(m: OrderedMap<V>, key: Key)
    requires Agree(m) && key in HashMaps.Model(m.index)
    requires Lists.Size(m.list) >= MIN_COMPACT && Lists.Size(m.list) >= 2 * m.index.size
    ensures OrderedMaps.Remove(m, key).Ok?
    ensures var r := OrderedMaps.Remove(m, key).value;
      && Agree(r) && Entries(r) == Deleted(Entries(m), key)
      && OrderedMaps.Size(r) == Lists.Size(r.list)
  {
    hide ListAt, Collect, HashMaps.Model, IndexOf, Kept, HashMaps.RootWF, Distinct, Contents, Live, Deleted, AgreeAt;
    IndexLaw(m, key);
    var u := HashMaps.Get(m.index, key).value;
    ContentsSize(m.list);
    KeptEntries(m, key, u);
    KeptFits(m.list, u, 0);
    Rebuilt(Kept(m.list, u, 0));
  }

  lemma {:induction false} KeptFits<V>(l: List<Entry<V>>, u: nat, i: nat)
    requires Lists.Valid(l) && i <= Lists.Size(l)
    ensures |Kept(l, u, i)| <= Lists.Size(l) - i <= 0x4000_0000
    decreases Lists.Size(l) - i
  {
    hide ListAt, Lists.Valid;
    SmallCapacity(l);
    if i < Lists.Size(l) {
      KeptFits(l, u, i + 1);
    }
  }

  /** `remove` never raises the range error, not even when it compacts. */
  lemma RemoveOk<V>(m: OrderedMap<V>, key: Key)
    requires Agree(m)
    ensures OrderedMaps.Remove(m, key).Ok?
  {
    hide ListAt, OrderedMaps.Remove, HashMaps.Model;
    if key !in HashMaps.Model(m.index) {
      RemoveMissing(m, key);
    } else if Lists.Size(m.list) >= MIN_COMPACT && Lists.Size(m.list) >= 2 * m.index.size {
      RemoveCompact(m, key);
    } else {
      RemoveInPlace(m, key);
    }
  }

  /** What compaction keeps: the entries without the removed one. */
  lemma KeptEntries<V>(m: OrderedMap<V>, key: Key, u: nat)
    requires Agree(m) && key in HashMaps.Model(m.index) && HashMaps.Model(m.index)[key] == u
    requires u < Lists.Size(m.list) && FirstAt(Contents(m.list), key, u)
    ensures Kept(m.list, u, 0) == Deleted(Entries(m), key) && Distinct(Kept(m.list, u, 0))
  {
    hide ListAt, HashMaps.Model, Kept;
    var c, s := Contents(m.list), HashMaps.Model(m.index);
    KeptIsLive(m.list, u, 0);
    assert c[u := None][0..] == c[u := None];
    LiveDelete(c, key, u);
    AgreeHole(s, c, key);
    LiveDistinct(s - {key}, c[u := None]);
  }

  /** Both parts rebuilt from a sequence of entries agree and have no hole. */
  lemma Rebuilt<V>(es: seq<Entry<V>>)
    requires Distinct(es) && |es| <= 0x4000_0000
    ensures Collect(Empty(), es).Ok?
    ensures var r := OrderedMap(IndexOf(HashMaps.EmptyMap(), es, 0), Collect(Empty(), es).value);
      Agree(r) && Entries(r) == es && OrderedMaps.Size(r) == Lists.Size(r.list)
  {
    hide Collect, HashMaps.Model, HashMaps.Valid, IndexOf, Contents, Lists.Valid, Shows, AgreeAt, Distinct;
    RebuiltList(es);
    RebuiltIndex(es);
    LiveDefined(es);
  }

  lemma RebuiltList<V>(es: seq<Entry<V>>)
    requires |es| <= 0x4000_0000
    ensures Collect(Empty(), es).Ok?
    ensures var l := Collect(Empty(), es).value;
      Lists.Valid(l) && l.origin <= l.capacity && Contents(l) == Defined(es) && Lists.Size(l) == |es|
  {
    hide ListAt, Collect, Lists.Valid;
    ShowsNothing<Entry<V>>();
    CollectShows(Empty(), [], es);
    assert [] + es == es;
    var l := Collect(Empty(), es).value;
    ShowsSize(l, es);
  }

  lemma ShowsNothing<V>()
    ensures Shows(Empty<V>(), [])
  {
    assert Contents(Empty<V>()) == Defined<V>([]);
  }

  lemma ShowsSize<V>(l: List<V>, s: seq<V>)
    requires Shows(l, s)
    ensures l.origin <= l.capacity && Lists.Size(l) == |s|
  {
    hide TailOffset, ListAt;
    assert |Contents(l)| == |Defined(s)|;
  }

  lemma RebuiltIndex<V>(es: seq<Entry<V>>)
    requires Distinct(es)
    ensures var m := IndexOf(HashMaps.EmptyMap(), es, 0);
      HashMaps.Valid(m) && m.size == |es| && HashMaps.RootWF(m.root) && AgreeAt(HashMaps.Model(m), Defined(es))
  {
    hide HashMaps.Model, IndexOf;
    EmptyIndex();
    assert [] + es == es;
    IndexOfLaw(HashMaps.EmptyMap(), es, [], 0);
    var index := IndexOf(HashMaps.EmptyMap(), es, 0);
    HashMaps.SizeModel(index);
    AgreeSize(HashMaps.Model(index), es);
  }

  lemma EmptyIndex()
    ensures HashMaps.Valid(HashMaps.EmptyMap<nat>()) && HashMaps.Model(HashMaps.EmptyMap<nat>()) == map[]
  {
  }

  lemma {:induction false} KeptIsLive<V>(l: List<Entry<V>>, u: nat, i: nat)
    requires Lists.Valid(l) && u < Lists.Size(l) && i <= Lists.Size(l)
    ensures Kept(l, u, i) == Live(Contents(l)[u := None][i..])
    decreases Lists.Size(l) - i
  {
    hide ListAt, Lists.Valid;
    if i < Lists.Size(l) {
      var d := Contents(l)[u := None];
      assert d[i..][1..] == d[i + 1..] && d[i..][0] == d[i];
      assert Lists.Get(l, i) == Contents(l)[i];
      KeptIsLive(l, u, i + 1);
    }
  }

  /** The list shows exactly the defined values `s`. */
  ghost predicate Shows<V>(l: List<V>, s: seq<V>) {
    Lists.Valid(l) && Contents(l) == Defined(s)
  }

  lemma {:induction false} CollectShows<V>(l: List<Entry<V>>, s: seq<Entry<V>>, es: seq<Entry<V>>)
    requires Shows(l, s) && l.origin == 0 && |s| + |es| <= 0x4000_0000
    ensures Collect(l, es).Ok? && Shows(Collect(l, es).value, s + es)
    decreases |es|
  {
    hide ListAt, Push, StaleTail;
    if es != [] {
      DefinedNotStale(l, l.capacity + 1);
      PushOk(l, [Some(es[0])]);
      PushFromZero(l, [Some(es[0])]);
      PushContents(l, [Some(es[0])]);
      assert Defined(s + [es[0]]) == Defined(s) + [Some(es[0])];
      CollectShows(Push(l, [Some(es[0])]).value, s + [es[0]], es[1..]);
      assert s + [es[0]] + es[1..] == s + es;
    } else {
      assert s + es == s;
    }
  }

  /** Keys of a list that agrees with an index are distinct. */
  lemma {:induction false} LiveDistinct<V>(s: map<Key, nat>, c: seq<Option<Entry<V>>>)
    requires AgreeAt(s, c)
    ensures Distinct(Live(c))
  {
    LiveDistinctFrom(c);
  }

  lemma {:induction false} LiveDistinctFrom<V>(c: seq<Option<Entry<V>>>)
    requires forall i, j :: 0 <= i < j < |c| && c[i].Some? && c[j].Some? ==> c[i].value.0 != c[j].value.0
    ensures Distinct(Live(c))
  {
    if c != [] {
      LiveDistinctFrom(c[1..]);
      if c[0].Some? {
        forall i | 0 <= i < |Live(c[1..])|
          ensures Live(c[1..])[i].0 != c[0].value.0
        {
          var j := LiveFrom(c[1..], i);
          assert c[1..][j] == c[j + 1];
        }
      }
    }
  }

  lemma {:induction false} LiveFrom<V>(c: seq<Option<Entry<V>>>, i: nat) returns (j: nat)
    requires i < |Live(c)|
    ensures j < |c| && c[j] == Some(Live(c)[i])
  {
    if c[0].Some? && i == 0 {
      j := 0;
    } else {
      j := LiveFrom(c[1..], if c[0].Some? then i - 1 else i);
      j := j + 1;
    }
  }

  lemma {:induction false} LiveDefined<V>(es: seq<Entry<V>>)
    ensures Live(Defined(es)) == es
  {
    if es != [] {
      assert Defined(es)[1..] == Defined(es[1..]);
      LiveDefined(es[1..]);
    }
  }

  /** `flip().toMap()` gives every key the place of its entry. */
  lemma {:induction false} IndexOfLaw<V>(m: HashMaps.HashMap<nat>, es: seq<Entry<V>>, done: seq<Entry<V>>, i: nat)
    requires HashMaps.Valid(m) && i == |done| && Distinct(done + es)
    requires AgreeAt(HashMaps.Model(m), Defined(done))
    ensures HashMaps.Valid(IndexOf(m, es, i))
    ensures AgreeAt(HashMaps.Model(IndexOf(m, es, i)), Defined(done + es))
    decreases |es|
  {
    hide HashMaps.Model, HashMaps.UpdateMap;
    if es != [] {
      var key := es[0].0;
      NotIndexed(HashMaps.Model(m), done, es);
      IndexSet(m, key, i);
      AgreeAppend(HashMaps.Model(m), Defined(done), key, es[0].1);
      assert Defined(done + [es[0]]) == Defined(done) + [Some((key, es[0].1))];
      assert done + [es[0]] + es[1..] == done + es;
      IndexOfLaw(HashMaps.Set(m, key, i), es[1..], done + [es[0]], i + 1);
    } else {
      assert done + es == done;
    }
  }

  lemma NotIndexed<V>(s: map<Key, nat>, done: seq<Entry<V>>, es: seq<Entry<V>>)
    requires AgreeAt(s, Defined(done)) && Distinct(done + es) && es != []
    ensures es[0].0 !in s
  {
    assert (done + es)[|done|] == es[0];
    assert forall k :: k in s ==> (done + es)[s[k]].0 == k;
  }

  /** An index that agrees with a list without holes is as large as the list. */
  lemma {:induction false} AgreeSize<V>(s: map<Key, nat>, es: seq<Entry<V>>)
    requires AgreeAt(s, Defined(es))
    ensures |s| == |es|
  {
    if es == [] {
      assert s == map[];
    } else {
      var last := es[|es| - 1].0;
      assert Defined(es)[|es| - 1] == Some(es[|es| - 1]);
      AgreePop(s, Defined(es), last);
      assert Defined(es)[..|es| - 1] == Defined(es[..|es| - 1]);
      AgreeSize(s - {last}, es[..|es| - 1]);
      assert (s - {last}).Keys == s.Keys - {last};
    }
  }

  // ------------------------------------------------------------------- runs

  datatype Op<V> = SetOp(key: Key, v: V) | RemoveOp(key: Key)

  /** `set` of a new key, which is a push. */
  predicate Adds<V>(m: OrderedMap<V>, op: Op<V>) {
    op.SetOp? && HashMaps.Get(m.index, op.key).None?
  }

  /** No range error: no new key when the list ends at 2^30. */
  predicate Bounded<V>(m: OrderedMap<V>, op: Op<V>) {
    Adds(m, op) ==> m.list.capacity < 0x4000_0000
  }

  function Apply<V(==)>(m: OrderedMap<V>, op: Op<V>): (r: Result<OrderedMap<V>, Error>)
    requires Agree(m)
    ensures r.Ok? <==> Bounded(m, op)
  {
    hide OrderedMaps.Set, OrderedMaps.Remove, Agree, HashMaps.Get;
    match op
    case SetOp(key, v) =>
      SetOk(m, key, v);
      OrderedMaps.Set(m, key, v)
    case RemoveOp(key) =>
      RemoveOk(m, key);
      OrderedMaps.Remove(m, key)
  }

  function ApplyEntries<V>(s: seq<Entry<V>>, op: Op<V>): seq<Entry<V>> {
    match op
    case SetOp(key, v) => Replaced(s, key, v)
    case RemoveOp(key) => Deleted(s, key)
  }

  /** And none while the list hides a stale leaf. */
  ghost predicate Safe<V>(m: OrderedMap<V>, op: Op<V>) {
    Bounded(m, op) && (Adds(m, op) ==> !StaleTail(m.list, m.list.origin, m.list.capacity + 1))
  }

  function Holes<V>(m: OrderedMap<V>): int {
    Lists.Size(m.list) - OrderedMaps.Size(m)
  }

  ghost predicate FewHoles<V>(m: OrderedMap<V>) {
    Holes(m) <= 31 || Holes(m) <= OrderedMaps.Size(m) + 1
  }

  lemma {:induction false} DeletedMissing<V>(s: seq<Entry<V>>, key: Key)
    requires forall i :: 0 <= i < |s| ==> s[i].0 != key
    ensures Deleted(s, key) == s
  {
    if s != [] { DeletedMissing(s[1..], key); }
  }

  /** One call that stays within bounds keeps the two parts in agreement exactly when
    * it is safe, and then the order of insertion and the bound on holes. */
  lemma StepLaw<V>(m: OrderedMap<V>, op: Op<V>)
    requires Agree(m) && FewHoles(m)
    ensures Bounded(m, op) ==>
      var r := Apply(m, op).value;
      && (Agree(r) <==> Safe(m, op))
      && (Agree(r) ==> Entries(r) == ApplyEntries(Entries(m), op) && FewHoles(r))
  {
    hide ListAt, HashMaps.Model, OrderedMaps.Set, OrderedMaps.Remove, StaleTail, HashMaps.Get;
    IndexLaw(m, op.key);
    match op
    case SetOp(key, v) =>
      if key in HashMaps.Model(m.index) {
        SetLive(m, key, v);
      } else if Bounded(m, op) {
        SetOk(m, key, v);
        SetNew(m, key, v);
      }
    case RemoveOp(key) =>
      if key !in HashMaps.Model(m.index) {
        RemoveMissing(m, key);
      } else if Lists.Size(m.list) >= MIN_COMPACT && Lists.Size(m.list) >= 2 * m.index.size {
        RemoveCompact(m, key);
      } else {
        RemoveInPlace(m, key);
      }
  }

  lemma RemoveMissing<V>(m: OrderedMap<V>, key: Key)
    requires Agree(m) && key !in HashMaps.Model(m.index)
    ensures OrderedMaps.Remove(m, key) == Ok(m) && Deleted(Entries(m), key) == Entries(m)
  {
    hide ListAt, HashMaps.Model;
    IndexLaw(m, key);
    var c := Contents(m.list);
    forall i | 0 <= i < |Live(c)|
      ensures Live(c)[i].0 != key
    {
      var j := LiveFrom(c, i);
      assert !KeyAt(c, key, j);
    }
    DeletedMissing(Live(c), key);
  }

  ghost function Run<V>(m: OrderedMap<V>, ops: seq<Op<V>>): Option<OrderedMap<V>>
    requires Agree(m) && FewHoles(m)
    decreases |ops|
  {
    if ops == [] then Some(m)
    else if !Safe(m, ops[0]) then None
    else
      StepLaw(m, ops[0]);
      Run(Apply(m, ops[0]).value, ops[1..])
  }

  ghost function RunEntries<V>(s: seq<Entry<V>>, ops: seq<Op<V>>): seq<Entry<V>>
    decreases |ops|
  {
    if ops == [] then s else RunEntries(ApplyEntries(s, ops[0]), ops[1..])
  }

  /** Every run of sets and removes iterates in insertion order, with its two parts
    * in agreement and few holes. */
  lemma {:induction false} RunLaw<V>(m: OrderedMap<V>, ops: seq<Op<V>>)
    requires Agree(m) && FewHoles(m) && Run(m, ops).Some?
    ensures var r := Run(m, ops).value;
      Agree(r) && FewHoles(r) && Entries(r) == RunEntries(Entries(m), ops)
    decreases |ops|
  {
    hide Apply, ApplyEntries, Agree, FewHoles, Contents;
    if ops != [] {
      StepLaw(m, ops[0]);
      RunLaw(Apply(m, ops[0]).value, ops[1..]);
    }
  }

  /** What `get` returns is what iteration shows. */
  lemma GetEntry<V>(m: OrderedMap<V>, key: Key, v: V)
    requires Agree(m)
    ensures OrderedMaps.Get(m, key) == Some(v) <==> (key, v) in Entries(m)
  {
    hide ListAt, HashMaps.Model, HashMaps.Get, Lists.Get;
    IndexLaw(m, key);
    var c := Contents(m.list);
    if OrderedMaps.Get(m, key) == Some(v) {
      LiveHas(c, HashMaps.Get(m.index, key).value);
    }
    if (key, v) in Live(c) {
      var i :| 0 <= i < |Live(c)| && Live(c)[i] == (key, v);
      var j := LiveFrom(c, i);
      assert KeyAt(c, key, j);
    }
  }

  lemma {:induction false} LiveHas<V>(c: seq<Option<Entry<V>>>, i: nat)
    requires i < |c| && c[i].Some?
    ensures c[i].value in Live(c)
  {
    if i > 0 { LiveHas(c[1..], i - 1); }
  }
}
