/** `Map`: the hash trie with its root and its size, against a finite map. */
module HashMaps {
  import opened Wrappers
  import opened Radix32
  import opened Bitmaps
  import opened TrieNodes
  import opened TrieShapes
  import opened TrieLaws
  import opened TrieUpdate

  /** The root is absent, an `ArrayMapNode`, or a node of the trie. */
  datatype Root<V> = Absent | ArrayMap(entries: seq<(Key, V)>) | Trie(node: Node<V>)

  datatype HashMap<V> = HashMap(size: int, root: Root<V>)

  datatype RootUpd<V> = RootSame | RootNew(root: Root<V>, resized: bool)

  const MAX_ARRAY_MAP: nat := 8

  function EmptyMap<V>(): HashMap<V> {
    HashMap(0, Absent)
  }

  function RootGet<V>(r: Root<V>, key: Key): Option<V> {
    match r
    case Absent => None
    case ArrayMap(es) => Lookup(es, key)
    case Trie(n) => TrieNodes.Get(n, 0, key)
  }

  ghost predicate RootWF<V>(r: Root<V>) {
    match r
    case Absent => true
    case ArrayMap(es) => 1 <= |es| <= MAX_ARRAY_MAP && Distinct(es)
    case Trie(n) => WF(n, [])
  }

  /** The loop of `createNodes` over the old entries. */
  function AddEntries<V(==)>(n: Node<V>, es: seq<(Key, V)>): (r: Node<V>)
    requires WF(n, [])
    ensures WF(r, [])
    decreases |es|
  {
    if es == [] then n
    else
      UpdateLaw(n, [], es[0].0, Some(es[0].1), es[0].0);
      AddEntries(After(n, Update(n, [], es[0].0, Some(es[0].1))).value, es[1..])
  }

  /** `createNodes` */
  function CreateNodes<V(==)>(es: seq<(Key, V)>, key: Key, v: V): Node<V> {
    AddEntries(Value(key.hash, (key, v)), es)
  }

  /** `update` at the root, with `ArrayMapNode.update`. */
  function UpdateRoot<V(==)>(r: Root<V>, key: Key, v: Option<V>): RootUpd<V>
    requires RootWF(r)
  {
    match r
    case Absent => if v.None? then RootSame else RootNew(ArrayMap([(key, v.value)]), true)
    case ArrayMap(es) =>
      var i := Find(es, key);
      if (if i < |es| then v == Some(es[i].1) else v.None?) then RootSame
      else if v.None? && |es| == 1 then RootNew(Absent, true)
      else if i == |es| && v.Some? && |es| >= MAX_ARRAY_MAP then RootNew(Trie(CreateNodes(es, key, v.value)), true)
      else RootNew(ArrayMap(EditEntries(es, key, v)), v.None? || i == |es|)
    case Trie(n) =>
      var u := Update(n, [], key, v);
      if u.Same? then RootSame
      else RootNew(if u.node.Some? then Trie(u.node.value) else Absent, u.resized)
  }

  /** `updateMap` */
  function UpdateMap<V(==)>(m: HashMap<V>, key: Key, v: Option<V>): HashMap<V>
    requires RootWF(m.root)
  {
    var u := UpdateRoot(m.root, key, v);
    if u.RootSame? then m
    else
      var size := m.size + if u.resized then (if v.None? then -1 else 1) else 0;
      if u.root.Absent? then EmptyMap() else HashMap(if m.root.Absent? then 1 else size, u.root)
  }

  function Set<V(==)>(m: HashMap<V>, key: Key, v: V): HashMap<V>
    requires RootWF(m.root)
  {
    UpdateMap(m, key, Some(v))
  }

  function Remove<V(==)>(m: HashMap<V>, key: Key): HashMap<V>
    requires RootWF(m.root)
  {
    UpdateMap(m, key, None)
  }

  function Get<V>(m: HashMap<V>, key: Key): Option<V> {
    RootGet(m.root, key)
  }

  // ------------------------------------------------------------------- keys

  /** All keys below a node, wherever they are. */
  ghost function KeysOf<V>(n: Node<V>): set<Key>
    decreases n
  {
    match n
    case Value(_, e) => {e.0}
    case Collision(_, es) => set i | 0 <= i < |es| :: es[i].0
    case Bitmap(_, kids) => set i, k | 0 <= i < |kids| && k in KeysOf(kids[i]) :: k
    case HashArray(_, slots) => set i, k | 0 <= i < |slots| && slots[i].Some? && k in KeysOf(slots[i].value) :: k
  }

  ghost function RootKeys<V>(r: Root<V>): set<Key> {
    match r
    case Absent => {}
    case ArrayMap(es) => set i | 0 <= i < |es| :: es[i].0
    case Trie(n) => KeysOf(n)
  }

  /** The keys stored below a node are those `get` finds by their hash. */
  lemma {:induction false} KeysLaw<V>(n: Node<V>, path: seq<nat>, key: Key)
    requires WF(n, path)
    ensures key in KeysOf(n) <==> OnPath(key.hash, path) && TrieNodes.Get(n, |path|, key).Some?
    decreases n
  {
    match n
    case Value(_, e) =>
    case Collision(_, es) => FindIn(es, key);
    case Bitmap(b, kids) => BitmapKeys(b, kids, path, key);
    case HashArray(c, slots) => HashArrayKeys(c, slots, path, key);
  }

  lemma FindIn<V>(es: seq<(Key, V)>, key: Key)
    ensures key in (set i | 0 <= i < |es| :: es[i].0) <==> Find(es, key) < |es|
  {
    if Find(es, key) < |es| {
      assert es[Find(es, key)].0 == key;
    }
  }

  lemma {:induction false} BitmapKeys<V>(b: nat, kids: seq<Node<V>>, path: seq<nat>, key: Key)
    requires WF(Bitmap(b, kids), path)
    ensures key in KeysOf(Bitmap(b, kids)) <==>
      OnPath(key.hash, path) && TrieNodes.Get(Bitmap(b, kids), |path|, key).Some?
    decreases Bitmap(b, kids), 0
  {
    hide Rank, Has;
    var d := Digit(key.hash, |path|);
    if key in KeysOf(Bitmap(b, kids)) {
      var i :| 0 <= i < |kids| && key in KeysOf(kids[i]);
      var s := SlotOf(b, 32, i);
      KeysLaw(kids[i], path + [s], key);
      OnPathDown(key.hash, path, s);
    }
    if OnPath(key.hash, path) && TrieNodes.Get(Bitmap(b, kids), |path|, key).Some? {
      StepOn(key.hash, path);
      KeysLaw(kids[Rank(b, d)], path + [d], key);
    }
  }

  lemma OnPathDown(h: nat, path: seq<nat>, s: nat)
    requires OnPath(h, path + [s])
    ensures OnPath(h, path) && Digit(h, |path|) == s
  {
    assert forall j :: 0 <= j < |path| ==> (path + [s])[j] == path[j];
    assert (path + [s])[|path|] == s;
  }

  lemma {:induction false} HashArrayKeys<V>(c: nat, slots: seq<Option<Node<V>>>, path: seq<nat>, key: Key)
    requires WF(HashArray(c, slots), path)
    ensures key in KeysOf(HashArray(c, slots)) <==>
      OnPath(key.hash, path) && TrieNodes.Get(HashArray(c, slots), |path|, key).Some?
    decreases HashArray(c, slots), 0
  {
    hide CountSome, Shr, OnPath;
    var d := Digit(key.hash, |path|);
    if key in KeysOf(HashArray(c, slots)) {
      var i :| 0 <= i < |slots| && slots[i].Some? && key in KeysOf(slots[i].value);
      KeysLaw(slots[i].value, path + [i], key);
      OnPathDown(key.hash, path, i);
    }
    if OnPath(key.hash, path) && TrieNodes.Get(HashArray(c, slots), |path|, key).Some? {
      StepOn(key.hash, path);
      KeysLaw(slots[d].value, path + [d], key);
    }
  }

  lemma RootKeysLaw<V>(r: Root<V>, key: Key)
    requires RootWF(r)
    ensures key in RootKeys(r) <==> RootGet(r, key).Some?
  {
    match r
    case Absent =>
    case ArrayMap(es) => FindIn(es, key);
    case Trie(n) => KeysLaw(n, [], key);
  }

  // -------------------------------------------------------------- updateMap

  lemma {:induction false} AddEntriesLaw<V>(n: Node<V>, es: seq<(Key, V)>, other: Key)
    requires WF(n, []) && Distinct(es)
    ensures TrieNodes.Get(AddEntries(n, es), 0, other)
         == if Lookup(es, other).Some? then Lookup(es, other) else TrieNodes.Get(n, 0, other)
    decreases |es|
  {
    hide WF, Update, TrieNodes.Get;
    if es != [] {
      UpdateLaw(n, [], es[0].0, Some(es[0].1), es[0].0);
      UpdateLaw(n, [], es[0].0, Some(es[0].1), other);
      var m := After(n, Update(n, [], es[0].0, Some(es[0].1))).value;
      AddEntriesLaw(m, es[1..], other);
      if other == es[0].0 {
        LookupMiss(es[1..], other);
      }
    }
  }

  /** The law of `update` at the root. */
  lemma RootLaw<V>(r: Root<V>, key: Key, v: Option<V>, other: Key)
    requires RootWF(r)
    ensures var u := UpdateRoot(r, key, v);
      var after := if u.RootSame? then r else u.root;
      && RootWF(after)
      && RootGet(after, other) == (if other == key then v else RootGet(r, other))
      && (u.RootSame? <==> v == RootGet(r, key))
      && (u.RootNew? ==> (u.resized <==> v.Some? != RootGet(r, key).Some?))
  {
    match r
    case Absent =>
    case ArrayMap(es) => ArrayMapLaw(es, key, v, other);
    case Trie(n) => UpdateLaw(n, [], key, v, other);
  }

  lemma ArrayMapLaw<V>(es: seq<(Key, V)>, key: Key, v: Option<V>, other: Key)
    requires RootWF(ArrayMap(es))
    ensures var u := UpdateRoot(ArrayMap(es), key, v);
      var after := if u.RootSame? then ArrayMap(es) else u.root;
      && RootWF(after)
      && RootGet(after, other) == (if other == key then v else Lookup(es, other))
      && (u.RootSame? <==> v == Lookup(es, key))
      && (u.RootNew? ==> (u.resized <==> v.Some? != Lookup(es, key).Some?))
  {
    var i := Find(es, key);
    if v.None? && |es| == 1 {
      if other != key && i == 0 { LookupMiss(es, other); }
    } else if i == |es| && v.Some? && |es| >= MAX_ARRAY_MAP {
      AddEntriesLaw(Value(key.hash, (key, v.value)), es, other);
    } else {
      EditLaw(es, key, v, other);
    }
  }

  /** What every operation keeps: the shape of the trie and an exact `size`. */
  ghost predicate Valid<V>(m: HashMap<V>) {
    RootWF(m.root) && m.size == |RootKeys(m.root)| && (m.size == 0 ==> m.root == Absent)
  }

  /** The finite map a hash map stands for. */
  ghost function Model<V>(m: HashMap<V>): map<Key, V>
    requires RootWF(m.root)
  {
    map k | k in RootKeys(m.root) :: (RootKeysLaw(m.root, k); RootGet(m.root, k).value)
  }

  lemma GetModel<V>(m: HashMap<V>, key: Key)
    requires RootWF(m.root)
    ensures Get(m, key) == if key in Model(m) then Some(Model(m)[key]) else None
  {
    RootKeysLaw(m.root, key);
  }

  lemma SizeModel<V>(m: HashMap<V>)
    requires Valid(m)
    ensures m.size == |Model(m)|
  {
    assert Model(m).Keys == RootKeys(m.root);
  }

  /** The key sets before and after an update. */
  lemma UpdateKeys<V>(r: Root<V>, key: Key, v: Option<V>)
    requires RootWF(r)
    ensures var u := UpdateRoot(r, key, v);
      var after := if u.RootSame? then r else u.root;
      && RootWF(after)
      && RootKeys(after) == if v.Some? then RootKeys(r) + {key} else RootKeys(r) - {key}
  {
    hide UpdateRoot, RootGet, RootKeys;
    var u := UpdateRoot(r, key, v);
    var after := if u.RootSame? then r else u.root;
    RootLaw(r, key, v, key);
    forall k
      ensures k in RootKeys(after) <==> k in (if v.Some? then RootKeys(r) + {key} else RootKeys(r) - {key})
    {
      RootLaw(r, key, v, k);
      RootKeysLaw(r, k);
      RootKeysLaw(after, k);
    }
  }

  lemma NotEmpty<V>(r: Root<V>)
    requires RootWF(r) && r != Absent
    ensures RootKeys(r) != {}
  {
    match r
    case ArrayMap(es) => assert es[0].0 in RootKeys(r);
    case Trie(n) => var k := SomeKey(n, []);
  }

  lemma {:induction false} SomeKey<V>(n: Node<V>, path: seq<nat>) returns (k: Key)
    requires WF(n, path)
    ensures k in KeysOf(n)
    decreases n
  {
    match n
    case Value(_, e) => k := e.0;
    case Collision(_, es) => k := es[0].0; assert es[0].0 in KeysOf(n);
    case Bitmap(b, kids) =>
      var s := SlotOf(b, 32, 0);
      k := SomeKey(kids[0], path + [s]);
    case HashArray(_, slots) =>
      var i := SomeSlot(slots);
      k := SomeKey(slots[i].value, path + [i]);
  }

  lemma {:induction false} SomeSlot<V>(slots: seq<Option<Node<V>>>) returns (i: nat)
    requires CountSome(slots) > 0
    ensures i < |slots| && slots[i].Some?
  {
    if slots[0].Some? { i := 0; } else { i := SomeSlot(slots[1..]); i := i + 1; }
  }

  /** `updateMap` is the update of a finite map, `size` included, through every
    * change of representation. */
  lemma UpdateModel<V>(m: HashMap<V>, key: Key, v: Option<V>)
    requires Valid(m)
    ensures Valid(UpdateMap(m, key, v))
    ensures Model(UpdateMap(m, key, v)) == if v.Some? then Model(m)[key := v.value] else Model(m) - {key}
  {
    hide UpdateRoot, RootGet, RootKeys, RootWF;
    var r := UpdateMap(m, key, v);
    var u := UpdateRoot(m.root, key, v);
    var after := if u.RootSame? then m.root else u.root;
    RootLaw(m.root, key, v, key);
    UpdateKeys(m.root, key, v);
    RootKeysLaw(m.root, key);
    EmptyKeys<V>();
    if after != Absent { NotEmpty(after); }
    assert r.root == after && r.size == |RootKeys(after)| by {
      if key in RootKeys(m.root) {
        assert RootKeys(m.root) + {key} == RootKeys(m.root);
      } else {
        assert RootKeys(m.root) - {key} == RootKeys(m.root);
      }
    }
    forall k | k in RootKeys(after)
      ensures RootGet(after, k) == if k == key then v else RootGet(m.root, k)
    {
      RootLaw(m.root, key, v, k);
    }
  }

  lemma EmptyKeys<V>()
    ensures RootKeys<V>(Absent) == {} && RootWF<V>(Absent)
  {
  }

  // -------------------------------------------------------------------- runs

  datatype Op<V> = OpSet(key: Key, v: V) | OpRemove(key: Key)

  function Run<V(==)>(m: HashMap<V>, ops: seq<Op<V>>): HashMap<V>
    requires RootWF(m.root)
    decreases |ops|
  {
    if ops == [] then m
    else
      var v := if ops[0].OpSet? then Some(ops[0].v) else None;
      UpdateKeys(m.root, ops[0].key, v);
      Run(UpdateMap(m, ops[0].key, v), ops[1..])
  }

  function RunModel<V>(s: map<Key, V>, ops: seq<Op<V>>): map<Key, V>
    decreases |ops|
  {
    if ops == [] then s
    else RunModel(match ops[0] case OpSet(k, v) => s[k := v] case OpRemove(k) => s - {k}, ops[1..])
  }

  /** Every run of sets and removes refines the same run on a finite map. */
  lemma {:induction false} RunRefines<V>(m: HashMap<V>, ops: seq<Op<V>>)
    requires Valid(m)
    ensures Valid(Run(m, ops)) && Model(Run(m, ops)) == RunModel(Model(m), ops)
    decreases |ops|
  {
    hide UpdateMap, Model, RootWF;
    if ops != [] {
      var v := if ops[0].OpSet? then Some(ops[0].v) else None;
      UpdateModel(m, ops[0].key, v);
      RunRefines(UpdateMap(m, ops[0].key, v), ops[1..]);
    }
  }

  /** From the empty map: `get` is the last value set, `size` counts the keys. */
  lemma RunFromEmpty<V>(ops: seq<Op<V>>, key: Key)
    ensures var s := RunModel(map[], ops);
      && Get(Run(EmptyMap<V>(), ops), key) == (if key in s then Some(s[key]) else None)
      && Run(EmptyMap<V>(), ops).size == |s|
  {
    hide Run, RunModel;
    assert Model(EmptyMap<V>()) == map[];
    RunRefines(EmptyMap<V>(), ops);
    GetModel(Run(EmptyMap<V>(), ops), key);
    SizeModel(Run(EmptyMap<V>(), ops));
  }
}
