/** `Map` objects over node objects: a mutable copy edits in place for its own
  * owner, and the map it was made from never changes. */
module OwnedMaps {
  import opened Wrappers
  import opened TrieNodes
  import opened TrieUpdate
  import opened HashMaps
  import opened OwnedNodes
  import opened OwnedTries

  class ArrayMapNode<V(==)> {
    const ownerID: OwnerID?
    var entries: seq<(Key, V)>

    constructor (ownerID: OwnerID?, entries: seq<(Key, V)>)
      ensures this.ownerID == ownerID && this.entries == entries
    {
      this.ownerID, this.entries := ownerID, entries;
    }
  }

  datatype RootRef<V> = NoRoot | ArrayRoot(arrayMap: ArrayMapNode<V>) | TrieRoot(node: TNode<V>)

  /** Keys with pairwise different hashes. */
  ghost predicate Apart(keys: set<Key>) {
    forall a, b :: a in keys && b in keys && a.hash == b.hash ==> a == b
  }

  ghost function RootNodes<V>(r: RootRef<V>): set<object>
    reads if r.TrieRoot? then {r.node} else {}
  {
    match r
    case NoRoot => {}
    case ArrayRoot(a) => {a}
    case TrieRoot(n) => n.repr + {n}
  }

  ghost function RootView<V>(r: RootRef<V>): Root<V>
    reads RootNodes(r)
  {
    match r
    case NoRoot => Absent
    case ArrayRoot(a) => ArrayMap(a.entries)
    case TrieRoot(n) => Trie(n.view)
  }

  ghost predicate RootValid<V>(r: RootRef<V>, t: OwnerID?)
    reads RootNodes(r)
  {
    r.TrieRoot? ==> r.node.Valid(t)
  }

  ghost function RootEditable<V>(r: RootRef<V>, t: OwnerID?): set<object>
    reads if r.TrieRoot? then {r.node} else {}
  {
    match r
    case NoRoot => {}
    case ArrayRoot(a) => if t != null && a.ownerID == t then {a} else {}
    case TrieRoot(n) => Editable(n.repr, t)
  }

  /** A tree without nodes of `t` may as well be edited for `t`. */
  lemma {:induction false} ValidFor<V>(n: TNode<V>, s: OwnerID?, t: OwnerID?)
    requires n.Valid(s) && NoneMine(n.repr, t)
    ensures n.Valid(t)
    decreases n.view
  {
    match n.body
    case ValueBody(_) =>
    case BitmapBody(b, nodes) =>
      forall i | 0 <= i < |nodes| ensures nodes[i].Valid(t) {
        ValidFor(nodes[i], s, t);
      }
    case HashArrayBody(c, slots) =>
      forall i | 0 <= i < |slots| && slots[i].Some? ensures slots[i].value.Valid(t) {
        ValidFor(slots[i].value, s, t);
      }
  }

  /** `createNodes` */
  method CreateNodesFor<V(==)>(t: OwnerID?, es: seq<(Key, V)>, key: Key, v: V, ghost keys: set<Key>)
    returns (n: TNode<V>)
    requires Apart(keys) && key in keys && forall i :: 0 <= i < |es| ==> es[i].0 in keys
    ensures n.Valid(t) && fresh(n.repr) && n in n.repr && n.view == CreateNodes(es, key, v)
  {
    hide WF, Update, KeysOf, n.Valid;
    var owner := t;
    if owner == null {
      owner := new OwnerID();
    }
    n := NewValue(owner, (key, v));
    FirstKey((key, v));
    for i := 0 to |es|
      invariant fresh(n.repr) && n in n.repr && n.Valid(owner) && WF(n.view, []) && KeysOf(n.view) <= keys
      invariant AddEntries(n.view, es[i..]) == CreateNodes(es, key, v)
    {
      var e := es[i];
      AddStep(n.view, es[i..], keys);
      var r, _, _ := UpdateNode(n, owner, [], 0, e.0, Some(e.1));
      n := r.value;
    }
    if t == null {
      ValidFor(n, owner, t);
    }
  }

  lemma FirstKey<V>(e: (Key, V))
    ensures WF(Value(e.0.hash, e), []) && KeysOf(Value(e.0.hash, e)) == {e.0}
  {}

  /** One more entry of `createNodes`. */
  lemma AddStep<V>(n: Node<V>, es: seq<(Key, V)>, keys: set<Key>)
    requires WF(n, []) && KeysOf(n) <= keys && es != [] && es[0].0 in keys && Apart(keys)
    ensures OnPath(es[0].0.hash, []) && NoClash(n, es[0].0)
    ensures var u := Update(n, [], es[0].0, Some(es[0].1));
      && After(n, u).Some? && WF(After(n, u).value, []) && KeysOf(After(n, u).value) <= keys
      && AddEntries(n, es) == AddEntries(After(n, u).value, es[1..])
  {
    hide WF, Update, KeysOf;
    UpdateLaw(n, [], es[0].0, Some(es[0].1), es[0].0);
    UpdateKeys(Trie(n), es[0].0, Some(es[0].1));
  }

  /** Objects of the old root, or new ones. */
  twostate predicate FromOld(new r: set<object>, was: set<object>) {
    forall x :: x in r ==> x in was || fresh(x)
  }

  /** `ArrayMapNode.update` */
  method UpdateArrayMap<V(==)>(n: ArrayMapNode<V>, t: OwnerID?, key: Key, v: Option<V>, ghost keys: set<Key>)
    returns (r: RootRef<V>, resized: bool, altered: bool)
    requires RootWF(ArrayMap(n.entries)) && Apart(keys) && RootKeys(ArrayMap(n.entries)) + {key} <= keys
    modifies RootEditable(ArrayRoot(n), t)
    ensures RootUpdated(old(ArrayMap(n.entries)), key, v, ArrayRoot(n), r, resized, altered, t)
    ensures FromOld(RootNodes(r), {n})
  {
    hide CreateNodes, RootWF, WF, UpdateRoot, EditEntries, Find;
    var es := n.entries;
    var l, len := 0, |es|;
    while l < len && es[l].0 != key
      invariant 0 <= l <= len && forall j :: 0 <= j < l ==> es[j].0 != key
    {
      l := l + 1;
    }
    FindIs(es, key, l);
    UpdateArrayIs(es, key, v);
    var found := l < len;
    if if found then v == Some(es[l].1) else v.None? {
      return ArrayRoot(n), false, false;
    }
    resized := v.None? || !found;
    if v.None? && len == 1 {
      return NoRoot, resized, true;
    }
    if !found && v.Some? && len >= MAX_ARRAY_MAP {
      EntryKeys(es, keys);
      var m := CreateNodesFor(t, es, key, v.value, keys);
      return TrieRoot(m), resized, true;
    }
    var entries := EditedEntries(es, l, key, v);
    var m := EditArrayMap(n, t, entries);
    return ArrayRoot(m), resized, true;
  }

  /** The new entries go into the node of the owner, or into a new one. */
  method EditArrayMap<V>(n: ArrayMapNode<V>, t: OwnerID?, entries: seq<(Key, V)>) returns (m: ArrayMapNode<V>)
    modifies RootEditable(ArrayRoot(n), t)
    ensures m == n || fresh(m)
    ensures m.entries == entries
  {
    if t != null && n.ownerID == t {
      n.entries := entries;
      return n;
    }
    m := new ArrayMapNode(t, entries);
  }

  /** The entries of an `ArrayMapNode` with one set, removed or added. */
  method EditedEntries<V>(es: seq<(Key, V)>, l: nat, key: Key, v: Option<V>) returns (entries: seq<(Key, V)>)
    requires l == Find(es, key) && (l == |es| ==> v.Some?)
    ensures entries == EditEntries(es, key, v)
  {
    if l == |es| {
      return es + [(key, v.value)];
    } else if v.None? {
      return if l == |es| - 1 then es[..|es| - 1] else es[..|es| - 1][l := es[|es| - 1]];
    } else {
      return es[l := (key, v.value)];
    }
  }

  lemma UpdateArrayIs<V>(es: seq<(Key, V)>, key: Key, v: Option<V>)
    requires RootWF(ArrayMap(es))
    ensures var i := Find(es, key);
      UpdateRoot(ArrayMap(es), key, v)
      == if (if i < |es| then v == Some(es[i].1) else v.None?) then RootSame
         else if v.None? && |es| == 1 then RootNew(Absent, true)
         else if i == |es| && v.Some? && |es| >= MAX_ARRAY_MAP then RootNew(Trie(CreateNodes(es, key, v.value)), true)
         else RootNew(ArrayMap(EditEntries(es, key, v)), v.None? || i == |es|)
  {
    hide CreateNodes, EditEntries, RootWF;
  }

  lemma FindIs<V>(es: seq<(Key, V)>, key: Key, l: nat)
    requires l <= |es| && (forall j :: 0 <= j < l ==> es[j].0 != key) && (l < |es| ==> es[l].0 == key)
    ensures Find(es, key) == l
  {}

  lemma EntryKeys<V>(es: seq<(Key, V)>, keys: set<Key>)
    requires RootKeys(ArrayMap(es)) <= keys
    ensures forall i :: 0 <= i < |es| ==> es[i].0 in keys
  {
    forall i | 0 <= i < |es| ensures es[i].0 in keys {
      assert es[i].0 in RootKeys(ArrayMap(es));
    }
  }

  /** What an update at the root must give. */
  ghost predicate RootUpdated<V>(before: Root<V>, key: Key, v: Option<V>, root: RootRef<V>, r: RootRef<V>,
                                 resized: bool, altered: bool, t: OwnerID?)
    requires RootWF(before)
    reads RootNodes(root), RootNodes(r)
  {
    var u := UpdateRoot(before, key, v);
    && altered == u.RootNew? && resized == (u.RootNew? && u.resized)
    && (u.RootSame? ==> r == root)
    && RootValid(r, t)
    && RootView(r) == if u.RootSame? then before else u.root
  }

  /** `updateNode` at the root of a map that is not empty. */
  method UpdateRootNode<V(==)>(root: RootRef<V>, t: OwnerID?, key: Key, v: Option<V>, ghost keys: set<Key>)
    returns (r: RootRef<V>, resized: bool, altered: bool)
    requires root != NoRoot && RootValid(root, t) && RootWF(RootView(root))
    requires Apart(keys) && RootKeys(RootView(root)) + {key} <= keys
    modifies RootEditable(root, t)
    ensures RootUpdated(old(RootView(root)), key, v, root, r, resized, altered, t)
    ensures FromOld(RootNodes(r), old(RootNodes(root)))
  {
    hide WF, Update, RootWF;
    match root {
      case ArrayRoot(a) =>
        r, resized, altered := UpdateArrayMap(a, t, key, v, keys);
      case TrieRoot(n) =>
        TrieReady(n, t, key, v, keys);
        var m;
        m, resized, altered := UpdateNode(n, t, [], 0, key, v);
        r := if m.Some? then TrieRoot(m.value) else NoRoot;
    }
  }

  lemma TrieReady<V>(n: TNode<V>, t: OwnerID?, key: Key, v: Option<V>, keys: set<Key>)
    requires n.Valid(t) && RootWF(Trie(n.view)) && Apart(keys) && KeysOf(n.view) + {key} <= keys
    ensures WF(n.view, []) && OnPath(key.hash, []) && NoClash(n.view, key) && n in n.repr
    ensures var u := Update(n.view, [], key, v);
      UpdateRoot(Trie(n.view), key, v) ==
      if u.Same? then RootSame else RootNew(if u.node.Some? then Trie(u.node.value) else Absent, u.resized)
  {
    hide KeysOf, Update;
  }

  // --------------------------------------------------------------------- Map

  class MapObject<V(==)> {
    var size: int
    var root: RootRef<V>
    var ownerID: OwnerID?
    var altered: bool

    /** The map as a value. */
    ghost function View(): HashMap<V>
      reads this, RootNodes(root)
    {
      HashMap(size, RootView(root))
    }

    ghost predicate Valid()
      reads this, RootNodes(root)
    {
      RootValid(root, ownerID) && HashMaps.Valid(View())
    }

    /** `makeMap` */
    constructor (size: int, root: RootRef<V>, ownerID: OwnerID?)
      ensures this.size == size && this.root == root && this.ownerID == ownerID && !altered
    {
      this.size, this.root, this.ownerID, altered := size, root, ownerID, false;
    }

    /** `get`; `None` for a missing key. */
    method Get(key: Key) returns (v: Option<V>)
      requires Valid()
      ensures v == HashMaps.Get(View(), key)
    {
      hide WF;
      match root {
        case NoRoot =>
          v := None;
        case ArrayRoot(a) =>
          var l := 0;
          while l < |a.entries| && a.entries[l].0 != key
            invariant 0 <= l <= |a.entries| && forall j :: 0 <= j < l ==> a.entries[j].0 != key
          {
            l := l + 1;
          }
          FindIs(a.entries, key, l);
          v := if l < |a.entries| then Some(a.entries[l].1) else None;
        case TrieRoot(n) =>
          v := GetNode(n, ownerID, [], 0, key);
      }
    }

    /** `updateMap` */
    method UpdateMap(key: Key, v: Option<V>, ghost keys: set<Key>) returns (r: MapObject<V>)
      requires Valid() && Apart(keys) && RootKeys(View().root) + {key} <= keys
      modifies if ownerID != null then {this} + RootEditable(root, ownerID) else {}
      ensures r.Valid() && r.View() == HashMaps.UpdateMap(old(View()), key, v) && RootKeys(r.View().root) <= keys
      ensures r.ownerID == old(ownerID) && FromOld(RootNodes(r.root), old(RootNodes(root)))
      ensures if old(ownerID) != null then r == this else r == this || fresh(r)
      ensures ownerID != null ==> altered == (old(altered) || r.View() != old(View()))
    {
      hide UpdateRoot, RootWF, RootKeys;
      ValidUpdate(View(), key, v, keys);
      var n: RootRef<V>, o;
      if root != NoRoot {
        var resized, changed;
        n, resized, changed := UpdateRootNode(root, ownerID, key, v, keys);
        if !changed {
          return this;
        }
        o := size + if resized then (if v.None? then -1 else 1) else 0;
      } else {
        if v.None? {
          return this;
        }
        var a := new ArrayMapNode(ownerID, [(key, v.value)]);
        n, o := ArrayRoot(a), 1;
      }
      if ownerID != null {
        size, root, altered := o, n, true;
        return this;
      }
      if n != NoRoot {
        r := new MapObject(o, n, null);
      } else {
        r := new MapObject(0, NoRoot, null);
      }
    }
  }

  /** The pure update: the keys it may leave, and the size of an empty result. */
  lemma ValidUpdate<V>(m: HashMap<V>, key: Key, v: Option<V>, keys: set<Key>)
    requires HashMaps.Valid(m) && RootKeys(m.root) + {key} <= keys
    ensures RootWF(m.root)
    ensures var u := UpdateRoot(m.root, key, v);
      var r := HashMaps.UpdateMap(m, key, v);
      && HashMaps.Valid(r) && RootKeys(r.root) <= keys
      && (u.RootSame? ==> r == m)
      && (u.RootNew? ==>
            && r.root == u.root && r != m
            && r.size == if m.root.Absent? then 1 else m.size + if u.resized then (if v.None? then -1 else 1) else 0)
      && (m.root == Absent ==> u == if v.None? then RootSame else RootNew(ArrayMap([(key, v.value)]), true))
  {
    hide RootWF, RootKeys;
    UpdateModel(m, key, v);
    UpdateKeys(m.root, key, v);
    RootLaw(m.root, key, v, key);
  }

  // ---------------------------------------------------------- withMutations

  ghost predicate KeysIn<V>(ops: seq<Op<V>>, keys: set<Key>) {
    forall i :: 0 <= i < |ops| ==> ops[i].key in keys
  }

  function Written<V>(op: Op<V>): Option<V> {
    if op.OpSet? then Some(op.v) else None
  }

  lemma RunStep<V>(m: HashMap<V>, ops: seq<Op<V>>, i: nat)
    requires HashMaps.Valid(m) && i < |ops|
    ensures HashMaps.Valid(HashMaps.UpdateMap(m, ops[i].key, Written(ops[i])))
    ensures Run(m, ops[i..]) == Run(HashMaps.UpdateMap(m, ops[i].key, Written(ops[i])), ops[i + 1..])
  {
    hide RootWF, HashMaps.UpdateMap;
    UpdateModel(m, ops[i].key, Written(ops[i]));
    assert ops[i..][1..] == ops[i + 1..];
  }

  lemma RunNone<V>(m: HashMap<V>)
    requires HashMaps.Valid(m)
    ensures Run(m, []) == m
  {}

  /** `asMutable` of a map without owner: the same root for a new owner. */
  method AsMutable<V(==)>(m: MapObject<V>) returns (r: MapObject<V>, t: OwnerID)
    requires m.Valid() && m.ownerID == null
    ensures fresh(r) && fresh(t) && r.Valid() && r.ownerID == t && !r.altered
    ensures r.root == m.root && r.View() == m.View() && RootEditable(r.root, t) == {}
  {
    t := new OwnerID();
    r := new MapObject(m.size, m.root, t);
    if m.root.TrieRoot? {
      ValidFor(m.root.node, null, t);
    }
  }

  /** `__ensureOwner()` of a mutable map. */
  method AsImmutable<V(==)>(m: MapObject<V>) returns (r: MapObject<V>)
    requires m.Valid() && m.ownerID != null
    modifies m
    ensures r.Valid() && r.ownerID == null && r.View() == old(m.View()) && (r == m || fresh(r))
  {
    if m.size == 0 {
      r := new MapObject(0, NoRoot, null);
    } else {
      if m.root.TrieRoot? {
        ValidFor(m.root.node, m.ownerID, null);
      }
      m.ownerID, m.altered := null, false;
      r := m;
    }
  }

  /** `withMutations` on a map without owner, for keys with pairwise different
    * hashes: the result is the run of the edits, and since nothing is modified,
    * the map itself, and every other object there was, stays as it was. */
  method WithMutations<V(==)>(m: MapObject<V>, ops: seq<Op<V>>, ghost keys: set<Key>) returns (r: MapObject<V>)
    requires m.Valid() && m.ownerID == null
    requires Apart(keys) && RootKeys(m.View().root) <= keys && KeysIn(ops, keys)
    ensures r.Valid() && r.ownerID == null && r.View() == Run(m.View(), ops)
    ensures m.Valid() && m.View() == old(m.View())
  {
    hide HashMaps.UpdateMap, Run, RootKeys, RootWF;
    var mutable, t := AsMutable(m);
    assert ops[0..] == ops;
    for i := 0 to |ops|
      invariant fresh(mutable) && mutable.Valid() && mutable.ownerID == t
      invariant forall x :: x in RootEditable(mutable.root, t) ==> fresh(x)
      invariant Run(mutable.View(), ops[i..]) == Run(m.View(), ops)
      invariant RootKeys(mutable.View().root) <= keys
      invariant !mutable.altered ==> mutable.View() == m.View()
    {
      RunStep(mutable.View(), ops, i);
      mutable := mutable.UpdateMap(ops[i].key, Written(ops[i]), keys);
    }
    RunNone(mutable.View());
    assert ops[|ops|..] == [];
    if mutable.altered {
      r := AsImmutable(mutable);
    } else {
      r := m;
    }
  }
}
