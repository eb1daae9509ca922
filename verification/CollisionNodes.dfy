/** `ValueNode` and `HashCollisionNode` with their entries as objects. A collision
  * node has an index from a second hash of the keys to positions, which is built at
  * the first lookup among many entries and kept up only by edits in place. */
module CollisionNodes {
  import opened Wrappers
  import opened TrieNodes
  import opened OwnedNodes
  import TrieLaws

  // ----------------------------------------------------------------- entries

  /** `[key, value]` */
  class Entry<V> {
    const key: Key
    var value: V

    constructor (key: Key, value: V)
      ensures this.key == key && this.value == value
    {
      this.key, this.value := key, value;
    }
  }

  function Pair<V>(e: Entry<V>): (Key, V)
    reads e
  {
    (e.key, e.value)
  }

  function Pairs<V>(es: seq<Entry<V>>): (r: seq<(Key, V)>)
    reads es
    ensures |r| == |es| && forall i :: 0 <= i < |es| ==> r[i] == Pair(es[i])
  {
    seq(|es|, i requires 0 <= i < |es| reads es => Pair(es[i]))
  }

  // ------------------------------------------------------------------- index

  /** Below this many entries there is no index. */
  const MIN_INDEXED: nat := 16

  type Index = map<int, seq<nat>>

  /** `list` holds exactly the positions of the entries whose keys have second
    * hash `c`, in order. */
  ghost predicate Lists<V>(list: seq<nat>, es: seq<(Key, V)>, rehash: Key -> int, c: int) {
    && (forall i :: 0 <= i < |list| ==> list[i] < |es| && rehash(es[list[i]].0) == c)
    && (forall i, j :: 0 <= i < j < |list| ==> list[i] < list[j])
    && (forall p :: 0 <= p < |es| && rehash(es[p].0) == c ==> p in list)
  }

  function Listed(index: Index, c: int): seq<nat> {
    if c in index then index[c] else []
  }

  ghost predicate Indexes<V>(index: Index, es: seq<(Key, V)>, rehash: Key -> int) {
    forall c :: Lists(Listed(index, c), es, rehash, c)
  }

  /** One more entry at the end, filed under its second hash. */
  function Filed(index: Index, c: int, p: nat): Index {
    index[c := Listed(index, c) + [p]]
  }

  lemma NothingListed<V>(es: seq<(Key, V)>, rehash: Key -> int)
    requires es == []
    ensures Indexes(map[], es, rehash)
  {
  }

  lemma FiledIndexes<V>(index: Index, es: seq<(Key, V)>, e: (Key, V), rehash: Key -> int)
    requires Indexes(index, es, rehash)
    ensures Indexes(Filed(index, rehash(e.0), |es|), es + [e], rehash)
  {
    var more := Filed(index, rehash(e.0), |es|);
    forall c ensures Lists(Listed(more, c), es + [e], rehash, c) {
      var list := Listed(index, c);
      assert Lists(list, es, rehash, c);
      if c == rehash(e.0) {
        MoreListed(list, es, e, rehash);
      } else {
        OtherListed(list, es, e, rehash, c);
      }
      hide Lists;
    }
  }

  lemma MoreListed<V>(list: seq<nat>, es: seq<(Key, V)>, e: (Key, V), rehash: Key -> int)
    requires Lists(list, es, rehash, rehash(e.0))
    ensures Lists(list + [|es|], es + [e], rehash, rehash(e.0))
  {
    var all := list + [|es|];
    forall p | 0 <= p < |es| + 1 && rehash((es + [e])[p].0) == rehash(e.0) ensures p in all {
      if p < |es| {
        assert p in list;
      } else {
        assert all[|list|] == p;
      }
    }
  }

  lemma OtherListed<V>(list: seq<nat>, es: seq<(Key, V)>, e: (Key, V), rehash: Key -> int, c: int)
    requires Lists(list, es, rehash, c) && c != rehash(e.0)
    ensures Lists(list, es + [e], rehash, c)
  {}

  lemma IndexLists<V>(index: Index, es: seq<(Key, V)>, rehash: Key -> int, c: int)
    requires Indexes(index, es, rehash)
    ensures Lists(Listed(index, c), es, rehash, c)
  {}

  /** A new value leaves the index right. */
  lemma SameKeyIndexes<V>(index: Index, es: seq<(Key, V)>, rehash: Key -> int, p: nat, v: V)
    requires Indexes(index, es, rehash) && p < |es|
    ensures Indexes(index, es[p := (es[p].0, v)], rehash)
  {
    forall c ensures Lists(Listed(index, c), es[p := (es[p].0, v)], rehash, c) {
      assert Lists(Listed(index, c), es, rehash, c);
    }
  }

  /** Positions that are listed exist. */
  lemma ListedInRange<V>(list: seq<nat>, es: seq<(Key, V)>, rehash: Key -> int, c: int)
    requires Lists(list, es, rehash, c)
    ensures forall i :: 0 <= i < |list| ==> list[i] < |es|
  {}

  /** The place of a key as the linear scan finds it; -1 for none. */
  function Scan<V>(es: seq<(Key, V)>, key: Key): int {
    if Find(es, key) < |es| then Find(es, key) else -1
  }

  /** The first position listed under the key's second hash that has the key. */
  lemma FirstListed<V>(list: seq<nat>, es: seq<(Key, V)>, rehash: Key -> int, key: Key, i: nat)
    requires Lists(list, es, rehash, rehash(key)) && i <= |list|
    requires forall j :: 0 <= j < i ==> es[list[j]].0 != key
    ensures i < |list| && es[list[i]].0 == key ==> Scan(es, key) == list[i]
    ensures i == |list| ==> Scan(es, key) == -1
  {
    if i < |list| && es[list[i]].0 == key {
      FindNone(es, key, list[i]);
    }
    var f := Find(es, key);
    if f < |es| {
      assert f in list;
      var j :| 0 <= j < |list| && list[j] == f;
    }
  }

  lemma {:induction false} FindNone<V>(es: seq<(Key, V)>, key: Key, p: nat)
    requires p < |es| && es[p].0 == key
    ensures Find(es, key) <= p
  {}

  // ------------------------------------------------------------------- nodes

  /** What `update` returns; `Branch` is a new branch that `mergeIntoNode` puts above
    * the node and a key with another hash. */
  datatype Outcome<V(==)> =
    | Nothing
    | Lone(value: ValueNode<V>)
    | Several(collision: CollisionNode<V>)
    | Branch

  /** The entry objects of a node. */
  function Entries<V(==)>(r: Outcome<V>): seq<Entry<V>>
    reads if r.Several? then {r.collision} else {}
  {
    match r
    case Lone(n) => [n.entry]
    case Several(n) => n.entries
    case _ => []
  }

  /** The entries of a node after an edit of `key`: the old objects, but a new one for
    * `key` unless that is kept. */
  twostate predicate Takes<V>(was: seq<Entry<V>>, new now: seq<Entry<V>>, key: Key, kept: bool) {
    forall e :: e in now ==> if e.key == key && !kept then fresh(e) else e in was
  }

  ghost predicate Sound<V>(r: Outcome<V>)
    reads if r.Several? then {r.collision} else {}
    reads Entries(r)
  {
    r.Several? ==> r.collision.Valid()
  }

  /** A new node of `t`. */
  twostate predicate NewFor<V>(new r: Outcome<V>, t: OwnerID?, rehash: Key -> int) {
    match r
    case Lone(n) => fresh(n) && n.ownerID == t && n.rehash == rehash
    case Several(c) => fresh(c) && c.ownerID == t && c.rehash == rehash
    case _ => false
  }

  class ValueNode<V(==)> {
    const ownerID: OwnerID?
    const rehash: Key -> int
    const entry: Entry<V>

    constructor (ownerID: OwnerID?, rehash: Key -> int, entry: Entry<V>)
      ensures this.ownerID == ownerID && this.rehash == rehash && this.entry == entry
    {
      this.ownerID, this.rehash, this.entry := ownerID, rehash, entry;
    }

    /** Whether an edit of `key` for `t` writes into the entry itself. */
    predicate Writes(t: OwnerID?, key: Key, v: Option<V>) {
      t != null && ownerID == t && key == entry.key && v.Some?
    }

    /** `update`; `None` removes. A key with the same hash is merged with the entry
      * of this node. */
    method Update(t: OwnerID?, key: Key, v: Option<V>) returns (r: Outcome<V>)
      modifies if t != null && ownerID == t then {entry} else {}
      ensures Sound(r) && (r.Branch? <==> key.hash != entry.key.hash && v.Some?)
      ensures entry.value == if Writes(t, key, v) then v.value else old(entry.value)
      ensures !r.Branch? ==> Pairs(Entries(r)) == EditEntries([old(Pair(entry))], key, v)
      ensures var kept := EditEntries([old(Pair(entry))], key, v) == [old(Pair(entry))] || Writes(t, key, v);
        !r.Branch? ==>
          && Takes([entry], Entries(r), key, kept)
          && if kept then r == Lone(this) else r.Nothing? || NewFor(r, t, rehash)
    {
      var same := key == entry.key;
      if if same then v == Some(entry.value) else v.None? {
        return Lone(this);
      } else if v.None? {
        return Nothing;
      } else if same {
        if t != null && ownerID == t {
          entry.value := v.value;
          return Lone(this);
        }
        var e := new Entry(key, v.value);
        var n := new ValueNode(t, rehash, e);
        return Lone(n);
      }
      if key.hash != entry.key.hash {
        return Branch;
      }
      var e := new Entry(key, v.value);
      var c := new CollisionNode(t, key.hash, rehash, [entry, e]);
      return Several(c);
    }
  }

  class CollisionNode<V(==)> {
    const ownerID: OwnerID?
    const keyHash: Word
    const rehash: Key -> int
    var entries: seq<Entry<V>>
    var index: Option<Index>

    ghost predicate Valid()
      reads this, entries
    {
      && |entries| >= 2 && Distinct(Pairs(entries))
      && (forall i :: 0 <= i < |entries| ==> entries[i].key.hash == keyHash)
      && (index.Some? ==> Indexes(index.value, Pairs(entries), rehash))
    }

    constructor (ownerID: OwnerID?, keyHash: Word, rehash: Key -> int, entries: seq<Entry<V>>)
      requires |entries| >= 2 && Distinct(Pairs(entries))
      requires forall i :: 0 <= i < |entries| ==> entries[i].key.hash == keyHash
      ensures Valid() && this.entries == entries && this.ownerID == ownerID
      ensures this.keyHash == keyHash && this.rehash == rehash && index == None
    {
      this.ownerID, this.keyHash, this.rehash, this.entries := ownerID, keyHash, rehash, entries;
      index := None;
    }

    /** `_positionOf` */
    method PositionOf(key: Key, build: bool) returns (p: int)
      requires Valid()
      modifies if build then {this} else {}
      ensures Valid() && entries == old(entries) && p == Scan(Pairs(entries), key)
    {
      hide Indexes, Lists, Listed;
      if index == None && build && |entries| >= MIN_INDEXED {
        BuildIndex();
      }
      if index.Some? {
        var list := Listed(index.value, rehash(key));
        ghost var es := Pairs(entries);
        IndexLists(index.value, es, rehash, rehash(key));
        ListedInRange(list, es, rehash, rehash(key));
        var i := 0;
        while i < |list|
          invariant Valid() && entries == old(entries) && i <= |list|
          invariant forall j :: 0 <= j < i ==> es[list[j]].0 != key
        {
          FirstListed(list, es, rehash, key, i);
          if entries[list[i]].key == key {
            return list[i];
          }
          i := i + 1;
        }
        FirstListed(list, es, rehash, key, i);
        return -1;
      }
      for s := 0 to |entries|
        invariant Valid() && entries == old(entries) && forall j :: 0 <= j < s ==> entries[j].key != key
      {
        if entries[s].key == key {
          FindNone(Pairs(entries), key, s);
          return s;
        }
      }
      return -1;
    }

    /** `_buildIndex` */
    method BuildIndex()
      requires Valid()
      modifies this`index
      ensures Valid() && index.Some?
    {
      hide Distinct, Indexes;
      var t: Index := map[];
      ghost var es := Pairs(entries);
      NothingListed(es[..0], rehash);
      for r := 0 to |entries|
        invariant Indexes(t, es[..r], rehash)
      {
        FiledIndexes(t, es[..r], es[r], rehash);
        assert es[..r + 1] == es[..r] + [es[r]];
        t := Filed(t, rehash(entries[r].key), r);
      }
      assert es[..|entries|] == es;
      index := Some(t);
    }

    /** `get` */
    method Get(key: Key) returns (v: Option<V>)
      requires Valid()
      modifies this
      ensures Valid() && entries == old(entries)
      ensures var es := Pairs(entries);
        v == if Find(es, key) < |es| then Some(es[Find(es, key)].1) else None
    {
      var p := PositionOf(key, true);
      v := if p == -1 then None else Some(entries[p].value);
    }

    /** `update`; `None` removes. A key with another hash is merged with this node
      * under a new branch. No entry is written, but the result may hold entries of
      * this node. */
    method Update(t: OwnerID?, key: Key, v: Option<V>) returns (r: Outcome<V>, resized: bool, altered: bool)
      requires Valid()
      modifies if t != null && ownerID == t then {this} else {}
      ensures Valid() && Sound(r) && !r.Nothing? && (r.Branch? <==> key.hash != keyHash && v.Some?)
      ensures r != Several(this) ==> entries == old(entries)
      ensures r.Branch? ==> resized && altered
      ensures !r.Branch? ==> Pairs(Entries(r)) == EditEntries(old(Pairs(entries)), key, v)
      ensures var es := old(Pairs(entries));
        var same := EditEntries(es, key, v) == es;
        !r.Branch? ==>
          && altered == !same && (resized <==> |EditEntries(es, key, v)| != |es|)
          && Takes(old(entries), Entries(r), key, same)
          && if same || (t != null && ownerID == t && !LeavesOne(es, key, v)) then r == Several(this)
             else NewFor(r, t, rehash)
    {
      hide Indexes, Distinct, Find, EditEntries;
      ghost var es := Pairs(entries);
      resized, altered := false, false;
      EditFacts(es, key, v);
      if key.hash != keyHash {
        OtherHash(es, key, keyHash);
        if v.None? {
          return Several(this), false, false;
        }
        return Branch, true, true;
      }
      var l := |entries|;
      var owned := t != null && ownerID == t;
      var p := PositionOf(key, owned);
      var found := p != -1;
      var at := if found then p else l;
      if if found then v == Some(entries[at].value) else v.None? {
        return Several(this), false, false;
      }
      altered := true;
      resized := v.None? || !found;
      if v.None? && l == 2 {
        assert EditEntries(es, key, v)[0] == es[1 - at];
        var n := new ValueNode(t, rehash, entries[1 - at]);
        return Lone(n), resized, altered;
      }
      r := PutEntries(t, at, key, v);
    }

    /** The end of `update`: the new entries go into this node or into a new one. */
    method PutEntries(t: OwnerID?, at: nat, key: Key, v: Option<V>) returns (r: Outcome<V>)
      requires Valid() && key.hash == keyHash && at == Find(Pairs(entries), key)
      requires (at == |entries| ==> v.Some?) && |EditEntries(Pairs(entries), key, v)| >= 2
      modifies if t != null && ownerID == t then {this} else {}
      ensures Valid() && r.Several? && Sound(r)
      ensures Pairs(Entries(r)) == EditEntries(old(Pairs(entries)), key, v)
      ensures Takes(old(entries), Entries(r), key, false)
      ensures if t != null && ownerID == t then r == Several(this) else NewFor(r, t, rehash)
    {
      hide Indexes, Distinct, Find, EditEntries;
      EditFacts(Pairs(entries), key, v);
      var y := EditedEntries(at, key, v);
      if t != null && ownerID == t {
        EditOwn(at, key, v, y);
        return Several(this);
      }
      var c := new CollisionNode(t, keyHash, rehash, y);
      return Several(c);
    }

    /** The new entries in this node, with its index. */
    method EditOwn(at: nat, key: Key, v: Option<V>, y: seq<Entry<V>>)
      requires Valid() && at == Find(Pairs(entries), key) && (at == |entries| ==> v.Some?)
      requires |y| >= 2 && Pairs(y) == EditEntries(Pairs(entries), key, v)
      requires forall i :: 0 <= i < |y| ==> y[i].key.hash == keyHash
      modifies this
      ensures Valid() && entries == y
    {
      hide Indexes, Filed, Distinct, Find, EditEntries;
      ghost var es := Pairs(entries);
      EditFacts(es, key, v);
      if at < |entries| && v.None? {
        index := None;
      } else if index.Some? {
        if at < |entries| {
          SameKeyIndexes(index.value, es, rehash, at, v.value);
        } else {
          FiledIndexes(index.value, es, (key, v.value), rehash);
          index := Some(Filed(index.value, rehash(key), |entries|));
        }
      }
      entries := y;
    }

    /** The new entries; those that stay are the same objects. */
    method EditedEntries(at: nat, key: Key, v: Option<V>) returns (y: seq<Entry<V>>)
      requires at == Find(Pairs(entries), key) && (at == |entries| ==> v.Some?)
      requires Valid() && key.hash == keyHash
      ensures Pairs(y) == EditEntries(Pairs(entries), key, v)
      ensures forall i :: 0 <= i < |y| ==> y[i].key.hash == keyHash
      ensures Takes(entries, y, key, false)
    {
      hide Find;
      var l := |entries|;
      if at < l && v.None? {
        y := if at == l - 1 then entries[..l - 1] else entries[..l - 1][at := entries[l - 1]];
      } else {
        var e := new Entry(key, v.value);
        y := if at < l then entries[at := e] else entries + [e];
      }
    }
  }

  /** A removal that leaves one of two entries. */
  predicate LeavesOne<V>(es: seq<(Key, V)>, key: Key, v: Option<V>) {
    |es| == 2 && v.None? && Find(es, key) < 2
  }

  lemma EditFacts<V>(es: seq<(Key, V)>, key: Key, v: Option<V>)
    requires Distinct(es)
    ensures Distinct(EditEntries(es, key, v))
    ensures |EditEntries(es, key, v)| == |es| + (if v.Some? then 1 else 0) - (if Find(es, key) < |es| then 1 else 0)
    ensures var p := Find(es, key);
      && (EditEntries(es, key, v) == es <==> if p < |es| then v == Some(es[p].1) else v.None?)
      && (LeavesOne(es, key, v) ==> EditEntries(es, key, v) == [es[1 - p]])
      && (v.None? ==> forall k :: 0 <= k < |EditEntries(es, key, v)| ==> EditEntries(es, key, v)[k].0 != key)
      && (v.Some? ==>
           EditEntries(es, key, v) == if p < |es| then es[p := (key, v.value)] else es + [(key, v.value)])
  {
    hide Find;
    TrieLaws.EditDistinct(es, key, v);
  }

  lemma OtherHash<V>(es: seq<(Key, V)>, key: Key, h: Word)
    requires key.hash != h && forall i :: 0 <= i < |es| ==> es[i].0.hash == h
    ensures Find(es, key) == |es|
  {
  }
}
