/** `OrderedMap`: a hash map from key to index, and a list of entries in which a
  * removed entry leaves `undefined` behind until the list is compacted. */
module OrderedMaps {
  import opened Wrappers
  import opened Radix32
  import opened VNodes
  import opened Lists
  import opened ListOps
  import opened TrieNodes
  import HashMaps

  type Entry<V> = (Key, V)

  datatype OrderedMap<V> = OrderedMap(index: HashMaps.HashMap<nat>, list: List<Entry<V>>)

  const MIN_COMPACT: nat := 32

  function Size<V>(m: OrderedMap<V>): int {
    m.index.size
  }

  /** `OrderedMap.get` */
  function Get<V>(m: OrderedMap<V>, key: Key): Option<V>
    requires Lists.Size(m.list) >= 0
  {
    var i := HashMaps.Get(m.index, key);
    if i.None? then None
    else match Lists.Get(m.list, i.value) { case Some(e) => Some(e.1) case None => None }
  }

  // -------------------------------------------------- the entries of a list

  /** The defined elements, in order: what iteration shows. */
  ghost function Live<V>(c: seq<Option<Entry<V>>>): seq<Entry<V>> {
    if c == [] then []
    else if c[0].Some? then [c[0].value] + Live(c[1..])
    else Live(c[1..])
  }

  /** The index map and the list agree: a key has index `i` exactly when the list
    * shows its entry there. */
  ghost predicate AgreeAt<V>(s: map<Key, nat>, c: seq<Option<Entry<V>>>) {
    && (forall k :: k in s ==> s[k] < |c| && c[s[k]].Some? && c[s[k]].value.0 == k)
    && (forall i :: 0 <= i < |c| && c[i].Some? ==> c[i].value.0 in s && s[c[i].value.0] == i)
  }

  ghost predicate Agree<V>(m: OrderedMap<V>) {
    && HashMaps.Valid(m.index)
    && Valid(m.list)
    && AgreeAt(HashMaps.Model(m.index), Contents(m.list))
  }

  /** Iteration order of an ordered map. */
  ghost function Entries<V>(m: OrderedMap<V>): seq<Entry<V>>
    requires m.list.origin <= m.list.capacity
  {
    Live(Contents(m.list))
  }

  // ------------------------------------------------------------- operations

  /** The list that `filter` returns: each kept entry is set at the end. */
  function Collect<V(==)>(l: List<Entry<V>>, es: seq<Entry<V>>): Result<List<Entry<V>>, Error>
    requires Valid(l)
    decreases |es|
  {
    if es == [] then Ok(l)
    else
      var r := Push(l, [Some(es[0])]);
      if r.Err? then r
      else
        PushContents(l, [Some(es[0])]);
        Collect(r.value, es[1..])
  }

  /** `toKeyedSeq().map(entry => entry[0]).flip().toMap()` */
  function IndexOf<V>(m: HashMaps.HashMap<nat>, es: seq<Entry<V>>, i: nat): HashMaps.HashMap<nat>
    requires HashMaps.RootWF(m.root)
    decreases |es|
  {
    if es == [] then m
    else
      HashMaps.UpdateKeys(m.root, es[0].0, Some(i));
      IndexOf(HashMaps.Set(m, es[0].0, i), es[1..], i + 1)
  }

  /** The entries that compaction keeps: all but the holes and index `u`. */
  function Kept<V>(l: List<Entry<V>>, u: nat, i: nat): seq<Entry<V>>
    requires Valid(l) && i <= Lists.Size(l)
    decreases Lists.Size(l) - i
  {
    if i == Lists.Size(l) then []
    else
      var e := Lists.Get(l, i);
      if e.Some? && i != u then [e.value] + Kept(l, u, i + 1) else Kept(l, u, i + 1)
  }

  /** `updateOrderedMap` with a value. Setting index `size` of the list is a push. */
  function Set<V(==)>(m: OrderedMap<V>, key: Key, v: V): Result<OrderedMap<V>, Error>
    requires Agree(m)
  {
    var u := HashMaps.Get(m.index, key);
    IndexLaw(m, key);
    if u.Some? then
      if Lists.Get(m.list, u.value).value.1 == v then Ok(m)
      else Ok(m.(list := ListOps.Set(m.list, u.value, Some((key, v)))))
    else
      var l := Push(m.list, [Some((key, v))]);
      if l.Err? then Err(l.error)
      else Ok(OrderedMap(HashMaps.Set(m.index, key, Lists.Size(m.list)), l.value))
  }

  /** `updateOrderedMap` with `NOT_SET`. */
  function Remove<V(==)>(m: OrderedMap<V>, key: Key): Result<OrderedMap<V>, Error>
    requires Agree(m)
  {
    var u := HashMaps.Get(m.index, key);
    IndexLaw(m, key);
    if u.None? then Ok(m)
    else if Lists.Size(m.list) >= MIN_COMPACT && Lists.Size(m.list) >= 2 * m.index.size then Compact(m, u.value)
    else if u.value == Lists.Size(m.list) - 1 then
      var l := Pop(m.list);
      if l.Err? then Err(l.error) else Ok(OrderedMap(HashMaps.Remove(m.index, key), l.value))
    else Ok(OrderedMap(HashMaps.Remove(m.index, key), ListOps.Set(m.list, u.value, None)))
  }

  /** The branch that rebuilds both parts without the holes and index `u`. */
  function Compact<V(==)>(m: OrderedMap<V>, u: nat): Result<OrderedMap<V>, Error>
    requires Agree(m)
  {
    var es := Kept(m.list, u, 0);
    var l := Collect(Empty(), es);
    if l.Err? then Err(l.error) else Ok(OrderedMap(IndexOf(HashMaps.EmptyMap(), es, 0), l.value))
  }

  /** What agreement says about one key. */
  lemma IndexLaw<V>(m: OrderedMap<V>, key: Key)
    requires Agree(m)
    ensures var u := HashMaps.Get(m.index, key);
      && (u.Some? <==> key in HashMaps.Model(m.index))
      && (u.Some? ==> (
        && u.value < Lists.Size(m.list)
        && u.value == HashMaps.Model(m.index)[key]
        && Lists.Get(m.list, u.value) == Contents(m.list)[u.value]
        && FirstAt(Contents(m.list), key, u.value)))
      && (u.None? ==> forall i :: 0 <= i < |Contents(m.list)| ==> !KeyAt(Contents(m.list), key, i))
  {
    hide ListAt, HashMaps.Model, HashMaps.Get, HashMaps.RootWF;
    HashMaps.GetModel(m.index, key);
  }

  // ------------------------------------------- entry sequences, as specified

  /** Replace the value of a key in place, or append a new entry. */
  function Replaced<V>(s: seq<Entry<V>>, key: Key, v: V): seq<Entry<V>> {
    if s == [] then [(key, v)]
    else if s[0].0 == key then [(key, v)] + s[1..]
    else [s[0]] + Replaced(s[1..], key, v)
  }

  function Deleted<V>(s: seq<Entry<V>>, key: Key): seq<Entry<V>> {
    if s == [] then []
    else if s[0].0 == key then s[1..]
    else [s[0]] + Deleted(s[1..], key)
  }

  ghost predicate KeyAt<V>(c: seq<Option<Entry<V>>>, key: Key, i: nat) {
    i < |c| && c[i].Some? && c[i].value.0 == key
  }

  /** Key `key` is at `i` and nowhere before. */
  ghost predicate FirstAt<V>(c: seq<Option<Entry<V>>>, key: Key, i: nat) {
    KeyAt(c, key, i) && forall j :: 0 <= j < i ==> !KeyAt(c, key, j)
  }

  lemma {:induction false} LiveReplace<V>(c: seq<Option<Entry<V>>>, key: Key, v: V, i: nat)
    requires FirstAt(c, key, i)
    ensures Live(c[i := Some((key, v))]) == Replaced(Live(c), key, v)
  {
    if i > 0 {
      assert c[i := Some((key, v))][1..] == c[1..][i - 1 := Some((key, v))];
      assert !KeyAt(c, key, 0);
      assert forall j :: 0 <= j < i - 1 ==> KeyAt(c[1..], key, j) ==> KeyAt(c, key, j + 1);
      LiveReplace(c[1..], key, v, i - 1);
      if c[0].Some? { assert ([c[0].value] + Live(c[1..]))[1..] == Live(c[1..]); }
    }
  }

  lemma {:induction false} LiveDelete<V>(c: seq<Option<Entry<V>>>, key: Key, i: nat)
    requires FirstAt(c, key, i)
    ensures Live(c[i := None]) == Deleted(Live(c), key)
  {
    if i > 0 {
      assert c[i := None][1..] == c[1..][i - 1 := None];
      assert !KeyAt(c, key, 0);
      assert forall j :: 0 <= j < i - 1 ==> KeyAt(c[1..], key, j) ==> KeyAt(c, key, j + 1);
      LiveDelete(c[1..], key, i - 1);
      if c[0].Some? { assert ([c[0].value] + Live(c[1..]))[1..] == Live(c[1..]); }
    }
  }

  lemma {:induction false} LiveConcat<V>(c: seq<Option<Entry<V>>>, d: seq<Option<Entry<V>>>)
    ensures Live(c + d) == Live(c) + Live(d)
  {
    if c == [] {
      assert c + d == d;
    } else {
      assert (c + d)[1..] == c[1..] + d;
      LiveConcat(c[1..], d);
    }
  }

  lemma {:induction false} ReplacedNew<V>(c: seq<Option<Entry<V>>>, key: Key, v: V)
    requires forall i :: 0 <= i < |c| ==> !KeyAt(c, key, i)
    ensures Replaced(Live(c), key, v) == Live(c) + [(key, v)]
  {
    if c != [] {
      assert !KeyAt(c, key, 0);
      assert forall j :: 0 <= j < |c| - 1 ==> KeyAt(c[1..], key, j) ==> KeyAt(c, key, j + 1);
      ReplacedNew(c[1..], key, v);
      if c[0].Some? { assert ([c[0].value] + Live(c[1..]))[1..] == Live(c[1..]); }
    }
  }
}
