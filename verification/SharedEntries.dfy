/** Runs of edits for one owner on the node of one hash, when the node it starts from
  * also belongs to another map. A new node may hold entries of the old one, and a
  * `ValueNode` of the owner is edited in place, so the other map can change. */
module SharedEntries {
  import opened Wrappers
  import opened TrieNodes
  import opened OwnedNodes
  import opened CollisionNodes

  /** `set`, or `remove` without a value. */
  datatype Edit<V> = Edit(key: Key, value: Option<V>)

  /** The entries after a run of edits. */
  function After<V>(es: seq<(Key, V)>, edits: seq<Edit<V>>): seq<(Key, V)> {
    if edits == [] then es
    else
      var e := edits[|edits| - 1];
      EditEntries(After(es, edits[..|edits| - 1]), e.key, e.value)
  }

  // ------------------------------------------------------------------- runs

  /** What decides a run: the entries, the keys whose entry is still the object of the
    * first node, whether the node is the owner's, and what the first node shows. */
  datatype State<V> = State(entries: seq<(Key, V)>, kept: set<Key>, own: bool, seen: seq<(Key, V)>)

  function Keys<V>(es: seq<(Key, V)>): set<Key> {
    set i | 0 <= i < |es| :: es[i].0
  }

  function Start<V>(es: seq<(Key, V)>): State<V> {
    State(es, Keys(es), false, es)
  }

  /** The edit gives another value to the only entry, and that in place. */
  predicate InPlace<V(==)>(s: State<V>, e: Edit<V>) {
    s.own && |s.entries| == 1 && s.entries[0].0 == e.key && e.value.Some? && e.value.value != s.entries[0].1
  }

  function Next<V(==)>(s: State<V>, e: Edit<V>, owner: bool): State<V> {
    var after := EditEntries(s.entries, e.key, e.value);
    if after == s.entries then s
    else if InPlace(s, e) then
      s.(entries := after, seen := if e.key in s.kept then EditEntries(s.seen, e.key, e.value) else s.seen)
    else s.(entries := after, kept := s.kept - {e.key}, own := owner)
  }

  /** `owner` says whether there is one at all. */
  function Run<V(==)>(es: seq<(Key, V)>, edits: seq<Edit<V>>, owner: bool): State<V> {
    if edits == [] then Start(es)
    else Next(Run(es, edits[..|edits| - 1], owner), edits[|edits| - 1], owner)
  }

  predicate OneHash<V(==)>(r: Outcome<V>, h: Word)
    reads if r.Several? then {r.collision} else {}
  {
    !r.Branch? && forall x :: x in Entries(r) ==> x.key.hash == h
  }

  predicate OwnedBy<V(==)>(r: Outcome<V>, t: OwnerID?) {
    match r
    case Lone(n) => n.ownerID == t
    case Several(c) => c.ownerID == t
    case _ => true
  }

  /** `t && t === node.ownerID` */
  predicate Mine<V(==)>(r: Outcome<V>, t: OwnerID?) {
    t != null && (r.Lone? || r.Several?) && OwnedBy(r, t)
  }

  /** The objects agree with the state; `first` holds the entries of the first node. */
  ghost predicate Holds<V>(r: Outcome<V>, t: OwnerID?, s: State<V>, first: seq<Entry<V>>)
    reads if r.Several? then {r.collision} else {}
    reads Entries(r), first
  {
    && Sound(r) && Pairs(Entries(r)) == s.entries && Pairs(first) == s.seen && Distinct(s.seen)
    && (r.Nothing? || (s.own <==> Mine(r, t)))
    && forall e :: e in Entries(r) ==> (e.key in s.kept <==> e in first)
  }

  /** What an update for `t` may write. */
  function Editable<V(==)>(r: Outcome<V>, t: OwnerID?): set<object> {
    match r
    case Lone(n) => if Mine(r, t) then {n.entry} else {}
    case Several(c) => if Mine(r, t) then {c} else {}
    case _ => {}
  }

  /** `updateNode` for one hash, with or without a node. */
  method UpdateAt<V(==)>(r0: Outcome<V>, t: OwnerID?, h: Word, rehash: Key -> int, e: Edit<V>,
                         ghost s: State<V>, ghost first: seq<Entry<V>>) returns (r: Outcome<V>)
    requires OneHash(r0, h) && e.key.hash == h && Holds(r0, t, s, first)
    modifies Editable(r0, t)
    ensures OneHash(r, h) && Holds(r, t, Next(s, e, t != null), first)
    ensures forall x :: x in Entries(r) ==> x in old(Entries(r0)) || fresh(x)
    ensures r == r0 || (OwnedBy(r, t) && (r.Several? ==> fresh(r.collision)))
  {
    hide EditEntries, Distinct;
    match r0
    case Nothing =>
      EditNothing(e.key, e.value, s.entries);
      if e.value.None? {
        return Nothing;
      }
      var x := new Entry(e.key, e.value.value);
      var n := new ValueNode(t, rehash, x);
      return Lone(n);
    case Lone(n) =>
      r := UpdateLone(n, t, e, s, first);
    case Several(c) =>
      assert c.entries[0] in Entries(r0);
      r := UpdateSeveral(c, t, e, s, first);
  }

  lemma EditNothing<V>(key: Key, v: Option<V>, es: seq<(Key, V)>)
    requires es == []
    ensures EditEntries(es, key, v) == if v.None? then [] else [(key, v.value)]
  {
  }

  method UpdateLone<V(==)>(n: ValueNode<V>, t: OwnerID?, e: Edit<V>, ghost s: State<V>, ghost first: seq<Entry<V>>)
    returns (r: Outcome<V>)
    requires e.key.hash == n.entry.key.hash && Holds(Lone(n), t, s, first)
    modifies Editable(Lone(n), t)
    ensures OneHash(r, e.key.hash) && Holds(r, t, Next(s, e, t != null), first)
    ensures forall x :: x in Entries(r) ==> x == n.entry || fresh(x)
    ensures r == Lone(n) || (OwnedBy(r, t) && (r.Several? ==> fresh(r.collision)))
  {
    hide EditEntries, Distinct;
    assert s.entries == [Pair(n.entry)] && n.entry in Entries(Lone(n));
    EditOne(s.entries, e.key, e.value);
    ghost var q := |first|;
    if n.entry in first {
      q :| 0 <= q < |first| && first[q] == n.entry;
      EditAt(s.seen, q, e.value);
      ApartEntries(first, q);
    }
    r := n.Update(t, e.key, e.value);
    assert Pairs(first) == if q < |first| then s.seen[q := Pair(n.entry)] else s.seen;
  }

  lemma EditOne<V>(es: seq<(Key, V)>, key: Key, v: Option<V>)
    requires |es| == 1
    ensures EditEntries(es, key, v) ==
      if key != es[0].0 then (if v.None? then es else [es[0], (key, v.value)])
      else if v.None? then [] else [(key, v.value)]
  {
  }

  /** Writing one entry keeps the keys and their places. */
  lemma EditAt<V>(es: seq<(Key, V)>, q: nat, v: Option<V>)
    requires Distinct(es) && q < |es|
    ensures v.Some? ==> EditEntries(es, es[q].0, v) == es[q := (es[q].0, v.value)]
    ensures v.Some? ==> Distinct(EditEntries(es, es[q].0, v))
  {
  }

  lemma ApartEntries<V>(es: seq<Entry<V>>, q: nat)
    requires Distinct(Pairs(es)) && q < |es|
    ensures forall i :: 0 <= i < |es| && i != q ==> es[i] != es[q]
  {
    forall i | 0 <= i < |es| && i != q ensures es[i] != es[q] {
      assert Pairs(es)[i].0 != Pairs(es)[q].0;
    }
  }

  method UpdateSeveral<V(==)>(c: CollisionNode<V>, t: OwnerID?, e: Edit<V>, ghost s: State<V>,
                              ghost first: seq<Entry<V>>) returns (r: Outcome<V>)
    requires OneHash(Several(c), e.key.hash) && e.key.hash == c.keyHash && Holds(Several(c), t, s, first)
    modifies Editable(Several(c), t)
    ensures OneHash(r, e.key.hash) && Holds(r, t, Next(s, e, t != null), first)
    ensures forall x :: x in Entries(r) ==> x in old(c.entries) || fresh(x)
    ensures r == Several(c) || (OwnedBy(r, t) && (r.Several? ==> fresh(r.collision)))
  {
    hide EditEntries, Distinct, Indexes;
    var resized, altered;
    r, resized, altered := c.Update(t, e.key, e.value);
    assert Pairs(first) == s.seen;
    ghost var es, after := s.entries, EditEntries(s.entries, e.key, e.value);
    assert |es| >= 2 && !InPlace(s, e);
    ghost var u := Next(s, e, t != null);
    assert u.seen == s.seen && u.entries == after;
    assert Pairs(Entries(r)) == u.entries;
    assert r.Nothing? || (u.own <==> Mine(r, t));
    assert forall x :: x in Entries(r) ==> (x.key in u.kept <==> x in first);
  }

  /** A run of edits for `t`: the result is right, and the first node, which is not
    * the owner's, shows what the state says. */
  method EditRun<V(==)>(r0: Outcome<V>, t: OwnerID?, h: Word, rehash: Key -> int, edits: seq<Edit<V>>)
    returns (r: Outcome<V>)
    requires Sound(r0) && OneHash(r0, h) && !Mine(r0, t)
    requires forall i :: 0 <= i < |edits| ==> edits[i].key.hash == h
    modifies set x | x in Entries(r0)
    ensures Sound(r) && OneHash(r, h) && Pairs(Entries(r)) == After(old(Pairs(Entries(r0))), edits)
    ensures (r == r0 || OwnedBy(r, t)) && forall x :: x in Entries(r) ==> x in Entries(r0) || fresh(x)
    ensures Sound(r0) && OneHash(r0, h) && Entries(r0) == old(Entries(r0))
    ensures Pairs(Entries(r0)) == Run(old(Pairs(Entries(r0))), edits, t != null).seen
  {
    hide EditEntries, Distinct, Indexes, Next, Holds, Run, After, OneHash, Editable;
    ghost var first, es := Entries(r0), Pairs(Entries(r0));
    r := r0;
    FirstHolds(r0, t);
    RunNone(es, edits, t != null);
    for i := 0 to |edits|
      invariant OneHash(r, h) && Holds(r, t, Run(es, edits[..i], t != null), first)
      invariant r == r0 || (OwnedBy(r, t) && (r.Several? ==> fresh(r.collision)))
      invariant forall x :: x in Entries(r) ==> x in first || fresh(x)
      invariant Untouched(r0)
    {
      RunMore(es, edits, i, t != null);
      MayWrite(r, t);
      r := UpdateAt(r, t, h, rehash, edits[i], Run(es, edits[..i], t != null), first);
    }
    assert edits[..|edits|] == edits;
    RunEntries(es, edits, t != null);
    HoldsMeans(r, t, Run(es, edits, t != null), first);
    StillSound(r0);
  }

  lemma RunNone<V>(es: seq<(Key, V)>, edits: seq<Edit<V>>, owner: bool)
    ensures After(es, edits[..0]) == es && Run(es, edits[..0], owner) == Start(es)
  {
  }

  lemma HoldsMeans<V>(r: Outcome<V>, t: OwnerID?, s: State<V>, first: seq<Entry<V>>)
    requires Holds(r, t, s, first)
    ensures Sound(r) && Pairs(Entries(r)) == s.entries && Pairs(first) == s.seen && Distinct(s.seen)
  {
  }

  lemma MayWrite<V>(r: Outcome<V>, t: OwnerID?)
    ensures Editable(r, t) == {} || (Mine(r, t) && r.Several? && Editable(r, t) == {r.collision})
         || (Mine(r, t) && r.Lone? && Editable(r, t) == {r.value.entry} && r.value.entry in Entries(r))
  {
  }

  /** The node itself, apart from the values of its entries. */
  twostate predicate Untouched<V>(r: Outcome<V>)
    reads if r.Several? then {r.collision} else {}
  {
    r.Several? ==> r.collision.entries == old(r.collision.entries) && r.collision.index == old(r.collision.index)
  }

  /** Values do not matter to the index. */
  twostate lemma StillSound<V>(r: Outcome<V>)
    requires old(Sound(r)) && Untouched(r) && Distinct(Pairs(Entries(r)))
    ensures Sound(r)
  {
    if r.Several? && r.collision.index.Some? {
      SameKeysIndexed(r.collision.index.value, old(Pairs(Entries(r))), Pairs(Entries(r)), r.collision.rehash);
    }
  }

  lemma SameKeysIndexed<V>(index: Index, es: seq<(Key, V)>, fs: seq<(Key, V)>, rehash: Key -> int)
    requires Indexes(index, es, rehash) && |es| == |fs| && forall i :: 0 <= i < |es| ==> es[i].0 == fs[i].0
    ensures Indexes(index, fs, rehash)
  {
    forall c ensures Lists(Listed(index, c), fs, rehash, c) {
      assert Lists(Listed(index, c), es, rehash, c);
    }
  }

  lemma FirstHolds<V>(r0: Outcome<V>, t: OwnerID?)
    requires Sound(r0) && !Mine(r0, t)
    ensures var es := Pairs(Entries(r0)); Holds(r0, t, Start(es), Entries(r0))
  {
    var es := Pairs(Entries(r0));
    forall x | x in Entries(r0) ensures x.key in Keys(es) {
      var i :| 0 <= i < |Entries(r0)| && Entries(r0)[i] == x;
      assert es[i].0 == x.key;
    }
  }

  lemma RunMore<V>(es: seq<(Key, V)>, edits: seq<Edit<V>>, i: nat, owner: bool)
    requires i < |edits|
    ensures Run(es, edits[..i + 1], owner) == Next(Run(es, edits[..i], owner), edits[i], owner)
    ensures After(es, edits[..i + 1]) == EditEntries(After(es, edits[..i]), edits[i].key, edits[i].value)
    ensures After(es, edits[..0]) == es && Run(es, edits[..0], owner) == Start(es)
  {
    assert edits[..i + 1][..i] == edits[..i];
  }

  lemma {:induction false} RunEntries<V>(es: seq<(Key, V)>, edits: seq<Edit<V>>, owner: bool)
    ensures Run(es, edits, owner).entries == After(es, edits)
    decreases |edits|
  {
    hide EditEntries;
    if edits != [] {
      RunEntries(es, edits[..|edits| - 1], owner);
    }
  }

  // ------------------------------------------------- when the first node changes

  /** What the first node shows after a run for an owner. */
  function Seen<V(==)>(es: seq<(Key, V)>, edits: seq<Edit<V>>): seq<(Key, V)> {
    Run(es, edits, true).seen
  }

  /** Edit `j` gives another value to the only entry, which has been there all along,
    * after something else has changed. */
  ghost predicate WritesAt<V>(es: seq<(Key, V)>, edits: seq<Edit<V>>, j: nat)
    requires j < |edits|
  {
    var now, e := After(es, edits[..j]), edits[j];
    && |now| == 1 && now[0].0 == e.key && e.value.Some? && e.value.value != now[0].1
    && AllAlong(es, edits, j, now[0])
    && Changed(es, edits, j)
  }

  ghost predicate AllAlong<V>(es: seq<(Key, V)>, edits: seq<Edit<V>>, j: nat, x: (Key, V))
    requires j <= |edits|
  {
    forall i :: 0 <= i <= j ==> x in After(es, edits[..i])
  }

  ghost predicate Changed<V>(es: seq<(Key, V)>, edits: seq<Edit<V>>, j: nat)
    requires j <= |edits|
  {
    exists i :: 0 <= i <= j && After(es, edits[..i]) != es
  }

  /** Some edit writes into the first node. */
  ghost predicate WritesShared<V>(es: seq<(Key, V)>, edits: seq<Edit<V>>) {
    exists j :: 0 <= j < |edits| && WritesAt(es, edits, j)
  }

  /** The same in terms of the state before the edit. */
  predicate WritesKept<V(==)>(s: State<V>, e: Edit<V>) {
    InPlace(s, e) && e.key in s.kept
  }

  ghost predicate Quiet<V>(es: seq<(Key, V)>, edits: seq<Edit<V>>, j: nat)
    requires j <= |edits|
  {
    forall i :: 0 <= i < j ==> !WritesKept(Run(es, edits[..i], true), edits[i])
  }

  /** As long as nothing is written, what has stayed is what has been there all along. */
  lemma {:induction false} KeptIs<V>(es: seq<(Key, V)>, edits: seq<Edit<V>>, j: nat)
    requires Distinct(es) && j <= |edits| && Quiet(es, edits, j)
    ensures var s := Run(es, edits[..j], true);
      && s.seen == es && s.entries == After(es, edits[..j]) && Distinct(s.entries)
      && (s.own <==> Changed(es, edits, j))
      && forall x :: x in s.entries ==> (x.0 in s.kept <==> AllAlong(es, edits, j, x))
  {
    hide EditEntries, Distinct;
    if j == 0 {
      KeptFirst(es, edits);
    } else {
      KeptIs(es, edits, j - 1);
      RunMore(es, edits, j - 1, true);
      var s, e := Run(es, edits[..j - 1], true), edits[j - 1];
      EditFacts(s.entries, e.key, e.value);
      ChangedMore(es, edits, j);
      forall x | x in After(es, edits[..j])
        ensures x.0 in Run(es, edits[..j], true).kept <==> AllAlong(es, edits, j, x)
      {
        KeptStep(s, e, x);
        AlongMore(es, edits, j, x);
      }
    }
  }

  lemma KeptFirst<V>(es: seq<(Key, V)>, edits: seq<Edit<V>>)
    ensures After(es, edits[..0]) == es && Run(es, edits[..0], true) == Start(es)
    ensures !Changed(es, edits, 0) && forall x :: x in es ==> x.0 in Keys(es) && AllAlong(es, edits, 0, x)
  {
  }

  lemma ChangedMore<V>(es: seq<(Key, V)>, edits: seq<Edit<V>>, j: nat)
    requires 0 < j <= |edits|
    ensures Changed(es, edits, j) <==> Changed(es, edits, j - 1) || After(es, edits[..j]) != After(es, edits[..j - 1])
  {
  }

  lemma AlongMore<V>(es: seq<(Key, V)>, edits: seq<Edit<V>>, j: nat, x: (Key, V))
    requires 0 < j <= |edits|
    ensures AllAlong(es, edits, j, x) <==> AllAlong(es, edits, j - 1, x) && x in After(es, edits[..j])
    ensures AllAlong(es, edits, j - 1, x) ==> x in After(es, edits[..j - 1])
  {
  }

  /** An entry of the new state is kept exactly when it was there and kept. */
  lemma KeptStep<V>(s: State<V>, e: Edit<V>, x: (Key, V))
    requires Distinct(s.entries) && !WritesKept(s, e)
    requires x in Next(s, e, true).entries
    ensures x.0 in Next(s, e, true).kept <==> x in s.entries && x.0 in s.kept
  {
  }

  /** For every run, the first node shows what it did all the time if and only if no
    * edit writes the only entry while it is one that has been there all along. */
  lemma SeenThroughout<V>(es: seq<(Key, V)>, edits: seq<Edit<V>>)
    requires Distinct(es)
    ensures (forall i :: 0 <= i <= |edits| ==> Seen(es, edits[..i]) == es) <==> !WritesShared(es, edits)
  {
    hide Run, WritesAt, WritesKept, Distinct;
    if Quiet(es, edits, |edits|) {
      forall i | 0 <= i <= |edits| ensures Seen(es, edits[..i]) == es {
        QuietSeen(es, edits, i);
      }
      forall j | 0 <= j < |edits| ensures !WritesAt(es, edits, j) {
        FirstWrite(es, edits, j);
      }
    } else {
      var j := FirstNoise(es, edits);
      FirstWrite(es, edits, j);
      assert Seen(es, edits[..j + 1]) != es;
    }
  }

  lemma QuietSeen<V>(es: seq<(Key, V)>, edits: seq<Edit<V>>, i: nat)
    requires Distinct(es) && i <= |edits| && Quiet(es, edits, i)
    ensures Seen(es, edits[..i]) == es
  {
    KeptIs(es, edits, i);
  }

  lemma {:induction false} FirstNoise<V>(es: seq<(Key, V)>, edits: seq<Edit<V>>) returns (j: nat)
    requires !Quiet(es, edits, |edits|)
    ensures j < |edits| && Quiet(es, edits, j) && WritesKept(Run(es, edits[..j], true), edits[j])
  {
    hide Run, WritesKept;
    j := 0;
    while !WritesKept(Run(es, edits[..j], true), edits[j])
      invariant j < |edits| && Quiet(es, edits, j)
      decreases |edits| - j
    {
      j := j + 1;
    }
  }

  /** Both ways of saying that edit `j` writes, when none before did. */
  lemma FirstWrite<V>(es: seq<(Key, V)>, edits: seq<Edit<V>>, j: nat)
    requires Distinct(es) && j < |edits| && Quiet(es, edits, j)
    ensures WritesAt(es, edits, j) <==> WritesKept(Run(es, edits[..j], true), edits[j])
    ensures WritesAt(es, edits, j) ==> Seen(es, edits[..j + 1]) != es
  {
    hide EditEntries, Distinct, Run, AllAlong, Changed;
    KeptIs(es, edits, j);
    RunMore(es, edits, j, true);
    if WritesAt(es, edits, j) {
      var x := After(es, edits[..j])[0];
      OriginallyIn(es, edits, j, x);
      EditShows(es, x, edits[j].value.value);
      EditOne(After(es, edits[..j]), edits[j].key, edits[j].value);
    }
  }

  lemma OriginallyIn<V>(es: seq<(Key, V)>, edits: seq<Edit<V>>, j: nat, x: (Key, V))
    requires j <= |edits| && AllAlong(es, edits, j, x)
    ensures x in es
  {
    assert After(es, edits[..0]) == es;
  }

  lemma EditShows<V>(es: seq<(Key, V)>, x: (Key, V), v: V)
    requires Distinct(es) && x in es && v != x.1
    ensures EditEntries(es, x.0, Some(v)) != es
  {
    EditFacts(es, x.0, Some(v));
    var i :| 0 <= i < |es| && es[i] == x;
    assert Find(es, x.0) == i;
  }

  // ------------------------------------------------------- at the end of a run

  /** The last edit that wrote into the first node. */
  function LastWritten<V(==)>(es: seq<(Key, V)>, edits: seq<Edit<V>>): Option<Edit<V>> {
    if edits == [] then None
    else
      var before, e := edits[..|edits| - 1], edits[|edits| - 1];
      if WritesKept(Run(es, before, true), e) then Some(e) else LastWritten(es, before)
  }

  /** After every run, the first node differs in one entry at most, which shows what
    * was written last. */
  lemma {:induction false} SeenIs<V>(es: seq<(Key, V)>, edits: seq<Edit<V>>)
    requires Distinct(es)
    ensures match LastWritten(es, edits)
      case None => Seen(es, edits) == es
      case Some(e) => e.key in Keys(es) && e.value.Some? && Seen(es, edits) == EditEntries(es, e.key, e.value)
    ensures Distinct(Run(es, edits, true).entries)
    ensures Run(es, edits, true).kept <= Keys(Run(es, edits, true).entries) * Keys(es)
    ensures LastWritten(es, edits).Some? ==> Run(es, edits, true).kept <= {LastWritten(es, edits).value.key}
    decreases |edits|
  {
    hide EditEntries, Distinct, Keys;
    if edits != [] {
      var before, e := edits[..|edits| - 1], edits[|edits| - 1];
      SeenIs(es, before);
      var s := Run(es, before, true);
      EditFacts(s.entries, e.key, e.value);
      EditKeys(s.entries, e);
      if WritesKept(s, e) {
        OnlyKey(s.entries);
        match LastWritten(es, before)
        case Some(d) => EditAgain(es, e.key, d.value, e.value);
        case None =>
      }
    }
  }

  lemma OnlyKey<V>(es: seq<(Key, V)>)
    requires |es| == 1
    ensures Keys(es) == {es[0].0}
  {
  }

  lemma EditKeys<V>(es: seq<(Key, V)>, e: Edit<V>)
    requires Distinct(es)
    ensures Keys(es) - {e.key} <= Keys(EditEntries(es, e.key, e.value))
    ensures e.value.Some? ==> Keys(es) <= Keys(EditEntries(es, e.key, e.value))
  {
    var after, p := EditEntries(es, e.key, e.value), Find(es, e.key);
    forall k | k in Keys(es) && (k != e.key || e.value.Some?) ensures k in Keys(after) {
      var i :| 0 <= i < |es| && es[i].0 == k;
      var j := if e.value.None? && p < |es| && i == |es| - 1 then p else i;
      assert after[j].0 == k;
    }
  }

  lemma EditAgain<V>(es: seq<(Key, V)>, key: Key, v: Option<V>, w: Option<V>)
    requires Distinct(es) && key in Keys(es) && v.Some? && w.Some?
    ensures EditEntries(EditEntries(es, key, v), key, w) == EditEntries(es, key, w)
  {
    var i :| 0 <= i < |es| && es[i].0 == key;
    EditAt(es, i, v);
    EditAt(es, i, w);
    EditAt(es[i := (key, v.value)], i, w);
  }

  /** So it shows what it did exactly when that is its old value. */
  lemma SeenAtEnd<V>(es: seq<(Key, V)>, edits: seq<Edit<V>>)
    requires Distinct(es)
    ensures Seen(es, edits) == es <==>
      match LastWritten(es, edits)
      case None => true
      case Some(e) => e.value.Some? && (e.key, e.value.value) in es
  {
    SeenIs(es, edits);
    match LastWritten(es, edits)
    case None =>
    case Some(e) =>
      EditFacts(es, e.key, e.value);
      if (e.key, e.value.value) in es {
        var i :| 0 <= i < |es| && es[i] == (e.key, e.value.value);
        assert Find(es, e.key) == i;
      } else {
        assert EditEntries(es, e.key, e.value)[Find(es, e.key)] == (e.key, e.value.value);
      }
  }

  /** Two edits that start from several entries write exactly when the first leaves one
    * of two entries and the second gives it another value. */
  lemma TwoEdits<V>(es: seq<(Key, V)>, d: Edit<V>, e: Edit<V>)
    requires Distinct(es) && |es| >= 2
    ensures WritesShared(es, [d, e]) <==>
      && LeavesOne(es, d.key, d.value) && e.value.Some?
      && var x := es[1 - Find(es, d.key)]; x.0 == e.key && x.1 != e.value.value
  {
    EditFacts(es, d.key, d.value);
    var edits := [d, e];
    assert edits[..1] == [d] && [d][..0] == [];
    assert After(es, edits[..0]) == es;
    assert After(es, edits[..1]) == EditEntries(es, d.key, d.value);
    hide EditEntries;
    assert !WritesAt(es, edits, 0);
    if LeavesOne(es, d.key, d.value) {
      assert Changed(es, edits, 1);
      assert AllAlong(es, edits, 1, es[1 - Find(es, d.key)]);
    }
    assert WritesShared(es, edits) <==> WritesAt(es, edits, 1);
  }

  // --------------------------------------------------------- failing inputs

  const KEY1: Key := Key(1, 0)
  const KEY2: Key := Key(2, 0)

  lemma RunSteps<V>(es: seq<(Key, V)>, a: Edit<V>, b: Edit<V>, c: Edit<V>)
    ensures Run(es, [a, b], true) == Next(Next(Start(es), a, true), b, true)
    ensures Run(es, [a, b, c], true) == Next(Next(Next(Start(es), a, true), b, true), c, true)
    ensures After(es, [a]) == EditEntries(es, a.key, a.value)
    ensures After(es, [a, b]) == EditEntries(EditEntries(es, a.key, a.value), b.key, b.value)
  {
    hide EditEntries, Next;
    assert [a, b, c][..2] == [a, b] && [a, b][..1] == [a] && [a][..0] == [];
    assert Run(es, [a], true) == Next(Start(es), a, true);
  }

  lemma TwoBuilt()
    ensures After([], [Edit(KEY1, Some(1))]) == [(KEY1, 1)]
    ensures After([], [Edit(KEY1, Some(1)), Edit(KEY2, Some(2))]) == [(KEY1, 1), (KEY2, 2)]
  {
    RunSteps([], Edit(KEY1, Some(1)), Edit(KEY2, Some(2)), Edit(KEY1, None));
  }

  lemma TwoSeen()
    ensures Seen([(KEY1, 1), (KEY2, 2)], [Edit(KEY1, None), Edit(KEY2, Some(3))]) == [(KEY1, 1), (KEY2, 3)]
  {
    var es := [(KEY1, 1), (KEY2, 2)];
    RunSteps(es, Edit(KEY1, None), Edit(KEY2, Some(3)), Edit(KEY1, None));
    assert EditEntries(es, KEY1, None) == [(KEY2, 2)];
    assert es[1].0 in Keys(es);
    assert EditEntries(es, KEY2, Some(3)) == [(KEY1, 1), (KEY2, 3)];
  }

  lemma OneSeen()
    ensures Seen([(KEY1, 1)], [Edit(KEY2, Some(2)), Edit(KEY2, None), Edit(KEY1, Some(3))]) == [(KEY1, 3)]
  {
    var es := [(KEY1, 1)];
    RunSteps(es, Edit(KEY2, Some(2)), Edit(KEY2, None), Edit(KEY1, Some(3)));
    assert EditEntries(es, KEY2, Some(2)) == [(KEY1, 1), (KEY2, 2)];
    assert EditEntries([(KEY1, 1), (KEY2, 2)], KEY2, None) == es;
    assert es[0].0 in Keys(es);
    assert EditEntries(es, KEY1, Some(3)) == [(KEY1, 3)];
  }

  /** Two immutable sets of keys with one hash, then a copy for an owner: removing the
    * first key and setting the second changes the second in the first node. */
  method OriginalChanges() returns (before: seq<(Key, int)>, after: seq<(Key, int)>)
    ensures before == [(KEY1, 1), (KEY2, 2)] && after == [(KEY1, 1), (KEY2, 3)]
  {
    hide EditEntries, After, Run;
    TwoBuilt();
    TwoSeen();
    var c := EditRun(Nothing, null, 0, _ => 0, [Edit(KEY1, Some(1)), Edit(KEY2, Some(2))]);
    var t := new OwnerID();
    assert Entries<int>(Nothing) == [] && forall x :: x in Entries(c) ==> fresh(x);
    before := Pairs(Entries(c));
    var _ := EditRun(c, t, 0, _ => 0, [Edit(KEY1, None), Edit(KEY2, Some(3))]);
    after := Pairs(Entries(c));
  }

  /** One immutable set, then a copy for an owner: another key with that hash comes and
    * goes, and setting the first key changes it in the first node. */
  method LoneChanges() returns (before: seq<(Key, int)>, after: seq<(Key, int)>)
    ensures before == [(KEY1, 1)] && after == [(KEY1, 3)]
  {
    hide EditEntries, After, Run;
    TwoBuilt();
    OneSeen();
    var n := EditRun(Nothing, null, 0, _ => 0, [Edit(KEY1, Some(1))]);
    var t := new OwnerID();
    assert Entries<int>(Nothing) == [] && forall x :: x in Entries(n) ==> fresh(x);
    before := Pairs(Entries(n));
    var _ := EditRun(n, t, 0, _ => 0, [Edit(KEY2, Some(2)), Edit(KEY2, None), Edit(KEY1, Some(3))]);
    after := Pairs(Entries(n));
  }
}
