/** A run after which a removed entry of an `OrderedMap` shows again: 65 keys are
  * set, 33 removed from the end, and one more is set. */
module OrderedMapStale {
  import opened Wrappers
  import opened Lists
  import opened ListStale
  import opened TrieNodes
  import opened OrderedMaps
  import opened OrderedMapLaws
  import ListOps
  import HashMaps

  /** The entry that removal number `i` takes: 63 and 64, then 62 down to 32. */
  function Taken(i: nat): nat
    requires i < 33
  {
    if i == 0 then 63 else 64 - if i == 1 then 0 else i
  }

  function OpAt<V>(es: seq<Entry<V>>, i: nat): Op<V>
    requires |es| == 65 && i < 98
  {
    if i < 65 then SetOp(es[i].0, es[i].1) else RemoveOp(es[Taken(i - 65)].0)
  }

  /** The first `n` calls of the run. */
  function History<V>(es: seq<Entry<V>>, n: nat): seq<Op<V>>
    requires |es| == 65 && n <= 98
  {
    if n == 0 then [] else History(es, n - 1) + [OpAt(es, n - 1)]
  }

  function ListAfter<V>(es: seq<Entry<V>>, n: nat): List<Entry<V>>
    requires |es| == 65 && n <= 98
  {
    if n <= 65 then Built(es[..n]) else if n == 66 then Cleared63(es) else Emptied(es, 130 - n)
  }

  function SizeAfter(n: nat): int {
    if n <= 65 then n else 130 - n
  }

  function EmptyOrderedMap<V>(): OrderedMap<V> {
    OrderedMap(HashMaps.EmptyMap(), Empty())
  }

  lemma {:induction false} RunMore<V>(m: OrderedMap<V>, ops: seq<Op<V>>, op: Op<V>)
    requires Agree(m) && FewHoles(m) && Run(m, ops).Some?
    requires Agree(Run(m, ops).value) && Safe(Run(m, ops).value, op)
    ensures Run(m, ops + [op]) == Some(Apply(Run(m, ops).value, op).value)
    decreases |ops|
  {
    hide FewHoles, Apply, Agree;
    if ops == [] {
      StepLaw(m, op);
      assert ([] + [op])[1..] == [] && ([] + [op])[0] == op;
      assert Run(m, []) == Some(m);
    } else {
      assert (ops + [op])[1..] == ops[1..] + [op] && (ops + [op])[0] == ops[0];
      StepLaw(m, ops[0]);
      RunMore(Apply(m, ops[0]).value, ops[1..], op);
    }
  }

  // ------------------------------------------------------------- one call

  /** Whether entry `i` is still there after `n` calls. */
  predicate Present(n: nat, i: nat) {
    if n <= 65 then i < n else if n == 66 then i < 65 && i != 63 else i < 130 - n
  }

  ghost function KeysAfter<V>(es: seq<Entry<V>>, n: nat): set<Key> {
    set i | 0 <= i < |es| && Present(n, i) :: es[i].0
  }

  ghost predicate AfterCalls<V>(m: OrderedMap<V>, es: seq<Entry<V>>, n: nat)
    requires |es| == 65 && n <= 98
  {
    && Agree(m) && FewHoles(m)
    && m.list == ListAfter(es, n) && m.index.size == SizeAfter(n)
    && HashMaps.Model(m.index).Keys == KeysAfter(es, n)
  }

  lemma AddStep<V>(m: OrderedMap<V>, es: seq<Entry<V>>, n: nat)
    requires |es| == 65 && n < 65 && Distinct(es) && AfterCalls(m, es, n)
    ensures Safe(m, OpAt(es, n)) && AfterCalls(Apply(m, OpAt(es, n)).value, es, n + 1)
  {
    hide HashMaps.Model, HashMaps.Set, HashMaps.RootWF, Built, StaleTail, ListOps.Push, Contents, KeysAfter, Distinct;
    var e := es[n];
    assert es[..n + 1] == es[..n] + [e];
    BuiltValid(es[..n]);
    BuiltCapacity(es[..n]);
    PushBuilt(es[..n], e);
    KeysWith(es, n);
    IndexLaw(m, e.0);
    StepLaw(m, OpAt(es, n));
    IndexSet(m.index, e.0, n);
  }

  lemma KeysWith<V>(es: seq<Entry<V>>, n: nat)
    requires |es| == 65 && n < 65 && Distinct(es)
    ensures es[n].0 !in KeysAfter(es, n) && KeysAfter(es, n + 1) == KeysAfter(es, n) + {es[n].0}
  {
  }

  /** The index of a removed entry, and what the list is without it. */
  lemma Shown<V>(es: seq<Entry<V>>, n: nat)
    requires |es| == 65 && 65 <= n < 98
    ensures var l, j := ListAfter(es, n), Taken(n - 65);
      && Valid(l) && j < Lists.Size(l) && l.origin == 0
      && Lists.Size(l) == (if n <= 66 then 65 else 64)
      && ListAt(l, j) == Some(es[j])
      && (n == 66 ==> ListOps.Pop(l) == Ok(ListAfter(es, n + 1)))
      && (n != 66 ==> ListOps.Set(l, j, None) == ListAfter(es, n + 1))
  {
    assert es[..65] == es;
    if n == 65 {
      BuiltValid(es);
      Clear63(es);
      BuiltShows63(es);
    } else if n == 66 {
      ShapesValid(es, 63);
      PopCleared(es);
      ClearedShows64(es);
    } else {
      ShapesValid(es, 130 - n);
      ClearLast(es, 129 - n);
      EmptiedShows(es, 129 - n);
    }
  }

  lemma TakeStep<V>(m: OrderedMap<V>, es: seq<Entry<V>>, n: nat)
    requires |es| == 65 && 65 <= n < 98 && Distinct(es) && AfterCalls(m, es, n)
    ensures Safe(m, OpAt(es, n)) && AfterCalls(Apply(m, OpAt(es, n)).value, es, n + 1)
  {
    hide HashMaps.Model, HashMaps.Remove, HashMaps.RootWF, ListAfter, ListAt;
    hide ListOps.Pop, ListOps.Set, KeysAfter, Distinct;
    var j := Taken(n - 65);
    var key := es[j].0;
    Shown(es, n);
    assert Contents(m.list)[j] == Some(es[j]);
    IndexLaw(m, key);
    hide Contents;
    StepLaw(m, OpAt(es, n));
    IndexRemove(m.index, key);
    KeysWithout(es, n);
  }

  lemma KeysWithout<V>(es: seq<Entry<V>>, n: nat)
    requires |es| == 65 && 65 <= n < 98 && Distinct(es)
    ensures KeysAfter(es, n + 1) == KeysAfter(es, n) - {es[Taken(n - 65)].0}
  {
    var j := Taken(n - 65);
    assert forall i :: 0 <= i < 65 ==> (Present(n + 1, i) <==> Present(n, i) && i != j);
  }

  // ------------------------------------------------------------ the whole run

  /** `m` is what the first `n` calls make of an empty ordered map. */
  ghost predicate Reached<V>(m: OrderedMap<V>, es: seq<Entry<V>>, n: nat)
    requires |es| == 65 && n <= 98
  {
    var m0 := EmptyOrderedMap<V>();
    Agree(m0) && FewHoles(m0) && Run(m0, History(es, n)) == Some(m)
  }

  lemma ReachedMore<V>(m: OrderedMap<V>, es: seq<Entry<V>>, n: nat)
    requires |es| == 65 && n < 98 && Reached(m, es, n) && Agree(m) && Safe(m, OpAt(es, n))
    ensures Reached(Apply(m, OpAt(es, n)).value, es, n + 1)
  {
    hide Agree, FewHoles, Run, Apply, Safe, OpAt;
    RunMore(EmptyOrderedMap<V>(), History(es, n), OpAt(es, n));
  }

  lemma {:induction false} AllCalls<V>(es: seq<Entry<V>>, n: nat) returns (m: OrderedMap<V>)
    requires |es| == 65 && n <= 98 && Distinct(es)
    ensures Reached(m, es, n) && AfterCalls(m, es, n)
    decreases n
  {
    if n == 0 {
      m := EmptyOrderedMap();
      EmptyReached(es);
    } else {
      hide Reached, AfterCalls, Safe, Apply, OpAt, Agree;
      m := AllCalls(es, n - 1);
      if n <= 65 {
        AddStep(m, es, n - 1);
      } else {
        TakeStep(m, es, n - 1);
      }
      AfterAgrees(m, es, n - 1);
      ReachedMore(m, es, n - 1);
      m := Apply(m, OpAt(es, n - 1)).value;
    }
  }

  lemma EmptyReached<V>(es: seq<Entry<V>>)
    requires |es| == 65
    ensures Reached(EmptyOrderedMap(), es, 0) && AfterCalls(EmptyOrderedMap(), es, 0)
  {
    hide HashMaps.Model, Contents, Agree, FewHoles, Run;
    EmptyAgrees<V>();
    assert es[..0] == [];
    assert KeysAfter(es, 0) == {};
    RunNone(EmptyOrderedMap<V>());
  }

  lemma RunNone<V>(m: OrderedMap<V>)
    requires Agree(m) && FewHoles(m)
    ensures Run(m, []) == Some(m)
  {
    hide Agree, FewHoles;
  }

  lemma AfterAgrees<V>(m: OrderedMap<V>, es: seq<Entry<V>>, n: nat)
    requires |es| == 65 && n <= 98 && AfterCalls(m, es, n)
    ensures Agree(m) && FewHoles(m)
  {}

  lemma EmptyAgrees<V>()
    ensures Agree(EmptyOrderedMap<V>()) && FewHoles(EmptyOrderedMap<V>())
    ensures HashMaps.Model(EmptyOrderedMap<V>().index) == map[]
  {
    assert Contents(Empty<Entry<V>>()) == [];
  }

  /** After 98 calls that keep everything in agreement, setting a new key makes
    * the removed entry 32 show in the iteration, while `get` does not find it. */
  lemma RemovedReappears<V>(es: seq<Entry<V>>, e: Entry<V>) returns (m: OrderedMap<V>)
    requires |es| == 65 && Distinct(es) && forall i :: 0 <= i < 65 ==> es[i].0 != e.0
    ensures Reached(m, es, 98)
    ensures Agree(m) && es[32] !in Entries(m) && OrderedMaps.Set(m, e.0, e.1).Ok?
    ensures var r := OrderedMaps.Set(m, e.0, e.1).value;
      !Agree(r) && Lists.Size(r.list) >= 0 && es[32] in Entries(r) && OrderedMaps.Get(r, es[32].0) == None
  {
    hide Reached, AfterCalls, Agree, Entries, OrderedMaps.Set, OrderedMaps.Get, Contents;
    m := AllCalls(es, 98);
    FinalSet(m, es, e);
  }

  lemma FinalSet<V>(m: OrderedMap<V>, es: seq<Entry<V>>, e: Entry<V>)
    requires |es| == 65 && Distinct(es) && forall i :: 0 <= i < 65 ==> es[i].0 != e.0
    requires AfterCalls(m, es, 98)
    ensures Agree(m) && es[32] !in Entries(m) && OrderedMaps.Set(m, e.0, e.1).Ok?
    ensures var r := OrderedMaps.Set(m, e.0, e.1).value;
      !Agree(r) && Lists.Size(r.list) >= 0 && es[32] in Entries(r) && OrderedMaps.Get(r, es[32].0) == None
  {
    hide HashMaps.Model, HashMaps.Set, HashMaps.RootWF, ListAt, ListOps.Push, StaleTail, HashMaps.Get;
    ShapesValid(es, 32);
    PushShows(es, e);
    IndexLaw(m, e.0);
    IndexLaw(m, es[32].0);
    GetEntry(m, es[32].0, es[32].1);
    SetNew(m, e.0, e.1);
    IndexSet(m.index, e.0, 64);
    var r := OrderedMaps.Set(m, e.0, e.1).value;
    HashMaps.GetModel(r.index, es[32].0);
    assert Contents(r.list)[32] == Some(es[32]);
    LiveHas(Contents(r.list), 32);
  }
}
