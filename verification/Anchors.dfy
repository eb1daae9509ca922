/** The loader's anchor map under speculative parsing: each attempt keeps a log
  * of the entries it overwrites, so that giving up can undo them. */
module Anchors {
  import opened Wrappers

  /** What an entry held before the attempt; `None` when it did not exist. */
  type Log<V> = map<string, Option<V>>

  function Lookup<V>(m: map<string, V>, k: string): Option<V> {
    if k in m then Some(m[k]) else None
  }

  /** `m` with every logged entry put back. */
  function Undo<V>(m: map<string, V>, log: Log<V>): map<string, V> {
    map k | k in m.Keys + log.Keys && (k in log ==> log[k].Some?) :: if k in log then log[k].value else m[k]
  }

  /** The map before transaction `k` began. */
  function Before<V>(m: map<string, V>, logs: seq<Log<V>>, k: nat): map<string, V>
    requires k <= |logs|
    decreases |logs| - k
  {
    if k == |logs| then m else Undo(Before(m, logs, k + 1), logs[k])
  }

  /** `Before` undoes the later logs first. */
  lemma {:induction false} BeforeLast<V>(m: map<string, V>, logs: seq<Log<V>>, k: nat)
    requires k < |logs|
    ensures Before(m, logs, k) == Before(Undo(m, logs[|logs| - 1]), logs[..|logs| - 1], k)
    decreases |logs| - k
  {
    var n := |logs| - 1;
    if k < n {
      BeforeLast(m, logs, k + 1);
    } else {
      assert Before(m, logs, k + 1) == m;
    }
  }

  lemma UndoAfterStore<V>(m: map<string, V>, log: Log<V>, k: string, v: V)
    ensures var log' := if k in log then log else log[k := Lookup(m, k)];
      Undo(m[k := v], log') == Undo(m, log)
  {}

  /** The log of a committed attempt, under the entries its parent already has. */
  lemma UndoMerged<V>(m: map<string, V>, inner: Log<V>, outer: Log<V>)
    ensures Undo(Undo(m, inner), outer) == Undo(m, inner + outer)
  {}

  class AnchorMap<V> {
    var anchorMap: map<string, V>
    var transactions: seq<Log<V>>
    /** The anchor map at the begin of each open transaction. */
    ghost var saved: seq<map<string, V>>

    /** Undoing the logs leads back to every begin. */
    ghost predicate Valid()
      reads this
    {
      && |saved| == |transactions|
      && forall k :: 0 <= k < |saved| ==> Before(anchorMap, transactions, k) == saved[k]
    }

    constructor ()
      ensures Valid() && anchorMap == map[] && saved == []
    {
      anchorMap, transactions, saved := map[], [], [];
    }

    /** `storeAnchor` */
    method Store(k: string, v: V)
      requires Valid()
      modifies this
      ensures Valid() && anchorMap == old(anchorMap)[k := v] && saved == old(saved)
    {
      var n := |transactions|;
      if n != 0 {
        var log := transactions[n - 1];
        if k !in log {
          transactions := transactions[n - 1 := log[k := Lookup(anchorMap, k)]];
        }
        UndoAfterStore(anchorMap, log, k, v);
      }
      anchorMap := anchorMap[k := v];
      forall i | 0 <= i < |saved| ensures Before(anchorMap, transactions, i) == saved[i] {
        BeforeLast(anchorMap, transactions, i);
        BeforeLast(old(anchorMap), old(transactions), i);
        assert transactions[..n - 1] == old(transactions)[..n - 1];
      }
    }

    /** `beginAnchorTransaction` */
    method Begin()
      requires Valid()
      modifies this
      ensures Valid() && anchorMap == old(anchorMap) && saved == old(saved) + [old(anchorMap)]
    {
      transactions := transactions + [map[]];
      saved := saved + [anchorMap];
      forall i | 0 <= i < |saved| ensures Before(anchorMap, transactions, i) == saved[i] {
        BeforeLast(anchorMap, transactions, i);
        assert transactions[..|saved| - 1] == old(transactions);
        assert Undo(anchorMap, map[]) == anchorMap;
      }
    }

    /** `Object.keys`, in some order. */
    method Keys(log: Log<V>) returns (keys: seq<string>)
      ensures forall k :: k in keys <==> k in log
    {
      keys := [];
      var rest := log.Keys;
      while rest != {}
        invariant rest <= log.Keys
        invariant forall k :: k in keys <==> k in log.Keys - rest
        decreases rest
      {
        var k :| k in rest;
        keys, rest := keys + [k], rest - {k};
      }
    }

    /** `commitAnchorTransaction` */
    method Commit()
      requires Valid() && transactions != []
      modifies this
      ensures Valid() && anchorMap == old(anchorMap) && saved == old(saved)[..|old(saved)| - 1]
    {
      var n := |transactions| - 1;
      var log := transactions[n];
      transactions := transactions[..n];
      saved := saved[..n];
      if n == 0 {
        return;
      }
      var outer := transactions[n - 1];
      var keys := Keys(log);
      var merged := outer;
      for i := 0 to |keys|
        invariant forall k :: k in merged <==> k in outer || k in keys[..i]
        invariant forall k :: k in merged ==> merged[k] == if k in outer then outer[k] else log[k]
      {
        if keys[i] !in merged {
          merged := merged[keys[i] := log[keys[i]]];
        }
      }
      assert keys[..|keys|] == keys;
      assert merged == log + outer;
      transactions := transactions[n - 1 := merged];
      UndoMerged(anchorMap, log, outer);
      forall i | 0 <= i < n ensures Before(anchorMap, transactions, i) == saved[i] {
        MergedBefore(anchorMap, old(transactions), transactions, i);
      }
    }

    /** `rollbackAnchorTransaction` */
    method Rollback()
      requires Valid() && transactions != []
      modifies this
      ensures Valid() && anchorMap == old(saved)[|old(saved)| - 1] && saved == old(saved)[..|old(saved)| - 1]
    {
      hide UndoKeys, Undo, Before;
      var n := |transactions| - 1;
      var log := transactions[n];
      transactions := transactions[..n];
      saved := saved[..n];
      var keys := Keys(log);
      NothingUndone(anchorMap, log);
      assert keys[|keys|..] == [];
      for i := |keys| downto 0
        invariant transactions == old(transactions)[..n] && saved == old(saved)[..n]
        invariant anchorMap == UndoKeys(old(anchorMap), log, keys[i..])
      {
        var k := keys[i];
        assert keys[i..] == [k] + keys[i + 1..];
        OneUndone(old(anchorMap), log, k, keys[i + 1..]);
        match log[k] {
          case Some(v) => anchorMap := anchorMap[k := v];
          case None => anchorMap := anchorMap - {k};
        }
      }
      assert keys[0..] == keys;
      AllUndone(old(anchorMap), log, keys);
      BeforeNone(anchorMap, transactions);
      forall i | 0 <= i <= n
        ensures Before(old(anchorMap), old(transactions), i) == Before(anchorMap, transactions, i)
      {
        BeforeTop(old(anchorMap), old(transactions), i);
      }
    }
  }

  lemma BeforeNone<V>(m: map<string, V>, logs: seq<Log<V>>)
    ensures Before(m, logs, |logs|) == m
  {}

  /** `Before` without the last log. */
  lemma BeforeTop<V>(m: map<string, V>, logs: seq<Log<V>>, k: nat)
    requires logs != [] && k < |logs|
    ensures Before(m, logs, k) == Before(Undo(m, logs[|logs| - 1]), logs[..|logs| - 1], k)
  {
    BeforeLast(m, logs, k);
  }

  /** The logged entries among `keys` put back. */
  function UndoKeys<V>(m: map<string, V>, log: Log<V>, keys: seq<string>): map<string, V>
    requires forall k :: k in keys ==> k in log
  {
    map k | k in m.Keys + log.Keys && (if k in keys then log[k].Some? else k in m)
      :: if k in keys then log[k].value else m[k]
  }

  lemma NothingUndone<V>(m: map<string, V>, log: Log<V>)
    ensures UndoKeys(m, log, []) == m
  {}

  lemma OneUndone<V>(m: map<string, V>, log: Log<V>, k: string, rest: seq<string>)
    requires k in log && forall j :: j in rest ==> j in log
    ensures forall j :: j in [k] + rest ==> j in log
    ensures var u := UndoKeys(m, log, rest);
      UndoKeys(m, log, [k] + rest) == match log[k] case Some(v) => u[k := v] case None => u - {k}
  {}

  lemma AllUndone<V>(m: map<string, V>, log: Log<V>, keys: seq<string>)
    requires forall k :: k in keys <==> k in log
    ensures UndoKeys(m, log, keys) == Undo(m, log)
  {}

  lemma MergedBefore<V>(m: map<string, V>, logs: seq<Log<V>>, merged: seq<Log<V>>, k: nat)
    requires |logs| >= 2 && |merged| == |logs| - 1 && k <= |logs| - 2
    requires merged == logs[..|logs| - 2] + [logs[|logs| - 1] + logs[|logs| - 2]]
    ensures Before(m, merged, k) == Before(m, logs, k)
  {
    var n := |logs| - 1;
    BeforeLast(m, logs, k);
    BeforeLast(Undo(m, logs[n]), logs[..n], k);
    BeforeLast(m, merged, k);
    UndoMerged(m, logs[n], logs[n - 1]);
    assert logs[..n][..n - 1] == merged[..n - 1];
  }

  // -------------------------------------------------------------- whole runs

  /** What parsing does to anchors: nodes store them, and attempts, which may
    * hold stores and attempts of their own, succeed or not. */
  datatype Script<V> =
    | Done
    | Store(key: string, value: V, rest: Script<V>)
    | Attempt(body: Script<V>, succeeds: bool, rest: Script<V>)

  /** The anchors after a script, if giving up simply went back to a copy. */
  function Meaning<V>(m: map<string, V>, s: Script<V>): map<string, V>
    decreases s
  {
    match s
    case Done => m
    case Store(k, v, rest) => Meaning(m[k := v], rest)
    case Attempt(body, succeeds, rest) => Meaning(if succeeds then Meaning(m, body) else m, rest)
  }

  /** `tryReadBlockMappingFromProperty` and all below it. */
  method Run<V>(a: AnchorMap<V>, s: Script<V>)
    requires a.Valid()
    modifies a
    ensures a.Valid() && a.anchorMap == Meaning(old(a.anchorMap), s) && a.saved == old(a.saved)
    decreases s
  {
    match s {
      case Done =>
      case Store(k, v, rest) =>
        a.Store(k, v);
        Run(a, rest);
      case Attempt(body, succeeds, rest) =>
        a.Begin();
        Run(a, body);
        if succeeds {
          a.Commit();
        } else {
          a.Rollback();
        }
        assert a.saved == old(a.saved);
        Run(a, rest);
    }
  }
}
