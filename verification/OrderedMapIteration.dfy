/** Iteration of an `OrderedMap`: that of its list, without the holes. */
module OrderedMapIteration {
  import opened Basics
  import opened Wrappers
  import opened Lists
  import opened OrderedMaps
  import ListIteration

  /** `OrderedMap.__iterate` with a visitor that never stops it: the entries it sees. */
  method Iterate<V>(m: OrderedMap<V>, reverse: bool) returns (es: seq<Entry<V>>)
    requires Valid(m.list)
    ensures es == if reverse then Reverse(Entries(m)) else Entries(m)
  {
    hide Contents, Live, Reverse, TailOffset;
    var calls := ListIteration.IterateList(m.list, reverse);
    es := [];
    LiveNone<V>();
    for i := 0 to |calls|
      invariant es == Live(calls[..i])
    {
      assert calls[..i + 1] == calls[..i] + [calls[i]];
      LiveOne(calls[..i], calls[i]);
      if calls[i].Some? {
        es := es + [calls[i].value];
      }
    }
    assert calls[..|calls|] == calls;
    LiveReverse(Contents(m.list));
  }

  lemma LiveNone<V>()
    ensures Live<V>([]) == []
  {
  }

  lemma LiveOne<V>(c: seq<Option<Entry<V>>>, x: Option<Entry<V>>)
    ensures Live(c + [x]) == if x.Some? then Live(c) + [x.value] else Live(c)
  {
    LiveConcat(c, [x]);
    assert [x][1..] == [];
  }

  lemma {:induction false} LiveReverse<V>(c: seq<Option<Entry<V>>>)
    ensures Live(Reverse(c)) == Reverse(Live(c))
  {
    if c != [] {
      LiveReverse(c[1..]);
      LiveOne(Reverse(c[1..]), c[0]);
      if c[0].Some? {
        assert Live(c) == [c[0].value] + Live(c[1..]);
      }
    }
  }
}
