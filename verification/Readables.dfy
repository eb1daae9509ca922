/** The reading side of a `Readable` in byte or string mode: chunks go in, `read`
  * takes items out through `fromList`, and `length` is kept beside the list. */
module Readables {
  import opened Basics
  import opened Wrappers
  import opened Chunks
  import opened BufferLists

  const MAX_MARK: nat := 0x4000_0000

  /** `computeNewHighWaterMark` below its limit. */
  function Filled(n: bv32): bv32 {
    var a := n - 1;
    var b := a | (a >> 1);
    var c := b | (b >> 2);
    var d := c | (c >> 4);
    var e := d | (d >> 8);
    (e | (e >> 16)) + 1
  }

  /** It is the least power of two that is not below the number. */
  lemma FilledIs(n: bv32)
    requires 0 < n < 0x4000_0000
    ensures var p := Filled(n); p & (p - 1) == 0 && n <= p <= 0x4000_0000 && p >> 1 < n
  {
  }

  /** What the source hands to `push`: a chunk, decoded and perhaps empty, or the end
    * with what the decoder held back. */
  datatype Pushed<T> = Chunk(data: seq<T>) | Eof(data: seq<T>)

  ghost predicate Over<T>(ps: seq<Pushed<T>>, ended: bool) {
    ended || exists i :: 0 <= i < |ps| && ps[i].Eof?
  }

  /** The data of all pushes up to the end of the stream. */
  ghost function Accepted<T>(ps: seq<Pushed<T>>, ended: bool): seq<T> {
    if ps == [] then []
    else
      var before := ps[..|ps| - 1];
      Accepted(before, ended) + if Over(before, ended) then [] else ps[|ps| - 1].data
  }

  lemma AcceptedMore<T>(ps: seq<Pushed<T>>, i: nat, ended: bool)
    requires i < |ps|
    ensures Accepted(ps[..i + 1], ended) == Accepted(ps[..i], ended) + if Over(ps[..i], ended) then [] else ps[i].data
    ensures Over(ps[..i + 1], ended) <==> Over(ps[..i], ended) || ps[i].Eof?
    ensures Accepted(ps[..0], ended) == [] && (Over(ps[..0], ended) <==> ended)
  {
    assert ps[..i + 1] == ps[..i] + [ps[i]];
    AcceptedLast(ps[..i], ps[i], ended);
  }

  /** Pushes in a row that come in two parts. */
  lemma {:induction false} AcceptedConcat<T>(ps: seq<Pushed<T>>, qs: seq<Pushed<T>>, ended: bool)
    ensures Accepted(ps + qs, ended) == Accepted(ps, ended) + Accepted(qs, Over(ps, ended))
    ensures Over(ps + qs, ended) <==> Over(qs, Over(ps, ended))
    decreases |qs|
  {
    hide Accepted, Over;
    if qs == [] {
      assert ps + qs == ps;
      AcceptedNone<T>(Over(ps, ended));
    } else {
      var n := |qs| - 1;
      AcceptedConcat(ps, qs[..n], ended);
      assert ps + qs == (ps + qs[..n]) + [qs[n]] && qs == qs[..n] + [qs[n]];
      AcceptedLast(ps + qs[..n], qs[n], ended);
      AcceptedLast(qs[..n], qs[n], Over(ps, ended));
      Assoc(Accepted(ps, ended), Accepted(qs[..n], Over(ps, ended)),
            if Over(ps + qs[..n], ended) then [] else qs[n].data);
    }
  }

  lemma AcceptedLast<T>(ps: seq<Pushed<T>>, p: Pushed<T>, ended: bool)
    ensures Accepted(ps + [p], ended) == Accepted(ps, ended) + if Over(ps, ended) then [] else p.data
    ensures Over(ps + [p], ended) <==> Over(ps, ended) || p.Eof?
  {
    var all := ps + [p];
    assert all[..|ps|] == ps && all[|ps|] == p;
    assert forall k :: 0 <= k < |ps| ==> all[k] == ps[k];
  }

  /** No chunk is empty. */
  ghost predicate Solid<T>(chunks: seq<seq<T>>) {
    forall i :: 0 <= i < |chunks| ==> chunks[i] != []
  }

  lemma {:induction false} DropSolid<T>(chunks: seq<seq<T>>, n: nat)
    requires Solid(chunks)
    ensures Solid(Drop(chunks, n))
  {
    if chunks != [] && n > |chunks[0]| {
      DropSolid(chunks[1..], n - |chunks[0]|);
    }
  }

  /** How much `read(n)` gives of all that is there: never nothing as `Some`; `n` items
    * or, at the end, what there is; without a count all, or in flowing mode a part. */
  ghost predicate Gives<T>(n: Option<int>, r: Option<seq<T>>, all: seq<T>, ended: bool, flowing: bool) {
    && (r.Some? ==> r.value != [])
    && match n
       case Some(x) =>
         && (x <= 0 ==> r == None)
         && (0 < x <= |all| ==> r.Some? && |r.value| == x)
         && (0 < x && x > |all| ==> r == if ended && |all| > 0 then Some(all) else None)
       case None =>
         && (r == None <==> |all| == 0)
         && (!flowing && |all| > 0 ==> r == Some(all))
  }

  lemma GivesNothing<T>(n: Option<int>, all: seq<T>, ended: bool, flowing: bool)
    requires n == Some(0) || (n.Some? && n.value <= 0) || all == []
    ensures Gives(n, None, all, ended, flowing)
  {
  }

  class ReadableState<T(0)> {
    const buffer: BufferList<T>
    /** There is a decoder, so chunks are strings. */
    const hasStrings: bool
    var highWaterMark: nat
    var length: nat
    var flowing: bool
    var ended: bool
    var reading: bool
    var sync: bool
    var needReadable: bool

    ghost predicate Valid()
      reads this, buffer, buffer.nodes
    {
      buffer.Valid() && length == |Concat(buffer.chunks)| && Solid(buffer.chunks)
    }

    /** The data still buffered. */
    ghost function Buffered(): seq<T>
      reads this, buffer
    {
      Concat(buffer.chunks)
    }

    /** The nodes of the list are `was` or new. */
    twostate predicate Grown()
      reads this, buffer
    {
      forall i :: 0 <= i < |buffer.nodes| ==> buffer.nodes[i] in old(buffer.nodes) || fresh(buffer.nodes[i])
    }

    constructor (hasStrings: bool, highWaterMark: nat)
      ensures Valid() && fresh(buffer) && buffer.nodes == [] && Buffered() == [] && !ended && !flowing && !reading
    {
      buffer := new BufferList();
      this.hasStrings, this.highWaterMark := hasStrings, highWaterMark;
      length, flowing, ended := 0, false, false;
      reading, sync, needReadable := false, true, false;
    }

    /** A chunk at the end of the buffer. */
    method Store(chunk: seq<T>)
      requires Valid() && chunk != []
      modifies this`length, buffer, buffer.nodes
      ensures Valid() && Grown() && Buffered() == old(Buffered()) + chunk
      ensures |buffer.nodes| == |old(buffer.nodes)| + 1 && buffer.chunks == old(buffer.chunks) + [chunk]
    {
      length := length + |chunk|;
      ConcatMore(buffer.chunks + [chunk], |buffer.chunks|);
      assert (buffer.chunks + [chunk])[..|buffer.chunks|] == buffer.chunks;
      assert (buffer.chunks + [chunk])[..|buffer.chunks| + 1] == buffer.chunks + [chunk];
      buffer.Push(chunk);
    }

    /** `addChunk`: what it emits at once. */
    method AddChunk(chunk: seq<T>) returns (out: seq<T>)
      requires Valid() && chunk != []
      modifies this`length, this`needReadable, buffer, buffer.nodes
      ensures Valid() && Grown() && out + Buffered() == old(Buffered()) + chunk
      ensures out == if flowing && old(length) == 0 && !sync then chunk else []
      ensures needReadable == (old(needReadable) && flowing && old(length) == 0 && !sync)
      ensures buffer.chunks == if flowing && old(length) == 0 && !sync then old(buffer.chunks)
                               else old(buffer.chunks) + [chunk]
    {
      if flowing && length == 0 && !sync {
        assert chunk + Buffered() == Buffered() + chunk;
        return chunk;
      }
      Store(chunk);
      needReadable := false;
      return [];
    }

    /** `push`: what it emits at once. After the end it is an error and adds nothing. */
    method Push(p: Pushed<T>) returns (out: seq<T>)
      requires Valid()
      modifies this`length, this`needReadable, this`reading, this`ended, buffer, buffer.nodes
      ensures Valid() && Grown() && out + Buffered() == old(Buffered()) + if old(ended) then [] else p.data
      ensures ended == (old(ended) || p.Eof?) && (sync ==> out == [])
      ensures out == if p.Chunk? && !old(ended) && flowing && old(length) == 0 && !sync then p.data else []
      ensures needReadable == (old(needReadable) &&
        (old(ended) || (p.Chunk? && (p.data == [] || (flowing && old(length) == 0 && !sync)))))
      ensures length >= old(length) && (length == 0 && !ended && old(needReadable) ==> needReadable)
      ensures old(buffer.chunks) <= buffer.chunks && reading == (old(reading) && old(ended) && p.data != [] && p.Chunk?)
    {
      hide Concat, buffer.Valid;
      out := [];
      match p
      case Eof(rest) =>
        reading := false;
        if !ended {
          if rest != [] {
            Store(rest);
          }
          ended, needReadable := true, false;
        }
      case Chunk(data) =>
        if data == [] {
          reading := false;
        } else if !ended {
          reading := false;
          out := AddChunk(data);
        }
    }

    /** The items that `read(n)` has to take; `None` is the absent argument. */
    ghost function Amount(n: Option<int>): nat
      reads this, buffer
    {
      match n
      case Some(x) => if x <= 0 then 0 else if x <= length then x else if ended then length else 0
      case None => if flowing && buffer.chunks != [] then |buffer.chunks[0]| else length
    }

    /** The high-water mark once `n` items are wanted. */
    ghost function Mark(n: Option<int>): nat
      reads this
    {
      if n.Some? && n.value > highWaterMark && n.value > 0 && !(length == 0 && ended) then
        if n.value >= 0x4000_0000 then 0x4000_0000 else Filled(n.value as bv32) as nat
      else highWaterMark
    }

    /** `read(0)` only tells listeners that there is enough. */
    predicate OnlyTells(n: Option<int>)
      reads this
    {
      n == Some(0) && needReadable && ((if highWaterMark != 0 then length >= highWaterMark else length > 0) || ended)
    }

    /** When `read(n)` calls `_read`: not after the end, not while a call is under way,
      * and then if more is needed or what stays is below the high-water mark. */
    ghost predicate Asks(n: Option<int>)
      reads this, buffer
    {
      && !ended && !reading && !OnlyTells(n)
      && (needReadable || length == 0 || (n.Some? && n.value > length) || length - Amount(n) < Mark(n))
    }

    /** `howMuchToRead` */
    method HowMuchToRead(n: Option<int>) returns (r: nat)
      requires Valid()
      modifies this`needReadable, this`highWaterMark
      ensures Valid() && r <= length && r == Amount(n)
      ensures highWaterMark == old(Mark(n))
      ensures needReadable == (old(needReadable) || (n.Some? && n.value > length && n.value > 0 && !ended))
    {
      hide Concat, Filled;
      LengthIs();
      if (n.Some? && n.value <= 0) || (length == 0 && ended) {
        return 0;
      }
      if n == None {
        if length > 0 {
          HeadFits();
        }
        if flowing && length > 0 {
          return |buffer.head.data|;
        }
        return length;
      }
      if n.value > highWaterMark {
        RaiseMark(n.value);
      }
      if n.value <= length {
        return n.value;
      }
      if ended {
        return length;
      }
      needReadable := true;
      return 0;
    }

    /** `computeNewHighWaterMark` */
    method RaiseMark(n: nat)
      requires n > highWaterMark
      modifies this`highWaterMark
      ensures highWaterMark == if n >= MAX_MARK then MAX_MARK else Filled(n as bv32) as nat
    {
      hide Filled;
      highWaterMark := if n >= MAX_MARK then MAX_MARK else Filled(n as bv32) as nat;
    }

    lemma LengthIs()
      requires Valid()
      ensures length == 0 <==> buffer.chunks == []
      ensures forall i :: 0 <= i < |buffer.chunks| ==> buffer.chunks[i] != []
    {
    }

    lemma HeadFits()
      requires Valid() && length > 0
      ensures buffer.chunks != [] && buffer.head != null && buffer.head.data == buffer.chunks[0]
      ensures |buffer.head.data| <= length
    {
      NodeAt(buffer, 0);
    }

    /** `fromList` */
    method FromList(n: nat) returns (r: Option<seq<T>>)
      requires Valid() && n <= length
      modifies buffer, buffer.nodes
      ensures buffer.Valid()
      ensures r.None? <==> length == 0
      ensures length == 0 ==> Buffered() == old(Buffered())
      ensures r.Some? && n > 0 ==> |r.value| == n
      ensures r.Some? ==> r.value + Buffered() == old(Buffered())
      ensures Solid(buffer.chunks)
      ensures forall i :: 0 <= i < |buffer.nodes| ==> buffer.nodes[i] in old(buffer.nodes)
    {
      if length == 0 {
        return None;
      }
      if n == 0 || n >= length {
        var all;
        if hasStrings {
          all := buffer.Join();
        } else if buffer.length == 1 {
          all := buffer.First();
          assert buffer.chunks == [buffer.chunks[0]];
          assert Concat(buffer.chunks) == all + Concat(buffer.chunks[1..]) == all;
        } else {
          var t := buffer.ConcatAll(length);
          all := t[..];
        }
        assert all == Buffered();
        buffer.Clear();
        assert all + [] == all;
        return Some(all);
      }
      DropConcat(buffer.chunks, n);
      DropSolid(buffer.chunks, n);
      var s := buffer.Consume(n, hasStrings);
      return Some(s);
    }

    /** `read`, with what `_read` pushes when it is called: the items, and whether it
      * was called. */
    method Read(n: Option<int>, during: seq<Pushed<T>>) returns (r: Option<seq<T>>, asked: bool)
      requires Valid()
      modifies this, buffer, buffer.nodes
      ensures Valid() && Grown() && flowing == old(flowing)
      ensures ended == if asked then Over(during, old(ended)) else old(ended)
      ensures var all := old(Buffered()) + if asked then Accepted(during, old(ended)) else [];
        (if r.Some? then r.value else []) + Buffered() == all && Gives(n, r, all, ended, flowing)
      ensures n == None && flowing && old(length) > 0 ==>
        old(buffer.chunks) != [] && r == Some(old(buffer.chunks[0]))
      ensures asked == old(Asks(n))
      ensures reading == if asked then during == [] else old(reading)
      ensures n == None && r == None && !old(ended) && !old(reading) ==> asked
      ensures !asked && !old(ended) && !old(reading) && n != Some(0) ==> length >= highWaterMark
      ensures !old(OnlyTells(n)) && !ended && (length == 0 || (r == None && length <= highWaterMark)) ==> needReadable
    {
      hide Accepted, Over, buffer.Valid, Filled, Gives, Concat;
      r, asked := None, false;
      AcceptedNone<T>(ended);
      LengthIs();
      assert Buffered() + [] == Buffered() && [] + Buffered() == Buffered();
      if OnlyTells(n) {
        GivesNothing(n, Buffered(), ended, flowing);
        needReadable := length == 0 && ended;
        return;
      }
      var e := HowMuchToRead(n);
      if e == 0 && ended {
        GivesNothing(n, Buffered(), ended, flowing);
        return;
      }
      r, asked := AskAndTake(n, e, during);
    }

    /** `read` after its early returns; `e0` is what it wants before it asks for more. */
    method AskAndTake(n: Option<int>, e0: nat, during: seq<Pushed<T>>) returns (r: Option<seq<T>>, asked: bool)
      requires Valid() && e0 <= length && e0 == Amount(n) && !OnlyTells(n) && highWaterMark == Mark(n)
      requires n.Some? && n.value > length && !ended ==> needReadable
      modifies this, buffer, buffer.nodes
      ensures Valid() && Grown() && flowing == old(flowing)
      ensures ended == if asked then Over(during, old(ended)) else old(ended)
      ensures var all := old(Buffered()) + if asked then Accepted(during, old(ended)) else [];
        (if r.Some? then r.value else []) + Buffered() == all && Gives(n, r, all, ended, flowing)
      ensures n == None && flowing && old(length) > 0 ==>
        old(buffer.chunks) != [] && r == Some(old(buffer.chunks[0]))
      ensures asked == old(Asks(n))
      ensures reading == if asked then during == [] else old(reading)
      ensures !asked ==> length == old(length) - e0
      ensures highWaterMark == old(highWaterMark)
      ensures !ended && (length == 0 || (r == None && length <= highWaterMark)) ==> needReadable
    {
      hide Accepted, Over, buffer.Valid, Filled, Mark, OnlyTells;
      var e;
      e, asked := Ask(n, e0, during);
      ghost var all := Buffered();
      HeadIsFirst(buffer.chunks);
      assert all[..|all|] == all;
      r := TakeOut(e);
    }

    /** The middle of `read`: it calls `_read` when it should. */
    method Ask(n: Option<int>, e0: nat, during: seq<Pushed<T>>) returns (e: nat, asked: bool)
      requires Valid() && e0 <= length && e0 == Amount(n) && !OnlyTells(n) && highWaterMark == Mark(n)
      requires n.Some? && n.value > length && !ended ==> needReadable
      modifies this, buffer, buffer.nodes
      ensures Valid() && Grown() && flowing == old(flowing) && e <= length && e == Amount(n)
      ensures asked == old(Asks(n)) && reading == if asked then during == [] else old(reading)
      ensures !asked ==> e == e0 && length == old(length)
      ensures highWaterMark == old(highWaterMark)
      ensures ended == if asked then Over(during, old(ended)) else old(ended)
      ensures Buffered() == old(Buffered()) + if asked then Accepted(during, old(ended)) else []
      ensures old(buffer.chunks) <= buffer.chunks
    {
      hide Accepted, Over, Concat, buffer.Valid, Filled;
      AcceptedNone<T>(ended);
      e, asked := e0, false;
      var asks := needReadable || length == 0 || length - e < highWaterMark;
      if !ended && !reading && asks {
        asked := true;
        AskFor(during);
        if !reading {
          e := HowMuchToRead(n);
        }
      }
    }

    /** The call of `_read`: all it pushes at once is buffered. */
    method AskFor(during: seq<Pushed<T>>)
      requires Valid() && !ended
      modifies this, buffer, buffer.nodes
      ensures Valid() && Grown() && flowing == old(flowing) && ended == Over(during, false)
      ensures Buffered() == old(Buffered()) + Accepted(during, false)
      ensures old(buffer.chunks) <= buffer.chunks && (reading <==> during == [])
      ensures during == [] ==> buffer.chunks == old(buffer.chunks)
      ensures length == 0 && !ended ==> needReadable
      ensures highWaterMark == old(highWaterMark)
    {
      hide Accepted, Over, Concat, buffer.Valid;
      reading, sync := true, true;
      if length == 0 {
        needReadable := true;
      }
      AcceptedNone<T>(false);
      assert during[..0] == [];
      for i := 0 to |during|
        invariant Valid() && Grown() && sync && flowing == old(flowing) && (reading <==> i == 0)
        invariant highWaterMark == old(highWaterMark)
        invariant ended == Over(during[..i], false)
        invariant Buffered() == old(Buffered()) + Accepted(during[..i], false)
        invariant old(buffer.chunks) <= buffer.chunks && (i == 0 ==> buffer.chunks == old(buffer.chunks))
        invariant length == 0 && !ended ==> needReadable
      {
        AcceptedMore(during, i, false);
        Assoc(old(Buffered()), Accepted(during[..i], false), if ended then [] else during[i].data);
        var out := Push(during[i]);
      }
      assert during[..|during|] == during;
      sync := false;
    }

    /** The end of `read`, which takes out `e` items. */
    method TakeOut(e: nat) returns (r: Option<seq<T>>)
      requires Valid() && e <= length
      modifies this`length, this`needReadable, buffer, buffer.nodes
      ensures Valid() && Grown()
      ensures r == if e > 0 then Some(old(Buffered())[..e]) else None
      ensures length == old(length) - e
      ensures !ended && (length == 0 || (r == None && length <= highWaterMark)) ==> needReadable
      ensures (if r.Some? then r.value else []) + Buffered() == old(Buffered())
    {
      r := None;
      if e > 0 {
        r := FromList(e);
        length := length - e;
        assert r.value == old(Buffered())[..e];
      }
      if r.None? {
        needReadable := length <= highWaterMark;
      }
      if length == 0 && !ended {
        needReadable := true;
      }
    }
  }

  lemma AcceptedNone<T>(ended: bool)
    ensures Accepted<T>([], ended) == [] && (Over<T>([], ended) <==> ended)
  {
  }

  lemma AcceptedOne<T>(p: Pushed<T>, ended: bool)
    ensures Accepted([p], ended) == if ended then [] else p.data
    ensures Over([p], ended) <==> ended || p.Eof?
  {
    assert [p][..0] == [] && [p][0] == p;
  }

  lemma HeadIsFirst<T>(chunks: seq<seq<T>>)
    ensures chunks != [] ==> chunks[0] <= Concat(chunks)
  {
  }

  // ------------------------------------------------------------------- runs

  /** What happens to the stream. `Wants` stands for listeners and timers that set
    * `needReadable`. */
  datatype Event<T> =
    | Pushes(p: Pushed<T>)
    | Reads(n: Option<int>, during: seq<Pushed<T>>)
    | Flows(on: bool)
    | Wants(on: bool)

  /** What was pushed in a step in which `_read` was called, or not. */
  function Pushing<T>(e: Event<T>, asked: bool): seq<Pushed<T>> {
    match e
    case Pushes(p) => [p]
    case Reads(_, during) => if asked then during else []
    case _ => []
  }

  /** Whether a call of `_read` is under way after a step: only a push ends it. */
  function WaitsAfter<T>(e: Event<T>, asked: bool, waits: bool, ended: bool): bool {
    match e
    case Pushes(p) => waits && ended && p.Chunk? && p.data != []
    case Reads(_, during) => if asked then during == [] else waits
    case _ => waits
  }

  method Step<T(0)>(s: ReadableState<T>, e: Event<T>) returns (out: seq<T>, asked: bool)
    requires s.Valid()
    modifies s, s.buffer, s.buffer.nodes
    ensures s.Valid() && s.Grown() && s.ended == Over(Pushing(e, asked), old(s.ended))
    ensures out + s.Buffered() == old(s.Buffered()) + Accepted(Pushing(e, asked), old(s.ended))
    ensures asked == (e.Reads? && old(s.Asks(e.n)))
    ensures s.flowing == if e.Flows? then e.on else old(s.flowing)
    ensures e.Wants? ==> s.needReadable == e.on
    ensures s.reading == WaitsAfter(e, asked, old(s.reading), old(s.ended))
    ensures e.Reads? && e.n == None && out == [] && !old(s.ended) && !old(s.reading) ==> asked
  {
    hide Accepted, Over;
    AcceptedNone<T>(s.ended);
    out, asked := [], false;
    match e
    case Pushes(p) =>
      AcceptedOne(p, s.ended);
      out := s.Push(p);
    case Reads(n, during) =>
      var r;
      r, asked := s.Read(n, during);
      if r.Some? {
        out := r.value;
      }
    case Flows(on) =>
      s.flowing := on;
    case Wants(on) =>
      s.needReadable := on;
  }

  /** Everything pushed in a run. */
  ghost function AllPushed<T>(es: seq<Event<T>>, asked: seq<bool>): seq<Pushed<T>>
    requires |es| == |asked|
  {
    if es == [] then []
    else
      var n := |es| - 1;
      AllPushed(es[..n], asked[..n]) + Pushing(es[n], asked[n])
  }

  /** Whether a call of `_read` is under way after a run. */
  ghost function Waits<T>(es: seq<Event<T>>, asked: seq<bool>): bool
    requires |es| == |asked|
  {
    if es == [] then false
    else
      var n := |es| - 1;
      WaitsAfter(es[n], asked[n], Waits(es[..n], asked[..n]), Over(AllPushed(es[..n], asked[..n]), false))
  }

  /** A `read()` that gives nothing on a stream that goes on, with no call of `_read`
    * under way, makes one. */
  ghost predicate GoesOn<T>(es: seq<Event<T>>, asked: seq<bool>, outs: seq<seq<T>>, i: nat)
    requires i < |es| == |asked| == |outs|
  {
    Idle(es[..i], asked[..i]) && es[i].Reads? && es[i].n == None && outs[i] == [] ==> asked[i]
  }

  /** The stream has not ended and no call of `_read` is under way. */
  ghost predicate Idle<T>(es: seq<Event<T>>, asked: seq<bool>)
    requires |es| == |asked|
  {
    !Over(AllPushed(es, asked), false) && !Waits(es, asked)
  }

  ghost predicate NoStall<T>(es: seq<Event<T>>, asked: seq<bool>, outs: seq<seq<T>>) {
    |es| == |asked| == |outs| && forall i :: 0 <= i < |es| ==> GoesOn(es, asked, outs, i)
  }

  /** Conservation over every run, flowing or paused: what was emitted at once or
    * returned by `read`, and then what is still buffered, is what was pushed; and no
    * run stalls. */
  method Run<T(0)>(es: seq<Event<T>>, hasStrings: bool, highWaterMark: nat)
    returns (outs: seq<seq<T>>, asked: seq<bool>, s: ReadableState<T>)
    ensures s.Valid() && |asked| == |outs| == |es|
    ensures Concat(outs) + s.Buffered() == Accepted(AllPushed(es, asked), false)
    ensures NoStall(es, asked, outs)
  {
    hide Accepted, Over, Concat, WaitsAfter, NoStall, Waits, AllPushed, Pushing;
    s := new ReadableState(hasStrings, highWaterMark);
    outs, asked := [], [];
    AcceptedNone<T>(false);
    NothingYet<T>();
    for i := 0 to |es|
      invariant fresh(s) && fresh(s.buffer) && s.Valid() && |asked| == |outs| == i
      invariant forall k :: 0 <= k < |s.buffer.nodes| ==> fresh(s.buffer.nodes[k])
      invariant s.ended == Over(AllPushed(es[..i], asked), false) && s.reading == Waits(es[..i], asked)
      invariant Concat(outs) + s.Buffered() == Accepted(AllPushed(es[..i], asked), false)
      invariant NoStall(es[..i], asked, outs)
    {
      ghost var before, ended := s.Buffered(), s.ended;
      var r, a := Step(s, es[i]);
      MorePushed(es, i, asked, a);
      AcceptedConcat(AllPushed(es[..i], asked), Pushing(es[i], a), false);
      Moved(Concat(outs), r, s.Buffered(), before, Accepted(Pushing(es[i], a), ended));
      OneMore(outs, r);
      StillGoesOn(es, i, asked, a, outs, r);
      outs, asked := outs + [r], asked + [a];
    }
    assert es[..|es|] == es;
  }

  lemma NothingYet<T>()
    ensures Concat<T>([]) == [] && AllPushed<T>([], []) == [] && !Waits<T>([], []) && NoStall<T>([], [], [])
  {
  }

  lemma OneMore<T>(outs: seq<seq<T>>, r: seq<T>)
    ensures Concat(outs + [r]) == Concat(outs) + r
  {
    ConcatMore(outs + [r], |outs|);
    assert (outs + [r])[..|outs|] == outs && (outs + [r])[..|outs| + 1] == outs + [r];
  }

  lemma StillGoesOn<T>(es: seq<Event<T>>, i: nat, asked: seq<bool>, a: bool, outs: seq<seq<T>>, r: seq<T>)
    requires i < |es| && NoStall(es[..i], asked, outs)
    requires Idle(es[..i], asked) && es[i].Reads? && es[i].n == None && r == [] ==> a
    ensures NoStall(es[..i + 1], asked + [a], outs + [r])
  {
    hide Idle;
    var es', asked', outs' := es[..i + 1], asked + [a], outs + [r];
    forall k | 0 <= k < |es'| ensures GoesOn(es', asked', outs', k) {
      if k < i {
        assert GoesOn(es[..i], asked, outs, k);
        assert es'[..k] == es[..i][..k] && asked'[..k] == asked[..k];
      } else {
        assert es'[..k] == es[..i] && asked'[..k] == asked;
      }
    }
  }

  lemma MorePushed<T>(es: seq<Event<T>>, i: nat, asked: seq<bool>, a: bool)
    requires i < |es| && |asked| == i
    ensures AllPushed(es[..i + 1], asked + [a]) == AllPushed(es[..i], asked) + Pushing(es[i], a)
    ensures Waits(es[..i + 1], asked + [a]) ==
      WaitsAfter(es[i], a, Waits(es[..i], asked), Over(AllPushed(es[..i], asked), false))
  {
    assert es[..i + 1][..i] == es[..i] && (asked + [a])[..i] == asked;
  }

  lemma Moved<T>(out: seq<T>, r: seq<T>, now: seq<T>, before: seq<T>, x: seq<T>)
    requires r + now == before + x
    ensures (out + r) + now == (out + before) + x
  {
    assert (out + r) + now == out + (r + now);
    assert (out + before) + x == out + (before + x);
  }
}
