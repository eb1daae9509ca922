/** `process.nextTick`: a queue drained by timers, whose callbacks may throw and
  * may enqueue more.
  *
  * Between two callbacks the code runs without interruption, so each method is
  * one such stretch: `NextTick`, a timer that fires, and what follows a callback
  * that returns or throws. A drain that waits for a callback keeps its local
  * variables in `len` and `timeout`. */
module NextTicks {
  import opened Basics
  import opened Wrappers

  /** The elements from place `i` on. */
  ghost function From<T>(s: seq<T>, i: int): seq<T> {
    if 0 <= i <= |s| then s[i..] else []
  }

  lemma FromStart<T>(s: seq<T>)
    ensures From(s, 0) == s
  {}

  lemma NoMore<T>(a: seq<T>)
    ensures a + [] == a
  {}

  lemma AllStarted<T>(a: seq<T>, b: seq<T>)
    ensures From(a, |a|) + b == b == From(b, 0)
  {}

  lemma First<T>(before: seq<T>, a: seq<T>, i: nat, b: seq<T>)
    requires i < |a|
    ensures before + (From(a, i) + b) == (before + [a[i]]) + (From(a, i + 1) + b)
    ensures (From(a, i) + b)[0] == a[i]
  {
    assert From(a, i) + b == [a[i]] + (From(a, i + 1) + b);
  }

  lemma AfterThrow<T>(a: seq<T>, i: nat, b: seq<T>)
    requires i < |a|
    ensures From(a, i + 1) + b == From(a + b, i + 1)
  {}

  class Ticker<T(==)> {
    var queue: seq<T>
    var draining: bool
    var currentQueue: Option<seq<T>>
    var queueIndex: int
    /** A callback of the drain is running. */
    var running: bool
    var len: nat
    var timeout: nat
    /** Timers of `drainQueue` and of `cleanUpNextTick` that are set and have
      * neither fired nor been cleared. */
    var drains: set<nat>
    var cleanUps: set<nat>
    var nextId: nat

    ghost var enqueued: seq<T>
    ghost var started: seq<T>

    /** The callbacks not yet started, next one first. */
    ghost function Waiting(): seq<T>
      reads this
    {
      if draining && currentQueue.Some? && -1 <= queueIndex < |currentQueue.value|
      then From(currentQueue.value, queueIndex + 1) + queue
      else queue
    }

    ghost predicate Valid()
      reads this
    {
      // each callback started at most once and in order, and none is lost
      && enqueued == started + Waiting()
      && (running ==> draining)
      && (!draining ==> queueIndex == -1 && currentQueue == None && (queue != [] ==> drains != {}))
      && (draining ==>
            && currentQueue.Some? && 0 <= queueIndex < len == |currentQueue.value|
            && timeout in cleanUps)
      && Numbered()
    }

    /** Timers have different numbers. */
    ghost predicate Numbered()
      reads this
    {
      forall id :: id in drains || id in cleanUps ==> id < nextId
    }

    constructor ()
      ensures Valid() && enqueued == [] && drains == cleanUps == {} && !running
    {
      queue, draining, currentQueue, queueIndex := [], false, None, -1;
      running, len, timeout, drains, cleanUps, nextId := false, 0, 0, {}, {}, 0;
      enqueued, started := [], [];
    }

    /** `nextTick`, from a callback or from anywhere else. */
    method NextTick(x: T)
      requires Valid()
      modifies this
      ensures Valid() && started == old(started) && enqueued == old(enqueued) + [x]
      ensures running == old(running) && cleanUps == old(cleanUps)
      ensures drains == if old(queue) == [] && !old(draining) then old(drains) + {old(nextId)} else old(drains)
    {
      hide From;
      Assoc(started, Waiting(), [x]);
      if draining {
        Assoc(From(currentQueue.value, queueIndex + 1), queue, [x]);
      }
      queue := queue + [x];
      enqueued := enqueued + [x];
      if |queue| == 1 && !draining {
        drains := drains + {nextId};
        nextId := nextId + 1;
      }
    }

    /** The `drainQueue` timer `t` fires. */
    method FireDrainQueue(t: nat)
      requires Valid() && !running && t in drains
      modifies this
      ensures Valid() && enqueued == old(enqueued)
      ensures !old(draining) ==> Next(old(Waiting()), old(started))
      ensures old(draining) ==> started == old(started) && !running
      ensures drains == old(drains) - {t}
      ensures cleanUps == if running then old(cleanUps) + {old(nextId)} else old(cleanUps)
    {
      hide From;
      drains := drains - {t};
      if draining {
        return;
      }
      FromStart(queue);
      Drain(Waiting());
    }

    /** The `cleanUpNextTick` timer `t` fires, after a callback threw. */
    method FireCleanUp(t: nat)
      requires Valid() && !running && t in cleanUps
      modifies this
      ensures Valid() && enqueued == old(enqueued)
      ensures old(draining) ==> Next(old(Waiting()), old(started))
      ensures !old(draining) ==> started == old(started) && !running
      ensures drains == old(drains)
      ensures cleanUps == (old(cleanUps) - {t}) + if running then {old(nextId)} else {}
    {
      hide From;
      cleanUps := cleanUps - {t};
      if !draining || currentQueue == None {
        return;
      }
      ghost var w := Waiting();
      draining := false;
      // the current queue holds at least the callback that threw, so neither
      // the branch for an empty one nor the test of `queue.length` matters
      AfterThrow(currentQueue.value, queueIndex, queue);
      queue := currentQueue.value + queue;
      Drain(w);
    }

    /** The next callback that waits has started, or the drain is over. */
    ghost predicate Next(waiting: seq<T>, before: seq<T>)
      reads this
    {
      if waiting == [] then started == before && !running && !draining
      else running && started == before + [waiting[0]]
    }

    /** `drainQueue`, up to its first callback. */
    method Drain(ghost w: seq<T>)
      requires !draining && !running && Ready(false, w) && enqueued == started + w && Numbered()
      modifies this
      ensures Valid() && enqueued == old(enqueued) && Next(w, old(started)) && drains == old(drains)
      ensures cleanUps == if running then old(cleanUps) + {old(nextId)} else old(cleanUps)
    {
      hide From;
      assert nextId !in cleanUps;
      cleanUps := cleanUps + {nextId};
      timeout, nextId := nextId, nextId + 1;
      draining := true;
      len := |queue|;
      Loop(false, w);
    }

    /** The running callback returns; the drain goes on to the next one. */
    method Return()
      requires Valid() && running
      modifies this
      ensures Valid() && enqueued == old(enqueued)
      ensures Next(old(Waiting()), old(started)) && drains == old(drains)
      ensures cleanUps == if running then old(cleanUps) else old(cleanUps) - {old(timeout)}
    {
      hide From;
      running := false;
      Loop(true, Waiting());
    }

    /** The running callback throws, and so does `drainQueue`. */
    method Throw()
      requires Valid() && running
      modifies this`running
      ensures Valid() && started == old(started) && enqueued == old(enqueued) && !running
    {
      running := false;
    }

    /** At the head of the outer loop, or of the inner one, `w` waits. */
    ghost predicate Ready(inner: bool, w: seq<T>)
      reads this
    {
      if inner then
        && currentQueue.Some? && 0 <= queueIndex < len == |currentQueue.value|
        && w == From(currentQueue.value, queueIndex + 1) + queue
      else
        && -1 <= queueIndex && (queueIndex == -1 || queueIndex < |queue|)
        && w == From(queue, queueIndex + 1)
    }

    /** The two loops of `drainQueue`, from the head of the outer or of the inner
      * one to the next callback or the end. */
    method Loop(inner: bool, ghost w: seq<T>)
      requires Ready(inner, w) && draining && !running && timeout in cleanUps
      requires (!inner ==> len == |queue|) && enqueued == started + w && Numbered()
      modifies this
      ensures Valid() && enqueued == old(enqueued) && Next(w, old(started)) && drains == old(drains)
      ensures cleanUps == if running then old(cleanUps) else old(cleanUps) - {old(timeout)}
    {
      hide From;
      var atInner := inner;
      while true
        invariant Ready(atInner, w) && draining && !running && timeout in cleanUps
        invariant !atInner ==> len == |queue|
        invariant drains == old(drains) && cleanUps == old(cleanUps) && timeout == old(timeout) && Numbered()
        invariant started == old(started) && enqueued == old(enqueued)
        decreases |queue|, atInner
      {
        if !atInner {
          FromStart(queue);
          NoMore(started);
          if len == 0 {
            currentQueue, draining := None, false;
            cleanUps := cleanUps - {timeout};
            return;
          }
          currentQueue, queue := Some(queue), [];
          NoMore(From(currentQueue.value, queueIndex + 1));
        }
        queueIndex := queueIndex + 1;
        if queueIndex < len {
          StartNext(w);
          return;
        }
        AllStarted(currentQueue.value, queue);
        queueIndex, len, atInner := -1, |queue|, false;
      }
    }

    /** `currentQueue[queueIndex].run()`, up to its first step. */
    method StartNext(ghost w: seq<T>)
      requires currentQueue.Some? && 0 <= queueIndex < len == |currentQueue.value|
      requires w == From(currentQueue.value, queueIndex) + queue
      requires draining && !running && timeout in cleanUps && enqueued == started + w && Numbered()
      modifies this`running, this`started
      ensures Valid() && Next(w, old(started))
    {
      hide From;
      First(started, currentQueue.value, queueIndex, queue);
      running := true;
      started := started + [currentQueue.value[queueIndex]];
    }
  }

  /** Whenever a callback waits, a drain is running or a timer is pending that
    * will start it. */
  lemma SomethingPending<T>(t: Ticker<T>)
    requires t.Valid() && t.Waiting() != []
    ensures t.running || (if t.draining then t.cleanUps else t.drains) != {}
  {
    hide From;
  }

  // -------------------------------------------------------------- whole runs

  /** What happens next: a call of `nextTick`, a pending timer, or the end of the
    * running callback. An event that cannot happen now is passed over. */
  datatype Event<T> = Enqueue(item: T) | DrainTimer(id: nat) | CleanUpTimer(id: nat) | Returns | Throws

  function Enqueued<T>(es: seq<Event<T>>): seq<T> {
    if es == [] then []
    else
      var before := Enqueued(es[..|es| - 1]);
      var e := es[|es| - 1];
      if e.Enqueue? then before + [e.item] else before
  }

  /** For every run: what has started and what waits is what was enqueued, in
    * order and each once; and once nothing runs or is pending all has started. */
  method Run<T(==)>(es: seq<Event<T>>) returns (t: Ticker<T>)
    ensures fresh(t) && t.Valid()
    ensures t.started + t.Waiting() == Enqueued(es)
    ensures !t.running && t.drains == {} && t.cleanUps == {} ==> t.started == Enqueued(es)
  {
    t := new Ticker();
    for i := 0 to |es|
      invariant fresh(t) && t.Valid() && t.enqueued == Enqueued(es[..i])
    {
      assert es[..i + 1][..i] == es[..i];
      match es[i] {
        case Enqueue(x) => t.NextTick(x);
        case DrainTimer(id) => if !t.running && id in t.drains { t.FireDrainQueue(id); }
        case CleanUpTimer(id) => if !t.running && id in t.cleanUps { t.FireCleanUp(id); }
        case Returns => if t.running { t.Return(); }
        case Throws => if t.running { t.Throw(); }
      }
    }
    assert es[..|es|] == es;
    NoMore(t.started);
    if t.Waiting() != [] {
      SomethingPending(t);
    }
  }
}
