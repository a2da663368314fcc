/** BoundedQueue (include/BoundedQueue.h) at the grain of its critical sections: a thread that
    finds its condition false waits and gives up the lock; notify_one moves one waiting thread,
    if there is any, to the threads that will test their condition again. */
module Monitor {
  import opened Bytes

  type Thread = nat

  /** Where a thread is: outside the wait sets, on not_full_ or not_empty_, or woken from one of
      them and about to take the lock again. */
  datatype Place = Running | WaitsPush | WaitsPop | WokenPush | WokenPop

  datatype Monitor<T> = Monitor(queue: seq<T>, closed: bool, capacity: nat, at: seq<Place>)

  /** One critical section each. `woke` is the thread notify_one picked; Spurious needs no notify. */
  datatype Event<T> =
    | Pushed(t: Thread, item: T, woke: Option<Thread>) | PushFailed(t: Thread) | PushWaits(t: Thread)
    | Popped(t: Thread, item: T, woke: Option<Thread>) | PopEmpty(t: Thread) | PopWaits(t: Thread)
    | Closed | Spurious(t: Thread)

  /** notify_one wakes some waiting thread whenever there is one. */
  predicate Picks(at: seq<Place>, p: Place, woke: Option<Thread>) {
    match woke case None => p !in at case Some(u) => u < |at| && at[u] == p
  }

  predicate MayPush<T>(m: Monitor<T>, t: Thread) { t < |m.at| && (m.at[t].Running? || m.at[t].WokenPush?) }

  predicate MayPop<T>(m: Monitor<T>, t: Thread) { t < |m.at| && (m.at[t].Running? || m.at[t].WokenPop?) }

  predicate Can<T(==)>(m: Monitor<T>, e: Event<T>) {
    match e
    case Pushed(t, _, woke) => MayPush(m, t) && !m.closed && |m.queue| < m.capacity && Picks(m.at, WaitsPop, woke)
    case PushFailed(t) => MayPush(m, t) && m.closed
    case PushWaits(t) => MayPush(m, t) && !m.closed && |m.queue| >= m.capacity
    case Popped(t, x, woke) => MayPop(m, t) && m.queue != [] && x == m.queue[0] && Picks(m.at, WaitsPush, woke)
    case PopEmpty(t) => MayPop(m, t) && m.closed && m.queue == []
    case PopWaits(t) => MayPop(m, t) && !m.closed && m.queue == []
    case Closed => true
    case Spurious(t) => t < |m.at| && (m.at[t].WaitsPush? || m.at[t].WaitsPop?)
  }

  function Awake(p: Place): Place {
    match p case WaitsPush => WokenPush case WaitsPop => WokenPop case _ => p
  }

  function Wake(at: seq<Place>, woke: Option<Thread>): (r: seq<Place>)
    ensures |r| == |at|
  {
    if woke.Some? && woke.value < |at| then at[woke.value := Awake(at[woke.value])] else at
  }

  function Move(at: seq<Place>, t: Thread, p: Place): (r: seq<Place>)
    ensures |r| == |at|
  {
    if t < |at| then at[t := p] else at
  }

  function After<T>(m: Monitor<T>, e: Event<T>): Monitor<T> {
    match e
    case Pushed(t, x, woke) => m.(queue := m.queue + [x], at := Wake(Move(m.at, t, Running), woke))
    case PushFailed(t) => m.(at := Move(m.at, t, Running))
    case PushWaits(t) => m.(at := Move(m.at, t, WaitsPush))
    case Popped(t, _, woke) =>
      m.(queue := if m.queue == [] then [] else m.queue[1..], at := Wake(Move(m.at, t, Running), woke))
    case PopEmpty(t) => m.(at := Move(m.at, t, Running))
    case PopWaits(t) => m.(at := Move(m.at, t, WaitsPop))
    case Closed => m.(closed := true, at := seq(|m.at|, i requires 0 <= i < |m.at| => Awake(m.at[i])))
    case Spurious(t) => m.(at := Wake(m.at, Some(t)))
  }

  function Count(at: seq<Place>, p: Place): nat {
    if at == [] then 0 else (if at[0] == p then 1 else 0) + Count(at[1..], p)
  }

  /** While some consumer waits, there are at least as many woken consumers as items; while some
      producer waits, at least as many woken producers as free places. Nobody waits once closed. */
  ghost predicate Good<T>(m: Monitor<T>) {
    && |m.queue| <= m.capacity
    && (m.closed ==> WaitsPush !in m.at && WaitsPop !in m.at)
    && (WaitsPop in m.at ==> |m.queue| <= Count(m.at, WokenPop))
    && (WaitsPush in m.at ==> m.capacity - |m.queue| <= Count(m.at, WokenPush))
  }

  function New<T>(capacity: nat, threads: nat): Monitor<T> {
    Monitor([], false, capacity, seq(threads, _ => Running))
  }

  lemma {:induction false} CountMove(at: seq<Place>, t: Thread, p: Place, q: Place)
    requires t < |at|
    ensures Count(at[t := p], q) + (if at[t] == q then 1 else 0) == Count(at, q) + (if p == q then 1 else 0)
  {
    if t > 0 {
      assert at[t := p][1..] == at[1..][t - 1 := p];
      CountMove(at[1..], t - 1, p, q);
    } else {
      assert at[0 := p][1..] == at[1..];
    }
  }

  lemma {:induction false} CountPositive(at: seq<Place>, p: Place) returns (t: Thread)
    requires Count(at, p) > 0
    ensures t < |at| && at[t] == p
  {
    if at[0] == p { return 0; }
    t := CountPositive(at[1..], p);
    t := t + 1;
  }

  /** What waking and moving do to a count and to the set of places in use. */
  lemma {:induction false} MoveFacts(at: seq<Place>, t: Thread, p: Place, q: Place)
    requires t < |at|
    ensures Count(Move(at, t, p), q) == Count(at, q) + (if p == q then 1 else 0) - (if at[t] == q then 1 else 0)
    ensures q in Move(at, t, p) ==> q == p || q in at
  {
    CountMove(at, t, p, q);
  }

  lemma {:induction false} WakeFacts(at: seq<Place>, woke: Option<Thread>, p: Place, q: Place)
    requires Picks(at, p, woke) && (p.WaitsPush? || p.WaitsPop?)
    ensures q != p ==> Count(Wake(at, woke), q) == Count(at, q) + (if woke.Some? && Awake(p) == q then 1 else 0)
    ensures q in Wake(at, woke) ==> q in at || (woke.Some? && q == Awake(p))
    ensures p in Wake(at, woke) ==> woke.Some?
  {
    if woke.Some? {
      CountMove(at, woke.value, Awake(p), q);
    }
  }

  lemma {:induction false} PicksAfterMove(at: seq<Place>, t: Thread, p: Place, woke: Option<Thread>)
    requires t < |at| && at[t] != p && p != Running && Picks(at, p, woke)
    ensures Picks(Move(at, t, Running), p, woke)
  {
  }

  function CountAfterCompletion(at: seq<Place>, t: Thread, p: Place, woke: Option<Thread>, q: Place): int
    requires t < |at|
  {
    Count(at, q) - (if at[t] == q then 1 else 0) + (if woke.Some? && Awake(p) == q then 1 else 0)
  }

  /** Counts after a call by `t` has returned and notify_one has woken a thread from `p`. */
  lemma {:induction false} CompleteFacts(at: seq<Place>, t: Thread, p: Place, woke: Option<Thread>)
    requires t < |at| && !at[t].WaitsPush? && !at[t].WaitsPop?
    requires (p.WaitsPush? || p.WaitsPop?) && Picks(at, p, woke)
    ensures var at' := Wake(Move(at, t, Running), woke);
      && (forall q: Place :: q.WokenPush? || q.WokenPop? ==>
            Count(at', q) == CountAfterCompletion(at, t, p, woke, q))
      && (forall q: Place :: (q.WaitsPush? || q.WaitsPop?) && q in at' ==> q in at)
      && (p in at' ==> woke.Some?)
  {
    hide Count, Wake, Move;
    PicksAfterMove(at, t, p, woke);
    forall q: Place
      ensures q.WokenPush? || q.WokenPop? ==>
        Count(Wake(Move(at, t, Running), woke), q) == CountAfterCompletion(at, t, p, woke, q)
      ensures (q.WaitsPush? || q.WaitsPop?) && q in Wake(Move(at, t, Running), woke) ==> q in at
    {
      MoveFacts(at, t, Running, q);
      WakeFacts(Move(at, t, Running), woke, p, q);
    }
    WakeFacts(Move(at, t, Running), woke, p, p);
  }

  lemma {:induction false} GoodKept<T>(m: Monitor<T>, e: Event<T>)
    requires Good(m) && Can(m, e)
    ensures Good(After(m, e))
  {
    hide Count, Wake, Move;
    match e
    case Pushed(t, _, woke) => CompleteFacts(m.at, t, WaitsPop, woke);
    case Popped(t, _, woke) => CompleteFacts(m.at, t, WaitsPush, woke);
    case PushFailed(t) => MoveKeeps(m.at, t, Running);
    case PopEmpty(t) => MoveKeeps(m.at, t, Running);
    case PushWaits(t) => MoveKeeps(m.at, t, WaitsPush);
    case PopWaits(t) => MoveKeeps(m.at, t, WaitsPop);
    case Spurious(t) => SpuriousFacts(m.at, t);
    case Closed =>
  }

  lemma {:induction false} MoveKeeps(at: seq<Place>, t: Thread, p: Place)
    requires t < |at| && (p.Running? || p.WaitsPush? || p.WaitsPop?)
    ensures forall q: Place :: q.WokenPush? || q.WokenPop? ==>
      Count(Move(at, t, p), q) == Count(at, q) - (if at[t] == q then 1 else 0)
    ensures forall q: Place :: q in Move(at, t, p) ==> q == p || q in at
  {
    forall q: Place
      ensures Count(Move(at, t, p), q) == Count(at, q) + (if p == q then 1 else 0) - (if at[t] == q then 1 else 0)
    {
      MoveFacts(at, t, p, q);
    }
  }

  lemma {:induction false} SpuriousFacts(at: seq<Place>, t: Thread)
    requires t < |at| && (at[t].WaitsPush? || at[t].WaitsPop?)
    ensures var at' := Wake(at, Some(t));
      && Count(at', WokenPush) >= Count(at, WokenPush) && Count(at', WokenPop) >= Count(at, WokenPop)
      && (forall q: Place :: (q.WaitsPush? || q.WaitsPop?) && q in at' ==> q in at)
  {
    WakeFacts(at, Some(t), at[t], WokenPush);
    WakeFacts(at, Some(t), at[t], WokenPop);
  }

  // ---- All runs ----

  ghost predicate Run<T>(m: Monitor<T>, events: seq<Event<T>>, n: Monitor<T>)
    decreases |events|
  {
    if events == [] then m == n else Can(m, events[0]) && Run(After(m, events[0]), events[1..], n)
  }

  function PushedItems<T>(events: seq<Event<T>>): seq<T> {
    if events == [] then []
    else (if events[0].Pushed? then [events[0].item] else []) + PushedItems(events[1..])
  }

  function PoppedItems<T>(events: seq<Event<T>>): seq<T> {
    if events == [] then []
    else (if events[0].Popped? then [events[0].item] else []) + PoppedItems(events[1..])
  }

  /** First in, first out: what has gone in is what has come out followed by what is inside. */
  lemma {:induction false} Fifo<T>(m: Monitor<T>, events: seq<Event<T>>, n: Monitor<T>)
    requires Good(m) && Run(m, events, n)
    ensures Good(n) && n.capacity == m.capacity && (m.closed ==> n.closed)
    ensures m.queue + PushedItems(events) == PoppedItems(events) + n.queue
    decreases |events|
  {
    hide Good, Can;
    if events != [] {
      var e, m' := events[0], After(m, events[0]);
      GoodKept(m, e);
      Fifo(m', events[1..], n);
      FifoStep(m, e);
      var ins, outs := PushedItems(events[1..]), PoppedItems(events[1..]);
      if e.Pushed? {
        assert m.queue + ([e.item] + ins) == m'.queue + ins;
      } else if e.Popped? {
        assert m.queue + ins == [e.item] + (m'.queue + ins);
        assert [e.item] + (outs + n.queue) == [e.item] + outs + n.queue;
      } else {
        assert [] + ins == ins && [] + outs == outs;
      }
    }
  }

  lemma {:induction false} FifoStep<T>(m: Monitor<T>, e: Event<T>)
    requires Can(m, e)
    ensures e.Pushed? ==> After(m, e).queue == m.queue + [e.item]
    ensures e.Popped? ==> m.queue == [e.item] + After(m, e).queue
    ensures !e.Pushed? && !e.Popped? ==> After(m, e).queue == m.queue
  {
  }

  lemma {:induction false} SomePick(at: seq<Place>, p: Place) returns (woke: Option<Thread>)
    ensures Picks(at, p, woke)
  {
    if i :| 0 <= i < |at| && at[i] == p { woke := Some(i); } else { woke := None; }
  }

  /** Which call can end how is decided by the fields: a push fails only on a closed queue and waits only on a
      full open one, a pop is empty only on a closed and drained queue and waits only on an empty open one. */
  lemma {:induction false} CallsDecided<T>(m: Monitor<T>, t: Thread, x: T) returns (woke: Option<Thread>)
    ensures MayPush(m, t) ==>
      && (Can(m, Pushed(t, x, woke)) <==> !m.closed && |m.queue| < m.capacity)
      && (Can(m, PushFailed(t)) <==> m.closed) && (Can(m, PushWaits(t)) <==> !m.closed && |m.queue| >= m.capacity)
    ensures MayPop(m, t) ==>
      && (m.queue != [] ==> exists w :: Can(m, Popped(t, m.queue[0], w)))
      && (m.queue == [] ==> forall y, w :: !Can(m, Popped(t, y, w)))
      && (Can(m, PopEmpty(t)) <==> m.closed && m.queue == []) && (Can(m, PopWaits(t)) <==> !m.closed && m.queue == [])
  {
    woke := SomePick(m.at, WaitsPop);
    var w := SomePick(m.at, WaitsPush);
    assert MayPop(m, t) && m.queue != [] ==> Can(m, Popped(t, m.queue[0], w));
  }

  /** No lost wakeup, in every run from an empty queue: a thread left waiting while its condition
      holds is never alone, some woken thread of the same kind will complete its call. */
  lemma {:induction false} NoLostWakeup<T(!new)>(capacity: nat, threads: nat, events: seq<Event<T>>,
          m: Monitor<T>, t: Thread)
    returns (u: Thread, woke: Option<Thread>)
    requires Run(New(capacity, threads), events, m) && t < |m.at|
    requires (m.at[t].WaitsPop? && m.queue != []) || (m.at[t].WaitsPush? && |m.queue| < capacity)
    ensures m.at[t].WaitsPop? ==> u < |m.at| && m.at[u].WokenPop? && Can(m, Popped(u, m.queue[0], woke))
    ensures m.at[t].WaitsPush? ==> u < |m.at| && m.at[u].WokenPush? && forall x :: Can(m, Pushed(u, x, woke))
  {
    hide Run, Count;
    Fifo(New(capacity, threads), events, m);
    if m.at[t].WaitsPop? {
      u := CountPositive(m.at, WokenPop);
      woke := SomePick(m.at, WaitsPush);
    } else {
      u := CountPositive(m.at, WokenPush);
      woke := SomePick(m.at, WaitsPop);
    }
  }

  // ---- The class ----

  class BoundedQueue<T(==)> {
    var queue: seq<T>
    var closed: bool
    const capacity: nat
    var at: seq<Place>

    ghost function State(): Monitor<T> reads this { Monitor(queue, closed, capacity, at) }

    constructor (capacity: nat, threads: nat)
      ensures State() == New(capacity, threads) && Good(State())
    {
      this.capacity := capacity;
      queue, closed, at := [], false, seq(threads, _ => Running);
    }

    /** notify_one */
    method Notify(p: Place) returns (woke: Option<Thread>)
      modifies this`at
      ensures Picks(old(at), p, woke) && at == Wake(old(at), woke)
      ensures |at| == |old(at)| && (woke.Some? <==> p in old(at))
      ensures forall u :: 0 <= u < |at| && Some(u) != woke ==> at[u] == old(at)[u]
    {
      for i := 0 to |at|
        invariant at == old(at) && p !in at[..i]
      {
        if at[i] == p {
          at := at[i := Awake(p)];
          return Some(i);
        }
      }
      assert at[..|at|] == at;
      return None;
    }

    /** push, from taking the lock until it returns or waits. */
    method Push(t: Thread, item: T) returns (ghost e: Event<T>, pushed: bool, waits: bool)
      requires Good(State()) && MayPush(State(), t)
      modifies this
      ensures (e.Pushed? && e.item == item) || e.PushFailed? || e.PushWaits?
      ensures e.t == t && Can(old(State()), e) && State() == After(old(State()), e) && Good(State())
      ensures pushed == e.Pushed? && waits == e.PushWaits?
      ensures pushed <==> !old(closed) && |old(queue)| < capacity
      ensures waits <==> !old(closed) && |old(queue)| >= capacity
      ensures queue == (if pushed then old(queue) + [item] else old(queue)) && closed == old(closed)
      ensures |at| == |old(at)| && at[t] == if waits then WaitsPush else Running
    {
      ghost var before := State();
      if closed {
        e, pushed, waits := PushFailed(t), false, false;
        at := at[t := Running];
      } else if |queue| >= capacity {
        e, pushed, waits := PushWaits(t), false, true;
        at := at[t := WaitsPush];
      } else {
        at := at[t := Running];
        queue := queue + [item];
        PicksBeforeMove(before.at, t, WaitsPop);
        var woke := Notify(WaitsPop);
        e, pushed, waits := Pushed(t, item, woke), true, false;
      }
      GoodKept(before, e);
    }

    /** pop, from taking the lock until it returns or waits. */
    method Pop(t: Thread) returns (ghost e: Event<T>, r: Option<T>, waits: bool)
      requires Good(State()) && MayPop(State(), t)
      modifies this
      ensures (e.Popped? && r == Some(e.item)) || ((e.PopEmpty? || e.PopWaits?) && r == None)
      ensures e.t == t && Can(old(State()), e) && State() == After(old(State()), e) && Good(State())
      ensures waits == e.PopWaits?
      ensures r == if old(queue) == [] then None else Some(old(queue)[0])
      ensures waits <==> !old(closed) && old(queue) == []
      ensures queue == (if old(queue) == [] then [] else old(queue)[1..]) && closed == old(closed)
      ensures |at| == |old(at)| && at[t] == if waits then WaitsPop else Running
    {
      ghost var before := State();
      if queue == [] {
        r, waits := None, !closed;
        e := if closed then PopEmpty(t) else PopWaits(t);
        at := at[t := if closed then Running else WaitsPop];
      } else {
        r, waits := Some(queue[0]), false;
        queue := queue[1..];
        at := at[t := Running];
        PicksBeforeMove(before.at, t, WaitsPush);
        var woke := Notify(WaitsPush);
        e := Popped(t, before.queue[0], woke);
      }
      GoodKept(before, e);
    }

    method Close()
      requires Good(State())
      modifies this
      ensures State() == After(old(State()), Closed) && Good(State())
      ensures closed && queue == old(queue) && |at| == |old(at)| && WaitsPush !in at && WaitsPop !in at
    {
      GoodKept(State(), Closed);
      closed := true;
      var was := at;
      at := seq(|was|, i requires 0 <= i < |was| => Awake(was[i]));
    }
  }

  lemma {:induction false} PicksBeforeMove(at: seq<Place>, t: Thread, p: Place)
    requires t < |at| && at[t] != p && p != Running
    ensures forall woke :: Picks(at[t := Running], p, woke) ==> Picks(at, p, woke)
  {
    if p in at {
      var i :| 0 <= i < |at| && at[i] == p;
      assert at[t := Running][i] == p;
    }
  }
}
