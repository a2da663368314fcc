/** The pipeline with its two queues as monitors: threads take the lock, go to sleep on a queue that is full
    or empty, are woken one at a time, and may wake up for no reason (EncryptPipeline::run and
    DecryptPipeline::run in src/EncryptPipeline.cpp and src/DecryptPipeline.cpp, include/BoundedQueue.h). */
module Threads {
  import opened Bytes
  import opened Pipeline
  import M = Monitor

  /** Threads 0 to N - 1 are the workers, N is the reader, N + 1 the writer. `readAt` and `writeAt` say where
      each thread is at either queue. */
  datatype System<T, R, W> = System(s: State<T, R, W>, readAt: seq<M.Place>, writeAt: seq<M.Place>)

  datatype Label =
    | Act(a: Action, woke: Option<M.Thread>)                    // a step of the pipeline, and whom it wakes
    | SleepsOnRead(t: M.Thread) | SleepsOnWrite(t: M.Thread)    // finds its condition false
    | SpuriousOnRead(t: M.Thread) | SpuriousOnWrite(t: M.Thread)

  function ReadQueue<T, R, W>(c: Config<T, R, W>, y: System<T, R, W>): M.Monitor<(nat, T)> {
    M.Monitor(y.s.readQ, y.s.readClosed, c.readCapacity, y.readAt)
  }

  function WriteQueue<T, R, W>(c: Config<T, R, W>, y: System<T, R, W>): M.Monitor<(nat, R)> {
    M.Monitor(y.s.writeQ, y.s.writeClosed, c.writeCapacity, y.writeAt)
  }

  // ---- What a step does to the queues ----

  predicate ReaderAt<T, R, W>(c: Config<T, R, W>, s: State<T, R, W>, work: bool) {
    s.pos < |c.items| && !s.readerDone && !c.Breaking(s.pos) && (c.items[s.pos].Work? <==> work)
  }

  /** The critical section of the read queue that a step consists of, if any. */
  function OnRead<T, R, W>(c: Config<T, R, W>, s: State<T, R, W>, a: Action,
          woke: Option<M.Thread>): Option<M.Event<(nat, T)>>
    requires Enabled(c, s, a)
  {
    match a
    case ReaderPush =>
      if c.items[s.pos].Direct? then None
      else if s.readClosed then Some(M.PushFailed(c.workers))
      else Some(M.Pushed(c.workers, (s.seqNo, c.items[s.pos].task), woke))
    case WorkerPop(i) => Some(if s.readQ == [] then M.PopEmpty(i) else M.Popped(i, s.readQ[0], woke))
    case ReaderClose => Some(M.Closed)
    case CloseReadQueue => Some(M.Closed)
    case _ => None
  }

  function OnWrite<T, R, W>(c: Config<T, R, W>, s: State<T, R, W>, a: Action,
          woke: Option<M.Thread>): Option<M.Event<(nat, R)>>
    requires Enabled(c, s, a)
  {
    match a
    case ReaderPush =>
      if c.items[s.pos].Work? then None
      else if s.writeClosed then Some(M.PushFailed(c.workers))
      else Some(M.Pushed(c.workers, (s.seqNo, c.items[s.pos].result), woke))
    case WorkerPush(i) =>
      Some(if s.writeClosed then M.PushFailed(i) else M.Pushed(i, (s.workers[i].seqNo, s.workers[i].r), woke))
    case WriterPop =>
      Some(if s.writeQ == [] then M.PopEmpty(c.workers + 1) else M.Popped(c.workers + 1, s.writeQ[0], woke))
    case WorkerClose(_) => Some(M.Closed)
    case CloseWriteQueue => Some(M.Closed)
    case _ => None
  }

  /** The critical section in which a thread goes to sleep. */
  function SleepRead<T, R, W>(c: Config<T, R, W>, s: State<T, R, W>, t: M.Thread): Option<M.Event<(nat, T)>> {
    if t < |s.workers| && t < c.workers then (if s.workers[t].Idle? then Some(M.PopWaits(t)) else None)
    else if t == c.workers && ReaderAt(c, s, true) then Some(M.PushWaits(t))
    else None
  }

  function SleepWrite<T, R, W>(c: Config<T, R, W>, s: State<T, R, W>, t: M.Thread): Option<M.Event<(nat, R)>> {
    if t < |s.workers| && t < c.workers then (if s.workers[t].Holding? then Some(M.PushWaits(t)) else None)
    else if t == c.workers && ReaderAt(c, s, false) then Some(M.PushWaits(t))
    else if t == c.workers + 1 && s.writer.Popping? then Some(M.PopWaits(t))
    else None
  }

  ghost predicate MayTake<T>(m: M.Monitor<T>, e: Option<M.Event<T>>) { e.Some? ==> M.Can(m, e.value) }

  function Taken<T>(m: M.Monitor<T>, e: Option<M.Event<T>>): M.Monitor<T> {
    match e case None => m case Some(e) => M.After(m, e)
  }

  ghost predicate Can<T, R, W>(c: Config<T, R, W>, y: System<T, R, W>, l: Label) {
    match l
    case Act(a, woke) =>
      && Enabled(c, y.s, a)
      && MayTake(ReadQueue(c, y), OnRead(c, y.s, a, woke)) && MayTake(WriteQueue(c, y), OnWrite(c, y.s, a, woke))
    case SleepsOnRead(t) => var e := SleepRead(c, y.s, t); e.Some? && M.Can(ReadQueue(c, y), e.value)
    case SleepsOnWrite(t) => var e := SleepWrite(c, y.s, t); e.Some? && M.Can(WriteQueue(c, y), e.value)
    case SpuriousOnRead(t) => M.Can(ReadQueue(c, y), M.Spurious(t))
    case SpuriousOnWrite(t) => M.Can(WriteQueue(c, y), M.Spurious(t))
  }

  ghost function After<T, R, W>(c: Config<T, R, W>, y: System<T, R, W>, l: Label): System<T, R, W>
    requires Can(c, y, l)
  {
    match l
    case Act(a, woke) =>
      System(Apply(c, y.s, a), Taken(ReadQueue(c, y), OnRead(c, y.s, a, woke)).at,
             Taken(WriteQueue(c, y), OnWrite(c, y.s, a, woke)).at)
    case SleepsOnRead(t) => y.(readAt := Taken(ReadQueue(c, y), SleepRead(c, y.s, t)).at)
    case SleepsOnWrite(t) => y.(writeAt := Taken(WriteQueue(c, y), SleepWrite(c, y.s, t)).at)
    case SpuriousOnRead(t) => y.(readAt := M.After(ReadQueue(c, y), M.Spurious(t)).at)
    case SpuriousOnWrite(t) => y.(writeAt := M.After(WriteQueue(c, y), M.Spurious(t)).at)
  }

  function Start<T, R, W>(c: Config<T, R, W>): System<T, R, W> {
    System(Init(c), seq(c.workers + 2, _ => M.Running), seq(c.workers + 2, _ => M.Running))
  }

  ghost predicate Runs<T, R, W>(c: Config<T, R, W>, y: System<T, R, W>, labels: seq<Label>, z: System<T, R, W>)
    decreases |labels|
  {
    if labels == [] then y == z else Can(c, y, labels[0]) && Runs(c, After(c, y, labels[0]), labels[1..], z)
  }

  function Actions(labels: seq<Label>): seq<Action> {
    if labels == [] then [] else (if labels[0].Act? then [labels[0].a] else []) + Actions(labels[1..])
  }

  // ---- The invariant ----

  /** A thread is asleep, or woken, at a queue only if its next step is on that queue and of that kind. */
  ghost predicate AtRead<T, R, W>(c: Config<T, R, W>, s: State<T, R, W>, t: M.Thread, p: M.Place) {
    && (p.WaitsPop? || p.WokenPop? ==> t < |s.workers| && t < c.workers && s.workers[t].Idle?)
    && (p.WaitsPush? || p.WokenPush? ==> t == c.workers && ReaderAt(c, s, true))
  }

  ghost predicate AtWrite<T, R, W>(c: Config<T, R, W>, s: State<T, R, W>, t: M.Thread, p: M.Place) {
    && (p.WaitsPop? || p.WokenPop? ==> t == c.workers + 1 && s.writer.Popping?)
    && (p.WaitsPush? || p.WokenPush? ==>
          (t < |s.workers| && t < c.workers && s.workers[t].Holding?) || (t == c.workers && ReaderAt(c, s, false)))
  }

  ghost predicate Placed<T, R, W>(c: Config<T, R, W>, y: System<T, R, W>) {
    && |y.readAt| == |y.writeAt| == c.workers + 2
    && (forall t :: 0 <= t < |y.readAt| ==> AtRead(c, y.s, t, y.readAt[t]))
    && (forall t :: 0 <= t < |y.writeAt| ==> AtWrite(c, y.s, t, y.writeAt[t]))
  }

  ghost predicate Sound<T, R, W>(c: Config<T, R, W>, y: System<T, R, W>) {
    Inv(c, y.s) && Placed(c, y) && M.Good(ReadQueue(c, y)) && M.Good(WriteQueue(c, y))
  }

  /** What the writer's handling of results leaves alone. */
  lemma {:induction false} WriterOnly<T, R, W>(c: Config<T, R, W>, s: State<T, R, W>, a: Action)
    requires Enabled(c, s, a) && (a.WriterPop? || a.WriterDrain?)
    ensures var s' := Apply(c, s, a);
      && s'.workers == s.workers && s'.pos == s.pos && s'.readerDone == s.readerDone && s'.readQ == s.readQ
      && s'.readClosed == s.readClosed && s'.writeClosed == s.writeClosed
      && s'.writeQ == if a.WriterPop? && s.writeQ != [] then s.writeQ[1..] else s.writeQ
  {
    hide Handled;
    if a.WriterPop? && s.writeQ != [] { HandledKeeps(c, s.(writeQ := s.writeQ[1..]), s.writeQ[0].1); }
    if a.WriterDrain? && s.next in s.reorder {
      HandledKeeps(c, s.(reorder := s.reorder - {s.next}), s.reorder[s.next]);
    }
  }

  lemma {:induction false} HandledKeeps<T, R, W>(c: Config<T, R, W>, s: State<T, R, W>, r: R)
    ensures var h := Handled(c, s, r); h == s.(next := h.next, writer := h.writer, w := h.w)
  {
  }

  /** The queues of the pipeline are the queues of the monitors. */
  lemma {:induction false} QueuesAgree<T, R, W>(c: Config<T, R, W>, y: System<T, R, W>, a: Action,
          woke: Option<M.Thread>)
    requires Can(c, y, Act(a, woke))
    ensures var z := After(c, y, Act(a, woke));
      && ReadQueue(c, z) == Taken(ReadQueue(c, y), OnRead(c, y.s, a, woke))
      && WriteQueue(c, z) == Taken(WriteQueue(c, y), OnWrite(c, y.s, a, woke))
  {
    hide M.Wake, M.Move, M.Picks, M.MayPush, M.MayPop, Popped, Handled;
    if a.WriterPop? || a.WriterDrain? { WriterOnly(c, y.s, a); }
  }

  lemma {:induction false} SoundMonitors<T, R, W>(c: Config<T, R, W>, y: System<T, R, W>, l: Label)
    requires Sound(c, y) && Can(c, y, l)
    ensures M.Good(ReadQueue(c, After(c, y, l))) && M.Good(WriteQueue(c, After(c, y, l)))
  {
    hide M.Good, Inv, Placed, M.Can, Enabled, Apply;
    match l
    case Act(a, woke) =>
      QueuesAgree(c, y, a, woke);
      GoodTaken(ReadQueue(c, y), OnRead(c, y.s, a, woke));
      GoodTaken(WriteQueue(c, y), OnWrite(c, y.s, a, woke));
    case SleepsOnRead(t) => GoodTaken(ReadQueue(c, y), SleepRead(c, y.s, t));
    case SleepsOnWrite(t) => GoodTaken(WriteQueue(c, y), SleepWrite(c, y.s, t));
    case SpuriousOnRead(t) => GoodTaken(ReadQueue(c, y), Some(M.Spurious(t)));
    case SpuriousOnWrite(t) => GoodTaken(WriteQueue(c, y), Some(M.Spurious(t)));
  }

  lemma {:induction false} GoodTaken<T>(m: M.Monitor<T>, e: Option<M.Event<T>>)
    requires M.Good(m) && MayTake(m, e)
    ensures M.Good(Taken(m, e))
  {
    hide M.Good, M.Can;
    if e.Some? { M.GoodKept(m, e.value); }
  }

  /** Where a call leaves the thread that makes it. */
  function Left<T>(e: M.Event<T>): M.Place {
    if e.PushWaits? then M.WaitsPush else if e.PopWaits? then M.WaitsPop else M.Running
  }

  /** After a critical section every thread is where it was, or woken, or it is the one that acted. */
  lemma {:induction false} PlacesAfter<T>(m: M.Monitor<T>, e: M.Event<T>, t: M.Thread)
    requires M.Can(m, e) && t < |m.at|
    ensures |M.After(m, e).at| == |m.at|
    ensures var p, q := m.at[t], M.After(m, e).at[t];
      || q == p || q == M.Awake(p)
      || (!e.Closed? && e.t == t && q == Left(e))
    ensures !e.Closed? && !e.Spurious? && e.t == t ==>
      M.After(m, e).at[t] == Left(e)
  {
  }

  /** Who takes a step. */
  function Actor<T, R, W>(c: Config<T, R, W>, a: Action): M.Thread {
    match a
    case ReaderPush => c.workers case ReaderClose => c.workers case ReaderThrows => c.workers
    case WorkerPop(i) => i case WorkerPush(i) => i case WorkerExit(i) => i case WorkerClose(i) => i
    case _ => c.workers + 1
  }

  /** A step changes only what its own thread does next. */
  lemma {:induction false} OthersStay<T, R, W>(c: Config<T, R, W>, s: State<T, R, W>, a: Action, t: M.Thread)
    requires Enabled(c, s, a) && t != Actor(c, a) && |s.workers| == c.workers
    ensures var s' := Apply(c, s, a);
      && |s'.workers| == c.workers
      && (t < c.workers ==> s'.workers[t] == s.workers[t])
      && (t == c.workers ==> forall b :: ReaderAt(c, s', b) <==> ReaderAt(c, s, b))
      && (t == c.workers + 1 ==> s'.writer == s.writer)
  {
    hide Popped, Handled;
    if a.WriterPop? || a.WriterDrain? { WriterOnly(c, s, a); }
  }

  lemma {:induction false} PlacedActs<T, R, W>(c: Config<T, R, W>, y: System<T, R, W>, a: Action,
          woke: Option<M.Thread>)
    requires Sound(c, y) && Can(c, y, Act(a, woke))
    ensures Placed(c, After(c, y, Act(a, woke)))
  {
    hide M.Good, M.Can, M.After, Inv, Apply;
    WorkerCount(c, y.s);
    var z, n := After(c, y, Act(a, woke)), c.workers + 2;
    var r, w := OnRead(c, y.s, a, woke), OnWrite(c, y.s, a, woke);
    EventPlaces(ReadQueue(c, y), r);
    EventPlaces(WriteQueue(c, y), w);
    forall t: nat | t < n ensures AtRead(c, z.s, t, z.readAt[t]) && AtWrite(c, z.s, t, z.writeAt[t]) {
      assert AtRead(c, y.s, t, y.readAt[t]) && AtWrite(c, y.s, t, y.writeAt[t]);
      if r.Some? { PlacesAfter(ReadQueue(c, y), r.value, t); }
      if w.Some? { PlacesAfter(WriteQueue(c, y), w.value, t); }
      if t == Actor(c, a) {
        ActorRuns(c, y, a, woke);
      } else {
        OthersStay(c, y.s, a, t);
      }
    }
  }

  lemma {:induction false} EventPlaces<T>(m: M.Monitor<T>, e: Option<M.Event<T>>)
    requires MayTake(m, e)
    ensures |Taken(m, e).at| == |m.at|
  {
  }

  lemma {:induction false} WorkerCount<T, R, W>(c: Config<T, R, W>, s: State<T, R, W>)
    requires Inv(c, s)
    ensures |s.workers| == c.workers
  {
  }

  /** The thread that acts is outside both wait sets afterwards. */
  lemma {:induction false} ActorRuns<T, R, W>(c: Config<T, R, W>, y: System<T, R, W>, a: Action, woke: Option<M.Thread>)
    requires Placed(c, y) && Can(c, y, Act(a, woke)) && |y.s.workers| == c.workers
    ensures var z, t := After(c, y, Act(a, woke)), Actor(c, a);
      |z.readAt| == |z.writeAt| == c.workers + 2 && t < c.workers + 2 && z.readAt[t].Running? && z.writeAt[t].Running?
  {
    hide M.Can, M.After, Apply;
    var t := Actor(c, a);
    var r, w := OnRead(c, y.s, a, woke), OnWrite(c, y.s, a, woke);
    assert t < c.workers + 2;
    assert AtRead(c, y.s, t, y.readAt[t]) && AtWrite(c, y.s, t, y.writeAt[t]);
    if r.Some? { PlacesAfter(ReadQueue(c, y), r.value, t); }
    if w.Some? { PlacesAfter(WriteQueue(c, y), w.value, t); }
  }

  lemma {:induction false} PlacedSleeps<T, R, W>(c: Config<T, R, W>, y: System<T, R, W>, l: Label)
    requires Sound(c, y) && Can(c, y, l) && !l.Act?
    ensures Placed(c, After(c, y, l))
  {
    hide M.Good, M.Can, M.After, Inv;
    WorkerCount(c, y.s);
    var z := After(c, y, l);
    match l {
      case SleepsOnRead(u) => EventPlaces(ReadQueue(c, y), SleepRead(c, y.s, u));
      case SleepsOnWrite(u) => EventPlaces(WriteQueue(c, y), SleepWrite(c, y.s, u));
      case SpuriousOnRead(u) => EventPlaces(ReadQueue(c, y), Some(M.Spurious(u)));
      case SpuriousOnWrite(u) => EventPlaces(WriteQueue(c, y), Some(M.Spurious(u)));
    }
    forall t: nat | t < c.workers + 2
      ensures AtRead(c, z.s, t, z.readAt[t]) && AtWrite(c, z.s, t, z.writeAt[t])
    {
      assert AtRead(c, y.s, t, y.readAt[t]) && AtWrite(c, y.s, t, y.writeAt[t]);
      match l
      case SleepsOnRead(u) => PlacesAfter(ReadQueue(c, y), SleepRead(c, y.s, u).value, t);
      case SleepsOnWrite(u) => PlacesAfter(WriteQueue(c, y), SleepWrite(c, y.s, u).value, t);
      case SpuriousOnRead(u) => PlacesAfter(ReadQueue(c, y), M.Spurious(u), t);
      case SpuriousOnWrite(u) => PlacesAfter(WriteQueue(c, y), M.Spurious(u), t);
    }
  }

  lemma {:induction false} SoundKept<T, R, W>(c: Config<T, R, W>, y: System<T, R, W>, l: Label)
    requires Sound(c, y) && Can(c, y, l)
    ensures Sound(c, After(c, y, l))
    ensures if l.Act? then Enabled(c, y.s, l.a) && After(c, y, l).s == Apply(c, y.s, l.a) else After(c, y, l).s == y.s
  {
    hide M.Good, M.Can, M.After, Inv, Placed, Apply, Enabled;
    SoundMonitors(c, y, l);
    if l.Act? {
      PlacedActs(c, y, l.a, l.woke);
      StepInv(c, y.s, l.a);
    } else {
      PlacedSleeps(c, y, l);
    }
  }

  lemma {:induction false} StartSound<T, R, W>(c: Config<T, R, W>)
    requires c.workers > 0
    ensures Sound(c, Start(c))
  {
    hide Inv;
    InitInv(c);
  }

  /** Every run of the threads with their wait sets is, without the sleeping and waking, a schedule of the
      pipeline: everything proved of all schedules holds of all these runs. */
  lemma {:induction false} RunsAreSchedules<T, R, W>(c: Config<T, R, W>, y: System<T, R, W>, labels: seq<Label>,
          z: System<T, R, W>)
    requires Sound(c, y) && Runs(c, y, labels, z)
    ensures Sound(c, z) && Run(c, y.s, Actions(labels), z.s)
    decreases |labels|
  {
    hide Sound, Can, After, Enabled, Apply;
    if labels != [] {
      SoundKept(c, y, labels[0]);
      RunsAreSchedules(c, After(c, y, labels[0]), labels[1..], z);
      if labels[0].Act? {
        assert Actions(labels)[1..] == Actions(labels[1..]);
      } else {
        assert Actions(labels) == Actions(labels[1..]);
      }
    }
  }

  // ---- Somebody is always awake ----

  predicate Asleep<T, R, W>(y: System<T, R, W>, t: M.Thread) {
    t < |y.readAt| && t < |y.writeAt|
    && (y.readAt[t].WaitsPush? || y.readAt[t].WaitsPop? || y.writeAt[t].WaitsPush? || y.writeAt[t].WaitsPop?)
  }

  /** A thread that is awake can take the step that the pipeline allows it. */
  lemma {:induction false} AwakeActs<T, R, W>(c: Config<T, R, W>, y: System<T, R, W>, a: Action)
    returns (woke: Option<M.Thread>)
    requires Sound(c, y) && Enabled(c, y.s, a) && !Asleep(y, Actor(c, a))
    ensures Can(c, y, Act(a, woke))
  {
    hide Inv, M.Count;
    WorkerCount(c, y.s);
    var t := Actor(c, a);
    assert AtRead(c, y.s, t, y.readAt[t]) && AtWrite(c, y.s, t, y.writeAt[t]);
    var r := M.SomePick(y.readAt, M.WaitsPop);
    var w := M.SomePick(y.readAt, M.WaitsPush);
    var r' := M.SomePick(y.writeAt, M.WaitsPop);
    var w' := M.SomePick(y.writeAt, M.WaitsPush);
    match a
    case ReaderPush => woke := if c.items[y.s.pos].Work? then r else r';
    case WorkerPop(_) => woke := w;
    case WorkerPush(_) => woke := r';
    case WriterPop => woke := w';
    case _ => woke := None;
  }

  /** If the pipeline allows a sleeping thread its step, some woken thread can take its own. */
  lemma {:induction false} SomebodyElse<T, R, W>(c: Config<T, R, W>, y: System<T, R, W>, a: Action) returns (b: Action)
    requires Sound(c, y) && Enabled(c, y.s, a) && Asleep(y, Actor(c, a)) && c.readCapacity > 0 && c.writeCapacity > 0
    ensures Enabled(c, y.s, b) && !Asleep(y, Actor(c, b))
  {
    hide Inv, M.Count;
    WorkerCount(c, y.s);
    var t := Actor(c, a);
    assert AtRead(c, y.s, t, y.readAt[t]) && AtWrite(c, y.s, t, y.writeAt[t]);
    var u: M.Thread;
    if y.readAt[t].WaitsPop? {
      u := M.CountPositive(y.readAt, M.WokenPop);
      b := WorkerPop(u);
    } else if y.readAt[t].WaitsPush? {
      u := M.CountPositive(y.readAt, M.WokenPush);
      b := ReaderPush;
    } else if y.writeAt[t].WaitsPop? {
      u := M.CountPositive(y.writeAt, M.WokenPop);
      b := WriterPop;
    } else {
      u := M.CountPositive(y.writeAt, M.WokenPush);
      b := if u == c.workers then ReaderPush else WorkerPush(u);
    }
    assert AtRead(c, y.s, u, y.readAt[u]) && AtWrite(c, y.s, u, y.writeAt[u]);
  }

  /** No deadlock, with wait sets and single wake-ups: as long as some thread has not finished, some thread
      that is not asleep can take a step of the pipeline. */
  lemma {:induction false} NeverAllAsleep<T, R, W>(c: Config<T, R, W>, labels: seq<Label>, y: System<T, R, W>)
    returns (a: Action, woke: Option<M.Thread>)
    requires c.workers > 0 && c.readCapacity > 0 && c.writeCapacity > 0
    requires Runs(c, Start(c), labels, y) && !y.s.Done() && !Starved(c, y.s)
    ensures !Asleep(y, Actor(c, a)) && Can(c, y, Act(a, woke))
  {
    hide Inv, Enabled, Can, Runs, M.Good, Placed, State.Done, Starved, Asleep, Actor;
    StartSound(c);
    RunsAreSchedules(c, Start(c), labels, y);
    a := SomeStepEnabled(c, y.s);
    if Asleep(y, Actor(c, a)) {
      a := SomebodyElse(c, y, a);
    }
    woke := AwakeActs(c, y, a);
  }

  /** Whatever the threads and their wait sets do, no run has more pipeline steps than the measure of the
      start allows, and if all threads have finished the writer has what one thread would have. */
  lemma {:induction false} EveryThreadedRun<T, R, W>(c: Config<T, R, W>, labels: seq<Label>, y: System<T, R, W>)
    requires c.workers > 0 && Runs(c, Start(c), labels, y)
    ensures |Actions(labels)| <= Measure(c, Init(c))
    ensures y.s.Done() ==> c.Prefix(|c.items|) == if y.s.writer.Finished? then Going(y.s.w) else Thrown(y.s.w)
  {
    hide Inv, Sound, Runs, Measure, Run, State.Done, Fold;
    StartSound(c);
    RunsAreSchedules(c, Start(c), labels, y);
    SchedulesEnd(c, Init(c), Actions(labels), y.s);
    if y.s.Done() {
      ScheduleIndependence(c, Actions(labels), y.s);
    }
  }
}
