/** The thread structure shared by EncryptPipeline and DecryptPipeline: one reader, any
    number of workers and one writer, joined by two bounded closable queues. A schedule is
    a sequence of atomic steps of these threads; the results hold for every schedule. */
module Pipeline {
  import opened Bytes

  // ---- Sums over sequences ----

  function Sum<X>(xs: seq<X>, f: X -> nat): nat {
    if xs == [] then 0 else f(xs[0]) + Sum(xs[1..], f)
  }

  lemma {:induction false} SumAppend<X>(xs: seq<X>, x: X, f: X -> nat)
    ensures Sum(xs + [x], f) == Sum(xs, f) + f(x)
  {
    if xs != [] {
      assert (xs + [x])[1..] == xs[1..] + [x];
      SumAppend(xs[1..], x, f);
    }
  }

  lemma {:induction false} SumHead<X>(xs: seq<X>, f: X -> nat)
    requires xs != []
    ensures Sum(xs, f) == f(xs[0]) + Sum(xs[1..], f)
  {
  }

  lemma {:induction false} SumUpdate<X>(xs: seq<X>, i: nat, x: X, f: X -> nat)
    requires i < |xs|
    ensures Sum(xs[i := x], f) + f(xs[i]) == Sum(xs, f) + f(x)
  {
    if i > 0 {
      assert xs[i := x][1..] == xs[1..][i - 1 := x];
      SumUpdate(xs[1..], i - 1, x, f);
    } else {
      assert xs[0 := x][1..] == xs[1..];
    }
  }

  lemma {:induction false} SumZeroIff<X>(xs: seq<X>, f: X -> nat)
    ensures Sum(xs, f) == 0 <==> forall i :: 0 <= i < |xs| ==> f(xs[i]) == 0
  {
    if xs != [] {
      SumZeroIff(xs[1..], f);
      assert forall i :: 0 < i < |xs| ==> xs[i] == xs[1..][i - 1];
    }
  }

  // ---- What the threads compute, without the threads ----

  /** What a writer callback does: it returns, or it throws, leaving some state behind. */
  datatype Outcome<W> = Going(w: W) | Thrown(w: W)

  /** One thread handling the results in order, up to the first that throws. */
  function Fold<R, W>(process: (W, R) -> Outcome<W>, w: W, rs: seq<R>): Outcome<W> {
    if rs == [] then Going(w) else
      var before := Fold(process, w, rs[..|rs| - 1]);
      if before.Thrown? then before else process(before.w, rs[|rs| - 1])
  }

  lemma {:induction false} FoldLast<R, W>(process: (W, R) -> Outcome<W>, w: W, rs: seq<R>, r: R)
    ensures Fold(process, w, rs + [r]) ==
      if Fold(process, w, rs).Thrown? then Fold(process, w, rs) else process(Fold(process, w, rs).w, r)
  {
    assert (rs + [r])[..|rs|] == rs;
  }

  lemma {:induction false} FoldConcat<R, W>(process: (W, R) -> Outcome<W>, w: W, a: seq<R>, b: seq<R>)
    ensures Fold(process, w, a + b) ==
      if Fold(process, w, a).Thrown? then Fold(process, w, a) else Fold(process, Fold(process, w, a).w, b)
  {
    if b == [] {
      assert a + b == a;
    } else {
      assert (a + b)[..|a + b| - 1] == a + b[..|b| - 1];
      FoldConcat(process, w, a, b[..|b| - 1]);
    }
  }

  lemma {:induction false} FoldThrownStays<R, W>(process: (W, R) -> Outcome<W>, w: W, rs: seq<R>, k: nat)
    requires k <= |rs| && Fold(process, w, rs[..k]).Thrown?
    ensures Fold(process, w, rs) == Fold(process, w, rs[..k])
  {
    assert rs[..k] + rs[k..] == rs;
    FoldConcat(process, w, rs[..k], rs[k..]);
  }

  /** What the reader emits: work for a worker, or a result handed straight to the writer. */
  datatype Item<T, R> = Work(file: nat, task: T) | Direct(result: R)

  datatype Config<!T, !R, !W> = Config(
    items: seq<Item<T, R>>,
    breaks: T -> bool,
    work: (nat, T) -> R,
    process: (W, R) -> Outcome<W>,
    start: W,
    workers: nat,
    readCapacity: nat,
    writeCapacity: nat)
  {
    /** Reading the data of item `k` throws, which ends the reader. */
    predicate Breaking(k: nat)
      requires k < |items|
    {
      items[k].Work? && breaks(items[k].task)
    }

    /** The first item at or after `k` that ends the reader, or the number of items. */
    function FirstBreak(k: nat): (r: nat)
      requires k <= |items|
      ensures k <= r <= |items| && (r < |items| ==> Breaking(r)) && forall j :: k <= j < r ==> !Breaking(j)
      decreases |items| - k
    {
      if k == |items| || Breaking(k) then k else FirstBreak(k + 1)
    }

    function ResultAt(k: nat): R
      requires k < |items|
    {
      match items[k] case Work(_, t) => work(k, t) case Direct(r) => r
    }

    function Results(k: nat): (rs: seq<R>)
      requires k <= |items|
      ensures |rs| == k
    {
      seq(k, i requires 0 <= i < k => ResultAt(i))
    }

    /** What a single thread has after the first `k` results. */
    function Prefix(k: nat): Outcome<W>
      requires k <= |items|
    {
      Fold(process, start, Results(k))
    }

    /** The first item after the rest of the file that `pos` belongs to. */
    function NextFile(pos: nat): nat
      requires pos < |items|
    {
      match items[pos] case Direct(_) => pos + 1 case Work(f, _) => SkipFile(pos + 1, f)
    }

    function SkipFile(pos: nat, file: nat): (r: nat)
      requires pos <= |items|
      ensures pos <= r <= |items|
      decreases |items| - pos
    {
      if pos < |items| && items[pos].Work? && items[pos].file == file then SkipFile(pos + 1, file) else pos
    }
  }

  lemma {:induction false} PrefixStep<T, R, W>(c: Config<T, R, W>, k: nat)
    requires k < |c.items|
    ensures c.Prefix(0) == Going(c.start)
    ensures c.Prefix(k + 1) == if c.Prefix(k).Thrown? then c.Prefix(k) else c.process(c.Prefix(k).w, c.ResultAt(k))
  {
    assert c.Results(k + 1)[..k] == c.Results(k);
  }

  lemma {:induction false} PrefixThrownStays<T, R, W>(c: Config<T, R, W>, j: nat, k: nat)
    requires j <= k <= |c.items| && c.Prefix(j).Thrown?
    ensures c.Prefix(k) == c.Prefix(j)
    decreases k - j
  {
    if j < k {
      PrefixThrownStays(c, j, k - 1);
      PrefixStep(c, k - 1);
    }
  }

  // ---- The threads ----

  datatype Worker<R> =
    | Idle                        // about to pop the read queue
    | Holding(seqNo: nat, r: R)   // about to push this result
    | Exiting                     // popped nothing; about to decrement the counter
    | Closing                     // was the last one; about to close the write queue
    | Gone

  datatype WriterPc =
    | Popping    // about to pop the write queue
    | Draining   // about to look up the next number in the reorder buffer
    | Threw      // a chunk threw; about to close the read queue
    | ReadShut   // about to close the write queue
    | Finished
    | Failed

  datatype State<T, R, W> = State(
    pos: nat, seqNo: nat, readerDone: bool,
    readQ: seq<(nat, T)>, readClosed: bool,
    workers: seq<Worker<R>>, active: nat,
    writeQ: seq<(nat, R)>, writeClosed: bool,
    writer: WriterPc, next: nat, reorder: map<nat, R>, w: W)
  {
    predicate Live() { writer.Popping? || writer.Draining? }

    predicate Done() {
      readerDone && (forall i :: 0 <= i < |workers| ==> workers[i].Gone?) && (writer.Finished? || writer.Failed?)
    }
  }

  datatype Action =
    | ReaderPush | ReaderClose | ReaderThrows
    | WorkerPop(i: nat) | WorkerPush(i: nat) | WorkerExit(i: nat) | WorkerClose(i: nat)
    | WriterPop | WriterDrain | CloseReadQueue | CloseWriteQueue

  function Init<T, R, W>(c: Config<T, R, W>): State<T, R, W> {
    State(0, 0, false, [], false, seq(c.workers, _ => Idle), c.workers, [], false, Popping, 0, map[], c.start)
  }

  /** A queue operation is enabled when its wait condition holds: room or closed, items or closed. */
  predicate Enabled<T, R, W>(c: Config<T, R, W>, s: State<T, R, W>, a: Action) {
    match a
    case ReaderPush =>
      s.pos < |c.items| && !s.readerDone && !c.Breaking(s.pos) &&
      (if c.items[s.pos].Work? then s.readClosed || |s.readQ| < c.readCapacity
       else s.writeClosed || |s.writeQ| < c.writeCapacity)
    case ReaderClose => s.pos >= |c.items| && !s.readerDone
    case ReaderThrows => s.pos < |c.items| && !s.readerDone && c.Breaking(s.pos)
    case WorkerPop(i) => i < |s.workers| && s.workers[i].Idle? && (s.readQ != [] || s.readClosed)
    case WorkerPush(i) =>
      i < |s.workers| && s.workers[i].Holding? && (s.writeClosed || |s.writeQ| < c.writeCapacity)
    case WorkerExit(i) => i < |s.workers| && s.workers[i].Exiting?
    case WorkerClose(i) => i < |s.workers| && s.workers[i].Closing?
    case WriterPop => s.writer.Popping? && (s.writeQ != [] || s.writeClosed)
    case WriterDrain => s.writer.Draining?
    case CloseReadQueue => s.writer.Threw?
    case CloseWriteQueue => s.writer.ReadShut?
  }

  /** A push on a closed queue fails: a chunk that fails ends its file, a direct result is dropped. */
  function ReaderPushed<T, R, W>(c: Config<T, R, W>, s: State<T, R, W>): State<T, R, W>
    requires s.pos < |c.items|
  {
    match c.items[s.pos]
    case Work(_, t) =>
      if s.readClosed then s.(pos := c.NextFile(s.pos), seqNo := s.seqNo + 1)
      else s.(pos := s.pos + 1, seqNo := s.seqNo + 1, readQ := s.readQ + [(s.seqNo, t)])
    case Direct(r) =>
      if s.writeClosed then s.(pos := s.pos + 1, seqNo := s.seqNo + 1)
      else s.(pos := s.pos + 1, seqNo := s.seqNo + 1, writeQ := s.writeQ + [(s.seqNo, r)])
  }

  function Handled<T, R, W>(c: Config<T, R, W>, s: State<T, R, W>, r: R): State<T, R, W> {
    match c.process(s.w, r)
    case Going(w) => s.(w := w, next := s.next + 1, writer := Draining)
    case Thrown(w) => s.(w := w, writer := Threw)
  }

  function Popped<T, R, W>(c: Config<T, R, W>, s: State<T, R, W>): State<T, R, W> {
    if s.writeQ == [] then s.(writer := Finished) else
      var (k, r) := s.writeQ[0];
      var t := s.(writeQ := s.writeQ[1..]);
      if k == s.next then Handled(c, t, r)
      else if k in s.reorder then t
      else t.(reorder := s.reorder[k := r])
  }

  function Apply<T, R, W>(c: Config<T, R, W>, s: State<T, R, W>, a: Action): State<T, R, W>
    requires Enabled(c, s, a)
  {
    match a
    case ReaderPush => ReaderPushed(c, s)
    case ReaderClose => s.(readerDone := true, readClosed := true)
    case ReaderThrows => s.(readerDone := true)
    case WorkerPop(i) =>
      if s.readQ == [] then s.(workers := s.workers[i := Exiting])
      else s.(readQ := s.readQ[1..],
              workers := s.workers[i := Holding(s.readQ[0].0, c.work(s.readQ[0].0, s.readQ[0].1))])
    case WorkerPush(i) =>
      var h := s.workers[i];
      var t := s.(workers := s.workers[i := Idle]);
      if s.writeClosed then t else t.(writeQ := s.writeQ + [(h.seqNo, h.r)])
    case WorkerExit(i) =>
      s.(active := if s.active == 0 then 0 else s.active - 1,
         workers := s.workers[i := if s.active == 1 then Closing else Gone])
    case WorkerClose(i) => s.(writeClosed := true, workers := s.workers[i := Gone])
    case WriterPop => Popped(c, s)
    case WriterDrain =>
      if s.next in s.reorder then Handled(c, s.(reorder := s.reorder - {s.next}), s.reorder[s.next])
      else s.(writer := Popping)
    case CloseReadQueue => s.(readClosed := true, writer := ReadShut)
    case CloseWriteQueue => s.(writeClosed := true, writer := Failed)
  }

  /** `t` results from `s` by the given schedule. */
  ghost predicate Run<T, R, W>(c: Config<T, R, W>, s: State<T, R, W>, schedule: seq<Action>, t: State<T, R, W>)
    decreases |schedule|
  {
    if schedule == [] then s == t
    else Enabled(c, s, schedule[0]) && Run(c, Apply(c, s, schedule[0]), schedule[1..], t)
  }

  predicate OfFile<T, R>(item: Item<T, R>, file: nat) { item.Work? && item.file == file }

  /** When the reader finds its queue closed it reads nothing more of that file and goes on behind its last
      item; otherwise the next item is the one it reads next. */
  lemma {:induction false} ClosedEndsFile<T, R, W>(c: Config<T, R, W>, s: State<T, R, W>)
    requires Enabled(c, s, ReaderPush)
    ensures var t := Apply(c, s, ReaderPush);
      && s.pos < t.pos <= |c.items| && t.seqNo == s.seqNo + 1
      && (c.items[s.pos].Work? && s.readClosed ==>
            && t.readQ == s.readQ && (forall j :: s.pos <= j < t.pos ==> OfFile(c.items[j], c.items[s.pos].file))
            && (t.pos < |c.items| ==> !OfFile(c.items[t.pos], c.items[s.pos].file)))
      && (c.items[s.pos].Direct? || !s.readClosed ==> t.pos == s.pos + 1)
  {
    if c.items[s.pos].Work? {
      SkippedFile(c, s.pos + 1, c.items[s.pos].file);
    }
  }

  lemma {:induction false} SkippedFile<T, R, W>(c: Config<T, R, W>, pos: nat, file: nat)
    requires pos <= |c.items|
    ensures var r := c.SkipFile(pos, file);
      && (forall j :: pos <= j < r ==> OfFile(c.items[j], file))
      && (r < |c.items| ==> !OfFile(c.items[r], file))
    decreases |c.items| - pos
  {
    if pos < |c.items| && OfFile(c.items[pos], file) {
      SkippedFile(c, pos + 1, file);
    }
  }

  // ---- The invariant ----

  function Numbered<X>(k: nat): ((nat, X)) -> nat { (p: (nat, X)) => if p.0 == k then 1 else 0 }

  function HoldsNumber<R>(k: nat): Worker<R> -> nat {
    (x: Worker<R>) => if x.Holding? && x.seqNo == k then 1 else 0
  }

  function IsActive<R>(): Worker<R> -> nat {
    (x: Worker<R>) => if x.Idle? || x.Holding? || x.Exiting? then 1 else 0
  }

  function IsClosing<R>(): Worker<R> -> nat { (x: Worker<R>) => if x.Closing? then 1 else 0 }

  /** In how many places chunk `k` is: either queue, a worker, the reorder buffer, or handled. */
  function Places<T, R, W>(s: State<T, R, W>, k: nat): nat {
    Sum(s.readQ, Numbered(k)) + Sum(s.workers, HoldsNumber(k)) + Sum(s.writeQ, Numbered(k))
      + (if k in s.reorder then 1 else 0) + (if k < s.next then 1 else 0)
  }

  /** Facts about queues, counter and shutdown that hold whether or not the writer is alive. */
  ghost predicate Shape<T, R, W>(c: Config<T, R, W>, s: State<T, R, W>) {
    && c.workers > 0
    && s.pos <= |c.items|
    && |s.workers| == c.workers
    && |s.readQ| <= c.readCapacity && |s.writeQ| <= c.writeCapacity
    && (s.readerDone ==> (s.readClosed && s.pos == |c.items|) || (s.pos < |c.items| && c.Breaking(s.pos)))
    && s.active == Sum(s.workers, IsActive())
    && (forall i :: 0 <= i < |s.workers| ==> s.workers[i].Exiting? || s.workers[i].Closing? || s.workers[i].Gone? ==>
          s.readClosed && s.readQ == [])
    && (s.active == 0 ==> s.writeClosed || Sum(s.workers, IsClosing()) > 0)
    && (Sum(s.workers, IsClosing()) > 0 ==> s.active == 0)
    && (s.writer.ReadShut? || s.writer.Failed? ==> s.readClosed)
    && (s.writer.Failed? ==> s.writeClosed)
    && (s.Live() || s.writer.Finished? ==>
          && (s.readClosed ==> s.readerDone && s.pos == |c.items|)
          && (forall k :: 0 <= k < s.pos ==> !c.Breaking(k))
          && (s.writeClosed ==> s.active == 0))
  }

  predicate IsTask<T(==), R, W>(c: Config<T, R, W>, pos: nat, p: (nat, T))
    requires pos <= |c.items|
  {
    p.0 < pos && c.items[p.0].Work? && p.1 == c.items[p.0].task
  }

  /** Every number below `pos` is in exactly one place. */
  ghost predicate OnePlace<T, R, W>(s: State<T, R, W>) {
    forall k: nat :: Places(s, k) == if k < s.pos then 1 else 0
  }

  /** Every number below `pos` is in exactly one place and carries its own result. */
  ghost predicate Conserved<T, R, W>(c: Config<T, R, W>, s: State<T, R, W>)
    requires s.pos <= |c.items|
  {
    && s.seqNo == s.pos
    && OnePlace(s)
    && (forall j :: 0 <= j < |s.readQ| ==> IsTask(c, s.pos, s.readQ[j]))
    && (forall i :: 0 <= i < |s.workers| && s.workers[i].Holding? ==>
          s.workers[i].seqNo < s.pos && s.workers[i].r == c.ResultAt(s.workers[i].seqNo))
    && (forall j :: 0 <= j < |s.writeQ| ==> s.writeQ[j].0 < s.pos && s.writeQ[j].1 == c.ResultAt(s.writeQ[j].0))
    && (forall k: nat :: k in s.reorder ==> k < s.pos && s.reorder[k] == c.ResultAt(k))
  }

  /** The writer has what one thread would have after the results it has handled. */
  ghost predicate InStep<T, R, W>(c: Config<T, R, W>, s: State<T, R, W>) {
    && s.next <= |c.items|
    && (s.Live() || s.writer.Finished? ==> c.Prefix(s.next) == Going(s.w))
    && (s.writer.Popping? || s.writer.Finished? ==> s.next !in s.reorder)
    && (s.writer.Finished? ==> s.writeClosed && s.writeQ == [])
    && (s.writer.Threw? || s.writer.ReadShut? || s.writer.Failed? ==>
          && s.next < |c.items| && c.Prefix(s.next + 1) == Thrown(s.w)
          && (forall k :: 0 <= k <= s.next ==> !c.Breaking(k)))
  }

  ghost predicate Inv<T, R, W>(c: Config<T, R, W>, s: State<T, R, W>) {
    Shape(c, s) && InStep(c, s) && (s.Live() || s.writer.Finished? ==> Conserved(c, s))
  }

  // ---- The invariant holds initially and every step keeps it ----

  lemma {:induction false} InitInv<T, R, W>(c: Config<T, R, W>)
    requires c.workers > 0
    ensures Inv(c, Init(c))
  {
    var s := Init(c);
    AllIdle(c.workers, IsActive<R>(), 1);
    AllIdle(c.workers, IsClosing<R>(), 0);
    forall k: nat ensures Places(s, k) == 0 {
      AllIdle(c.workers, HoldsNumber<R>(k), 0);
    }
  }

  lemma {:induction false} AllIdle<R>(n: nat, f: Worker<R> -> nat, v: nat)
    requires f(Idle) == v
    ensures Sum(seq(n, _ => Idle), f) == n * v
  {
    if n > 0 {
      var xs: seq<Worker<R>> := seq(n, _ => Idle);
      assert xs[1..] == seq(n - 1, _ => Idle);
      AllIdle(n - 1, f, v);
    }
  }

  lemma {:induction false} ShapeReader<T, R, W>(c: Config<T, R, W>, s: State<T, R, W>, a: Action)
    requires Shape(c, s) && (a.ReaderPush? || a.ReaderClose? || a.ReaderThrows?) && Enabled(c, s, a)
    ensures Shape(c, Apply(c, s, a))
  {
  }

  lemma {:induction false} ShapeWorkerPop<T, R, W>(c: Config<T, R, W>, s: State<T, R, W>, i: nat)
    requires Shape(c, s) && Enabled(c, s, WorkerPop(i))
    ensures Shape(c, Apply(c, s, WorkerPop(i)))
  {
    hide Sum;
    var t := Apply(c, s, WorkerPop(i));
    SumUpdate(s.workers, i, t.workers[i], IsActive());
    SumUpdate(s.workers, i, t.workers[i], IsClosing());
  }

  lemma {:induction false} ShapeWorker<T, R, W>(c: Config<T, R, W>, s: State<T, R, W>, a: Action)
    requires Shape(c, s) && Enabled(c, s, a)
    requires a.WorkerPop? || a.WorkerPush? || a.WorkerExit? || a.WorkerClose?
    ensures Shape(c, Apply(c, s, a))
  {
    hide Sum;
    if a.WorkerPop? {
      ShapeWorkerPop(c, s, a.i);
    } else {
      var t := Apply(c, s, a);
      SumUpdate(s.workers, a.i, t.workers[a.i], IsActive());
      SumUpdate(s.workers, a.i, t.workers[a.i], IsClosing());
    }
  }

  lemma {:induction false} ShapePop<T, R, W>(c: Config<T, R, W>, s: State<T, R, W>)
    requires Shape(c, s) && Enabled(c, s, WriterPop)
    ensures Shape(c, Popped(c, s))
  {
    hide Sum;
  }

  lemma {:induction false} ShapeWriter<T, R, W>(c: Config<T, R, W>, s: State<T, R, W>, a: Action)
    requires Shape(c, s) && Enabled(c, s, a)
    requires a.WriterPop? || a.WriterDrain? || a.CloseReadQueue? || a.CloseWriteQueue?
    ensures Shape(c, Apply(c, s, a))
  {
    hide Sum, Popped;
    if a.WriterPop? { ShapePop(c, s); }
  }

  lemma {:induction false} InStepOther<T, R, W>(c: Config<T, R, W>, s: State<T, R, W>, a: Action)
    requires Inv(c, s) && Enabled(c, s, a) && !a.WriterPop? && !a.WriterDrain?
    ensures InStep(c, Apply(c, s, a))
  {
    hide Sum, Fold;
    if s.writer.Finished? && a.WorkerPush? {
      SumZeroIff(s.workers, IsActive<R>());
    }
  }

  /** Handling chunk `next` keeps the writer in step. */
  lemma {:induction false} InStepHandled<T, R, W>(c: Config<T, R, W>, s: State<T, R, W>)
    requires s.next < |c.items| && s.Live() && c.Prefix(s.next) == Going(s.w)
    requires forall k :: 0 <= k <= s.next ==> !c.Breaking(k)
    ensures InStep(c, Handled(c, s, c.ResultAt(s.next)))
  {
    PrefixStep(c, s.next);
  }

  lemma {:induction false} InStepWriter<T, R, W>(c: Config<T, R, W>, s: State<T, R, W>, a: Action)
    requires Inv(c, s) && Enabled(c, s, a) && (a.WriterPop? || a.WriterDrain?)
    ensures InStep(c, Apply(c, s, a))
  {
    hide Sum, Fold;
    if a.WriterPop? {
      if s.writeQ != [] {
        assert s.writeQ[0].0 < s.pos && s.writeQ[0].1 == c.ResultAt(s.writeQ[0].0);
        if s.writeQ[0].0 == s.next {
          InStepHandled(c, s.(writeQ := s.writeQ[1..]));
        }
      }
    } else if s.next in s.reorder {
      InStepHandled(c, s.(reorder := s.reorder - {s.next}));
    }
  }

  /** While the writer is alive, the write queue closes only after the reader is done. */
  lemma {:induction false} ClosedMeansRead<T, R, W>(c: Config<T, R, W>, s: State<T, R, W>)
    requires Shape(c, s) && (s.Live() || s.writer.Finished?) && s.writeClosed
    ensures s.readerDone
  {
    SumZeroIff(s.workers, IsActive<R>());
    assert !s.workers[0].Idle?;
  }

  lemma {:induction false} ReaderPlaces<T, R, W>(c: Config<T, R, W>, s: State<T, R, W>)
    requires OnePlace(s) && Enabled(c, s, ReaderPush) && s.seqNo == s.pos && !s.readClosed && !s.writeClosed
    ensures OnePlace(ReaderPushed(c, s))
  {
    hide Sum;
    var t := ReaderPushed(c, s);
    forall k: nat ensures Places(t, k) == if k < t.pos then 1 else 0 {
      assert Places(s, k) == if k < s.pos then 1 else 0;
      match c.items[s.pos]
      case Work(_, task) => SumAppend(s.readQ, (s.seqNo, task), Numbered(k));
      case Direct(r) => SumAppend(s.writeQ, (s.seqNo, r), Numbered(k));
    }
  }

  lemma {:induction false} SamePlaces<T, R, W>(s: State<T, R, W>, t: State<T, R, W>)
    requires OnePlace(s) && t == s.(readerDone := t.readerDone, readClosed := t.readClosed)
    ensures OnePlace(t)
  {
    hide Sum;
    assert forall k: nat :: Places(t, k) == Places(s, k);
  }

  lemma {:induction false} ConservedReader<T, R, W>(c: Config<T, R, W>, s: State<T, R, W>, a: Action)
    requires Inv(c, s) && (a.ReaderPush? || a.ReaderClose? || a.ReaderThrows?) && Enabled(c, s, a)
    requires s.Live() || s.writer.Finished?
    ensures Shape(c, Apply(c, s, a)) && Conserved(c, Apply(c, s, a))
  {
    hide Fold, Sum, Places, OnePlace, InStep;
    ShapeReader(c, s, a);
    if a.ReaderPush? {
      if s.writeClosed { ClosedMeansRead(c, s); }
      ReaderPlaces(c, s);
    } else {
      SamePlaces(s, Apply(c, s, a));
    }
  }

  lemma {:induction false} WorkerPlaces<T, R, W>(c: Config<T, R, W>, s: State<T, R, W>, a: Action)
    requires OnePlace(s) && Enabled(c, s, a) && (a.WorkerPush? ==> !s.writeClosed)
    requires a.WorkerPop? || a.WorkerPush? || a.WorkerExit? || a.WorkerClose?
    ensures OnePlace(Apply(c, s, a))
  {
    hide Sum;
    var t := Apply(c, s, a);
    forall k: nat ensures Places(t, k) == if k < t.pos then 1 else 0 {
      assert Places(s, k) == if k < s.pos then 1 else 0;
      SumUpdate(s.workers, a.i, t.workers[a.i], HoldsNumber(k));
      if a.WorkerPop? && s.readQ != [] {
        SumHead(s.readQ, Numbered(k));
      }
      if a.WorkerPush? {
        SumAppend(s.writeQ, (s.workers[a.i].seqNo, s.workers[a.i].r), Numbered(k));
      }
    }
  }

  lemma {:induction false} ConservedWorker<T, R, W>(c: Config<T, R, W>, s: State<T, R, W>, a: Action)
    requires Inv(c, s) && Enabled(c, s, a) && (s.Live() || s.writer.Finished?)
    requires a.WorkerPop? || a.WorkerPush? || a.WorkerExit? || a.WorkerClose?
    ensures Shape(c, Apply(c, s, a)) && Conserved(c, Apply(c, s, a))
  {
    hide Fold, Sum, Places;
    ShapeWorker(c, s, a);
    if a.WorkerPush? && s.writeClosed {
      SumZeroIff(s.workers, IsActive<R>());
    }
    WorkerPlaces(c, s, a);
    hide OnePlace, InStep;
    if a.WorkerPop? && s.readQ != [] {
      assert IsTask(c, s.pos, s.readQ[0]);
    }
  }

  lemma {:induction false} PopPlaces<T, R, W>(c: Config<T, R, W>, s: State<T, R, W>)
    requires OnePlace(s) && s.writer.Popping? && s.writeQ != [] && Popped(c, s).Live()
    ensures OnePlace(Popped(c, s)) && s.writeQ[0].0 !in s.reorder
  {
    hide Sum;
    var t, n := Popped(c, s), s.writeQ[0].0;
    assert Places(s, n) == 1 && Sum(s.writeQ, Numbered(n)) > 0 by { SumHead(s.writeQ, Numbered(n)); }
    forall k: nat ensures Places(t, k) == if k < t.pos then 1 else 0 {
      assert Places(s, k) == if k < s.pos then 1 else 0;
      SumHead(s.writeQ, Numbered(k));
    }
  }

  lemma {:induction false} FinishedPlaces<T, R, W>(s: State<T, R, W>)
    requires OnePlace(s)
    ensures OnePlace(s.(writer := Finished))
  {
    hide Sum;
    assert forall k: nat :: Places(s.(writer := Finished), k) == Places(s, k);
  }

  lemma {:induction false} ConservedPop<T, R, W>(c: Config<T, R, W>, s: State<T, R, W>)
    requires s.pos <= |c.items| && Conserved(c, s) && s.writer.Popping?
    requires var t := Popped(c, s); t.Live() || t.writer.Finished?
    ensures Popped(c, s).pos == s.pos && Conserved(c, Popped(c, s))
  {
    hide Fold, Sum, Places, OnePlace;
    if s.writeQ == [] { FinishedPlaces(s); } else { PopPlaces(c, s); }
  }

  lemma {:induction false} DrainPlaces<T, R, W>(c: Config<T, R, W>, s: State<T, R, W>)
    requires OnePlace(s) && Enabled(c, s, WriterDrain)
    requires var t := Apply(c, s, WriterDrain); t.Live() || t.writer.Finished?
    ensures OnePlace(Apply(c, s, WriterDrain))
  {
    hide Sum;
    var t := Apply(c, s, WriterDrain);
    forall k: nat ensures Places(t, k) == if k < t.pos then 1 else 0 {
      assert Places(s, k) == if k < s.pos then 1 else 0;
    }
  }

  lemma {:induction false} ConservedDrain<T, R, W>(c: Config<T, R, W>, s: State<T, R, W>)
    requires s.pos <= |c.items| && Conserved(c, s) && Enabled(c, s, WriterDrain)
    requires var t := Apply(c, s, WriterDrain); t.Live() || t.writer.Finished?
    ensures Apply(c, s, WriterDrain).pos == s.pos && Conserved(c, Apply(c, s, WriterDrain))
  {
    hide Fold, Sum, Places, OnePlace;
    DrainPlaces(c, s);
  }

  lemma {:induction false} ConservedWriter<T, R, W>(c: Config<T, R, W>, s: State<T, R, W>, a: Action)
    requires Inv(c, s) && Enabled(c, s, a) && (a.WriterPop? || a.WriterDrain?)
    requires var t := Apply(c, s, a); t.Live() || t.writer.Finished?
    ensures s.pos <= |c.items| && Conserved(c, Apply(c, s, a))
  {
    hide Fold, Sum, Conserved, Popped, Handled;
    if a.WriterPop? { ConservedPop(c, s); } else { ConservedDrain(c, s); }
  }

  lemma {:induction false} StepInv<T, R, W>(c: Config<T, R, W>, s: State<T, R, W>, a: Action)
    requires Inv(c, s) && Enabled(c, s, a)
    ensures Inv(c, Apply(c, s, a))
  {
    hide Sum, Fold;
    var t := Apply(c, s, a);
    match a
    case ReaderPush =>
      ShapeReader(c, s, a);
      InStepOther(c, s, a);
      if s.Live() || s.writer.Finished? { ConservedReader(c, s, a); }
    case ReaderClose =>
      ShapeReader(c, s, a);
      InStepOther(c, s, a);
      if s.Live() || s.writer.Finished? { ConservedReader(c, s, a); }
    case ReaderThrows =>
      ShapeReader(c, s, a);
      InStepOther(c, s, a);
      if s.Live() || s.writer.Finished? { ConservedReader(c, s, a); }
    case WriterPop =>
      ShapeWriter(c, s, a);
      InStepWriter(c, s, a);
      if t.Live() || t.writer.Finished? { ConservedWriter(c, s, a); }
    case WriterDrain =>
      ShapeWriter(c, s, a);
      InStepWriter(c, s, a);
      if t.Live() || t.writer.Finished? { ConservedWriter(c, s, a); }
    case CloseReadQueue => ShapeWriter(c, s, a); InStepOther(c, s, a);
    case CloseWriteQueue => ShapeWriter(c, s, a); InStepOther(c, s, a);
    case _ =>
      ShapeWorker(c, s, a);
      InStepOther(c, s, a);
      if s.Live() || s.writer.Finished? { ConservedWorker(c, s, a); }
  }

  lemma {:induction false} RunInv<T, R, W>(c: Config<T, R, W>, s: State<T, R, W>, schedule: seq<Action>,
          t: State<T, R, W>)
    requires Inv(c, s) && Run(c, s, schedule, t)
    ensures Inv(c, t)
    decreases |schedule|
  {
    hide Inv, Apply, Enabled;
    if schedule != [] {
      StepInv(c, s, schedule[0]);
      RunInv(c, Apply(c, s, schedule[0]), schedule[1..], t);
    }
  }

  // ---- Results over all schedules ----

  /** Schedule independence: once every thread has finished, the writer has exactly what one
      thread handling the results in order has, and it threw exactly when that thread does. */
  lemma {:induction false} ScheduleIndependence<T, R, W>(c: Config<T, R, W>, schedule: seq<Action>, t: State<T, R, W>)
    requires c.workers > 0
    requires Run(c, Init(c), schedule, t) && t.Done()
    ensures c.Prefix(|c.items|) == if t.writer.Finished? then Going(t.w) else Thrown(t.w)
    ensures t.writer.Finished? ==> t.next == |c.items| && t.reorder == map[] && t.writeQ == [] && t.readQ == []
  {
    InitInv(c);
    RunInv(c, Init(c), schedule, t);
    if t.writer.Finished? {
      NothingLost(c, t);
    } else {
      PrefixThrownStays(c, t.next + 1, |c.items|);
    }
  }

  /** When the writer finds its queue closed and empty, everything has been read and handled: nothing
      is left in a queue, with a worker or in the reorder buffer. */
  lemma {:induction false} NothingLost<T, R, W>(c: Config<T, R, W>, t: State<T, R, W>)
    requires Inv(c, t) && t.writer.Finished?
    ensures t.next == t.pos == |c.items| && t.reorder == map[] && t.readQ == [] && t.writeQ == []
    ensures forall i :: 0 <= i < |t.workers| ==> t.workers[i].Closing? || t.workers[i].Gone?
  {
    hide Fold;
    SumZeroIff(t.workers, IsActive<R>());
    assert t.workers[0].Closing? || t.workers[0].Gone?;
    forall k: nat ensures Sum(t.workers, HoldsNumber(k)) == 0 {
      SumZeroIff(t.workers, HoldsNumber(k));
    }
    assert Places(t, t.next) == if t.next < t.pos then 1 else 0;
    forall k: nat ensures k !in t.reorder {
      assert Places(t, k) == if k < t.pos then 1 else 0;
    }
    assert Places(t, t.pos) == 0;
  }

  /** The reader has thrown and closed nothing; everything it had read is handled, and all other threads
      wait for more. */
  ghost predicate Starved<T, R, W>(c: Config<T, R, W>, s: State<T, R, W>) {
    && s.readerDone && !s.readClosed && s.readQ == [] && (forall i :: 0 <= i < |s.workers| ==> s.workers[i].Idle?)
    && s.writer.Popping? && !s.writeClosed && s.writeQ == []
  }

  /** In every reachable state some thread can take a step, unless all have finished or wait in vain. */
  lemma {:induction false} SomeStepEnabled<T, R, W>(c: Config<T, R, W>, s: State<T, R, W>) returns (a: Action)
    requires Inv(c, s) && !s.Done() && !Starved(c, s) && c.readCapacity > 0 && c.writeCapacity > 0
    ensures Enabled(c, s, a)
  {
    hide Sum, Fold;
    if s.writer.Threw? { return CloseReadQueue; }
    if s.writer.ReadShut? { return CloseWriteQueue; }
    if s.writer.Draining? { return WriterDrain; }
    if s.writer.Popping? && (s.writeQ != [] || s.writeClosed) { return WriterPop; }
    if s.pos == |c.items| && !s.readerDone { return ReaderClose; }
    if !s.readerDone && c.Breaking(s.pos) { return ReaderThrows; }
    if i :| 0 <= i < |s.workers| && s.workers[i].Exiting? { return WorkerExit(i); }
    if i :| 0 <= i < |s.workers| && s.workers[i].Closing? { return WorkerClose(i); }
    if i :| 0 <= i < |s.workers| && s.workers[i].Holding? { return WorkerPush(i); }
    if i :| 0 <= i < |s.workers| && s.workers[i].Idle? {
      if s.readQ != [] || s.readClosed { return WorkerPop(i); }
      SumZeroIff(s.workers, IsActive<R>());
      assert !s.readerDone;
      return ReaderPush;
    }
    SumZeroIff(s.workers, IsActive<R>());
    SumZeroIff(s.workers, IsClosing<R>());
    assert s.workers[0].Gone?;
    return ReaderPush;
  }

  /** A reachable state is stuck exactly if all threads have finished, or if the reader has thrown and all
      others wait for what it would have read. */
  lemma {:induction false} StuckIff<T, R, W>(c: Config<T, R, W>, schedule: seq<Action>, s: State<T, R, W>)
    requires c.workers > 0 && c.readCapacity > 0 && c.writeCapacity > 0
    requires Run(c, Init(c), schedule, s)
    ensures Inv(c, s) && (s.Done() || Starved(c, s) <==> !exists a :: Enabled(c, s, a))
  {
    InitInv(c);
    RunInv(c, Init(c), schedule, s);
    if s.Done() || Starved(c, s) {
      NoStepLeft(c, s);
    } else {
      var a := SomeStepEnabled(c, s);
    }
  }

  /** One thread would meet the throwing result of some chunk before the read that throws, or no read
      throws. */
  predicate Completes<T, R, W>(c: Config<T, R, W>) {
    c.FirstBreak(0) == |c.items| || c.Prefix(c.FirstBreak(0)).Thrown?
  }

  /** Which of the two it is does not depend on the schedule. */
  lemma {:induction false} EndsByInput<T, R, W>(c: Config<T, R, W>, s: State<T, R, W>)
    requires Inv(c, s)
    ensures s.Done() ==> Completes(c)
    ensures Starved(c, s) ==> !Completes(c) && s.pos == s.next == c.FirstBreak(0) && c.Prefix(s.pos) == Going(s.w)
  {
    hide Fold;
    if s.Done() {
      if s.writer.Finished? { NothingLost(c, s); } else { PrefixThrownStays(c, s.next + 1, c.FirstBreak(0)); }
    }
    if Starved(c, s) {
      forall k: nat ensures Sum(s.workers, HoldsNumber(k)) == 0 { SumZeroIff(s.workers, HoldsNumber(k)); }
      assert Places(s, s.next) == if s.next < s.pos then 1 else 0;
      assert Places(s, s.pos) == 0;
    }
  }

  /** No deadlock: a reachable state has no enabled step exactly if all threads have finished, provided no
      read throws before the writer does. */
  lemma {:induction false} DeadlockFree<T, R, W>(c: Config<T, R, W>, schedule: seq<Action>, s: State<T, R, W>)
    requires c.workers > 0 && c.readCapacity > 0 && c.writeCapacity > 0 && Completes(c)
    requires Run(c, Init(c), schedule, s)
    ensures s.Done() <==> !exists a :: Enabled(c, s, a)
  {
    hide Inv, Starved, State.Done, Enabled, Run;
    StuckIff(c, schedule, s);
    EndsByInput(c, s);
  }

  lemma {:induction false} NoStepLeft<T, R, W>(c: Config<T, R, W>, s: State<T, R, W>)
    requires s.Done() || Starved(c, s)
    ensures !exists a :: Enabled(c, s, a)
  {
  }

  function WorkerWeight<R>(): Worker<R> -> nat {
    (x: Worker<R>) => match x case Idle => 3 case Holding(_, _) => 7 case Exiting => 2 case Closing => 1 case Gone => 0
  }

  function WriterWeight(pc: WriterPc): nat {
    match pc case Draining => 5 case Popping => 4 case Threw => 3 case ReadShut => 2 case _ => 0
  }

  /** How many steps can remain. */
  function Measure<T, R, W>(c: Config<T, R, W>, s: State<T, R, W>): nat
    requires s.pos <= |c.items|
  {
    6 * (|c.items| - s.pos) + (if s.readerDone then 0 else 1) + 5 * |s.readQ| + Sum(s.workers, WorkerWeight())
      + 3 * |s.writeQ| + 2 * |s.reorder| + WriterWeight(s.writer)
  }

  lemma {:induction false} WorkerStepDecreases<T, R, W>(c: Config<T, R, W>, s: State<T, R, W>, a: Action)
    requires s.pos <= |c.items| && Enabled(c, s, a)
    requires a.WorkerPop? || a.WorkerPush? || a.WorkerExit? || a.WorkerClose?
    ensures var t := Apply(c, s, a); t.pos <= |c.items| && Measure(c, t) < Measure(c, s)
  {
    hide Sum;
    var t := Apply(c, s, a);
    SumUpdate(s.workers, a.i, t.workers[a.i], WorkerWeight());
  }

  lemma {:induction false} SizeAfterAdd<R>(m: map<nat, R>, k: nat, r: R)
    requires k !in m
    ensures |m[k := r]| == |m| + 1
  {
    assert m[k := r].Keys == m.Keys + {k};
  }

  lemma {:induction false} SizeAfterRemove<R>(m: map<nat, R>, k: nat)
    requires k in m
    ensures |m - {k}| == |m| - 1
  {
    assert (m - {k}).Keys == m.Keys - {k};
  }

  lemma {:induction false} PopDecreases<T, R, W>(c: Config<T, R, W>, s: State<T, R, W>)
    requires s.pos <= |c.items| && Enabled(c, s, WriterPop)
    ensures var t := Popped(c, s); t.pos <= |c.items| && Measure(c, t) < Measure(c, s)
  {
    hide Sum, Handled;
    if s.writeQ != [] {
      HandledMeasure(c, s.(writeQ := s.writeQ[1..]), s.writeQ[0].1);
      if s.writeQ[0].0 !in s.reorder {
        SizeAfterAdd(s.reorder, s.writeQ[0].0, s.writeQ[0].1);
      }
    }
  }

  lemma {:induction false} HandledMeasure<T, R, W>(c: Config<T, R, W>, s: State<T, R, W>, r: R)
    requires s.pos <= |c.items|
    ensures Handled(c, s, r).pos == s.pos
    ensures Measure(c, Handled(c, s, r)) + WriterWeight(s.writer) <= Measure(c, s) + 5
  {
    hide Sum;
  }

  lemma {:induction false} DrainDecreases<T, R, W>(c: Config<T, R, W>, s: State<T, R, W>)
    requires s.pos <= |c.items| && Enabled(c, s, WriterDrain)
    ensures var t := Apply(c, s, WriterDrain); t.pos <= |c.items| && Measure(c, t) < Measure(c, s)
  {
    hide Sum, Handled;
    if s.next in s.reorder {
      HandledMeasure(c, s.(reorder := s.reorder - {s.next}), s.reorder[s.next]);
      SizeAfterRemove(s.reorder, s.next);
    }
  }

  lemma {:induction false} StepDecreases<T, R, W>(c: Config<T, R, W>, s: State<T, R, W>, a: Action)
    requires s.pos <= |c.items| && Enabled(c, s, a)
    ensures var t := Apply(c, s, a); t.pos <= |c.items| && Measure(c, t) < Measure(c, s)
  {
    hide Sum, Popped, Handled;
    if a.WorkerPop? || a.WorkerPush? || a.WorkerExit? || a.WorkerClose? {
      WorkerStepDecreases(c, s, a);
    } else if a.WriterPop? {
      PopDecreases(c, s);
    } else if a.WriterDrain? {
      DrainDecreases(c, s);
    }
  }

  /** No schedule is longer than the measure of the state it starts in: together with
      DeadlockFree, every way of running the threads ends with all of them finished. */
  lemma {:induction false} SchedulesEnd<T, R, W>(c: Config<T, R, W>, s: State<T, R, W>, schedule: seq<Action>,
          t: State<T, R, W>)
    requires s.pos <= |c.items| && Run(c, s, schedule, t)
    ensures t.pos <= |c.items| && |schedule| + Measure(c, t) <= Measure(c, s)
    decreases |schedule|
  {
    hide Measure, Apply, Enabled;
    if schedule != [] {
      StepDecreases(c, s, schedule[0]);
      SchedulesEnd(c, Apply(c, s, schedule[0]), schedule[1..], t);
    }
  }

  /** From every reachable state the threads can be run until all have finished, or wait in vain. */
  lemma {:induction false} CanFinish<T, R, W>(c: Config<T, R, W>, s: State<T, R, W>)
    returns (schedule: seq<Action>, t: State<T, R, W>)
    requires Inv(c, s) && c.readCapacity > 0 && c.writeCapacity > 0
    ensures Run(c, s, schedule, t) && Inv(c, t) && (t.Done() || Starved(c, t)) && (Completes(c) ==> t.Done())
    decreases if s.pos <= |c.items| then Measure(c, s) else 0
  {
    hide Apply, Enabled, Measure, InStep, Conserved, Starved, Completes, State.Done;
    EndsByInput(c, s);
    if s.Done() || Starved(c, s) {
      return [], s;
    }
    var a := SomeStepEnabled(c, s);
    StepInv(c, s, a);
    StepDecreases(c, s, a);
    var rest: seq<Action>;
    rest, t := CanFinish(c, Apply(c, s, a));
    schedule := [a] + rest;
    assert schedule[1..] == rest;
  }
}
