/**
 * The worker pool behind the event loop (thirdparty/libuv-1.30.1/src/threadpool.c), as a state
 * machine: one step per stretch of code that runs under a mutex. Any number of worker threads,
 * any number of event loops, any interleaving.
 */
module ThreadPool {
  import opened Sequences

  type Id = nat

  datatype Kind = Fast | SlowIo
  datatype WorkPointer = Function | Null | Cancelled     // w->work
  datatype Status = Ok | Ecanceled

  /** A done callback called: what it was told, and by which loop. */
  datatype Done = Done(status: Status, loop: nat)

  datatype Request = Request(loop: nat, kind: Kind, work: WorkPointer, runs: nat, dones: seq<Done>)

  /** An entry of `wq`: a request, or the message that stands for all pending slow work. */
  datatype Entry = Work(id: Id) | RunSlowWork

  /**
   * Where a worker thread is. `Top` is the start of its loop; a woken one still counts as idle
   * until it has the mutex again; a finishing one has handed its result to the event loop and is
   * about to take the mutex.
   */
  datatype Worker = Top | Blocked | Woken | Running(id: Id, slow: bool) | Finishing(slow: bool)

  /** An event loop: its queue of finished work, the part being drained, and a cancellation half done. */
  datatype Loop = Loop(queue: seq<Id>, draining: seq<Id>, cancelling: seq<Id>)

  datatype Pool = Pool(
    workers: seq<Worker>, wq: seq<Entry>, slowPending: seq<Id>, slowRunning: nat,
    loops: seq<Loop>, requests: map<Id, Request>)

  function Initial(nthreads: nat, nloops: nat): Pool {
    Pool(seq(nthreads, _ => Top), [], [], 0, seq(nloops, _ => Loop([], [], [])), map[])
  }

  function Threshold(s: Pool): nat { (|s.workers| + 1) / 2 }

  /** The condition under which a worker waits. */
  predicate MustWait(s: Pool) {
    s.wq == [] || (s.wq == [RunSlowWork] && s.slowRunning >= Threshold(s))
  }

  // ---------- counting ----------

  predicate IsBlocked(w: Worker) { w.Blocked? }
  predicate IsIdle(w: Worker) { w.Blocked? || w.Woken? }
  predicate IsAwake(w: Worker) { w.Top? || w.Woken? }
  predicate IsSlow(w: Worker) { (w.Running? || w.Finishing?) && w.slow }

  function Idle(ws: seq<Worker>): nat { CountIf(ws, IsIdle) }
  function Awake(ws: seq<Worker>): nat { CountIf(ws, IsAwake) }
  function Slow(ws: seq<Worker>): nat { CountIf(ws, IsSlow) }
  function BlockedOnes(ws: seq<Worker>): nat { CountIf(ws, IsBlocked) }

  function IsRunning(id: Id): Worker -> bool { (w: Worker) => w.Running? && w.id == id }

  function RunningIt(ws: seq<Worker>, id: Id): nat { CountIf(ws, IsRunning(id)) }
  function InQueue(q: seq<Id>, id: Id): nat { CountIf(q, Is(id)) }
  function InWq(wq: seq<Entry>, id: Id): nat { CountIf(wq, Is(Work(id))) }
  function Messages(wq: seq<Entry>): nat { CountIf(wq, Is(RunSlowWork)) }

  function InLoop(l: Loop, id: Id): nat { InQueue(l.queue, id) + InQueue(l.draining, id) }

  function InLoops(ls: seq<Loop>, id: Id): nat {
    if ls == [] then 0 else InLoop(ls[0], id) + InLoops(ls[1..], id)
  }

  function InCancels(ls: seq<Loop>, id: Id): nat {
    if ls == [] then 0 else InQueue(ls[0].cancelling, id) + InCancels(ls[1..], id)
  }

  /** In how many places a request is, from its submission to its done callback. */
  function Places(s: Pool, id: Id): nat {
    InWq(s.wq, id) + InQueue(s.slowPending, id) + RunningIt(s.workers, id) + InLoops(s.loops, id)
    + InCancels(s.loops, id)
  }

  lemma {:induction false} LoopsUpdate(ls: seq<Loop>, i: nat, l: Loop, id: Id)
    requires i < |ls|
    ensures InLoops(ls[i := l], id) + InLoop(ls[i], id) == InLoops(ls, id) + InLoop(l, id)
    ensures InCancels(ls[i := l], id) + InQueue(ls[i].cancelling, id) == InCancels(ls, id) + InQueue(l.cancelling, id)
  {
    if i == 0 {
      assert ls[0 := l][1..] == ls[1..];
    } else {
      assert ls[i := l][1..] == ls[1..][i - 1 := l];
      LoopsUpdate(ls[1..], i - 1, l, id);
    }
  }

  // ---------- the steps ----------

  datatype Step =
    | Submit(id: Id, loop: nat, kind: Kind, wakes: nat)   // uv__work_submit and post
    | WakeSpuriously(worker: nat)
    | Reacquire(worker: nat)                              // back from the wait, with the mutex
    | Wait(worker: nat)
    | Take(worker: nat, wakes: nat)                       // one pass of the worker's loop
    | Finish(worker: nat)                                 // work done, result queued
    | Relock(worker: nat)
    | CancelBegin(id: Id)                                 // the part of uv__work_cancel under both mutexes
    | CancelEnd(loop: nat)
    | DrainMove(loop: nat)                                // uv__work_done takes the queue
    | DrainNext(loop: nat)                                // and calls one done callback

  /** `uv_cond_signal`, guarded by `idle_threads > 0`: wakes a blocked worker if there is one. */
  predicate CanWake(ws: seq<Worker>, k: nat) {
    Idle(ws) > 0 && (exists i :: 0 <= i < |ws| && ws[i].Blocked?) ==> k < |ws| && ws[k].Blocked?
  }

  function Wake(ws: seq<Worker>, k: nat): seq<Worker> {
    if Idle(ws) > 0 && k < |ws| && ws[k].Blocked? then ws[k := Woken] else ws
  }

  function Remove<T(==)>(q: seq<T>, x: T): seq<T> {
    if q == [] then [] else if q[0] == x then Remove(q[1..], x) else [q[0]] + Remove(q[1..], x)
  }

  function RemoveFromLoops(ls: seq<Loop>, id: Id): (r: seq<Loop>)
    ensures |r| == |ls|
  {
    if ls == [] then []
    else
      [ls[0].(queue := Remove(ls[0].queue, id), draining := Remove(ls[0].draining, id))] + RemoveFromLoops(ls[1..], id)
  }

  /** The test of uv__work_cancel: still linked into some queue, and not yet done executing. */
  predicate Cancellable(s: Pool, id: Id)
    requires id in s.requests
  {
    InWq(s.wq, id) + InQueue(s.slowPending, id) + InLoops(s.loops, id) > 0 && s.requests[id].work != Null
  }

  predicate Enabled(s: Pool, step: Step) {
    match step
    case Submit(id, l, _, k) => id !in s.requests && l < |s.loops| && CanWake(s.workers, k)
    case WakeSpuriously(i) => i < |s.workers| && s.workers[i].Blocked?
    case Reacquire(i) => i < |s.workers| && s.workers[i].Woken?
    case Wait(i) => i < |s.workers| && s.workers[i].Top? && MustWait(s)
    case Take(i, k) => i < |s.workers| && s.workers[i].Top? && !MustWait(s) && CanWake(s.workers, k)
    case Finish(i) => i < |s.workers| && s.workers[i].Running? && s.workers[i].id in s.requests
                      && s.requests[s.workers[i].id].loop < |s.loops|
    case Relock(i) => i < |s.workers| && s.workers[i].Finishing?
    // uv_cancel is called on the loop's own thread, for a request whose done callback has not been called
    case CancelBegin(id) => id in s.requests && s.requests[id].dones == [] && s.requests[id].loop < |s.loops|
                            && s.loops[s.requests[id].loop].cancelling == []
    case CancelEnd(l) => l < |s.loops| && |s.loops[l].cancelling| > 0 && s.loops[l].cancelling[0] in s.requests
    case DrainMove(l) => l < |s.loops| && s.loops[l].cancelling == [] && s.loops[l].draining == []
    case DrainNext(l) => l < |s.loops| && s.loops[l].cancelling == [] && s.loops[l].draining != []
                         && s.loops[l].draining[0] in s.requests
  }

  function Post(s: Pool, id: Id, kind: Kind, k: nat): Pool {
    if kind == SlowIo then
      var t := s.(slowPending := s.slowPending + [id]);
      if RunSlowWork in s.wq then t
      else t.(wq := s.wq + [RunSlowWork], workers := Wake(s.workers, k))
    else
      s.(wq := s.wq + [Work(id)], workers := Wake(s.workers, k))
  }

  function StartRun(s: Pool, i: nat, id: Id, slow: bool): Pool
    requires i < |s.workers|
  {
    var requests := if id in s.requests then s.requests[id := s.requests[id].(runs := s.requests[id].runs + 1)]
      else s.requests;
    s.(workers := s.workers[i := Running(id, slow)], requests := requests)
  }

  function TakeHead(s: Pool, i: nat, k: nat): Pool
    requires i < |s.workers| && s.wq != []
  {
    var rest := s.wq[1..];
    match s.wq[0]
    case Work(id) => StartRun(s.(wq := rest), i, id, false)
    case RunSlowWork =>
      if s.slowRunning >= Threshold(s) then s.(wq := rest + [RunSlowWork])
      else if s.slowPending == [] then s.(wq := rest)
      else
        var t := s.(slowRunning := s.slowRunning + 1, slowPending := s.slowPending[1..]);
        var u := if t.slowPending != [] then t.(wq := rest + [RunSlowWork], workers := Wake(s.workers, k))
          else t.(wq := rest);
        StartRun(u, i, s.slowPending[0], true)
  }

  function Next(s: Pool, step: Step): Pool
    requires Enabled(s, step)
  {
    match step
    case Submit(id, l, kind, k) =>
      Post(s.(requests := s.requests[id := Request(l, kind, Function, 0, [])]), id, kind, k)
    case WakeSpuriously(i) => s.(workers := s.workers[i := Woken])
    case Reacquire(i) => s.(workers := s.workers[i := Top])
    case Wait(i) => s.(workers := s.workers[i := Blocked])
    case Take(i, k) => TakeHead(s, i, k)
    case Finish(i) =>
      var w := s.workers[i];
      var r := s.requests[w.id];
      var l := s.loops[r.loop];
      s.(workers := s.workers[i := Finishing(w.slow)],
         requests := s.requests[w.id := r.(work := Null)],
         loops := s.loops[r.loop := l.(queue := l.queue + [w.id])])
    case Relock(i) =>
      var w := s.workers[i];
      s.(workers := s.workers[i := Top],
         slowRunning := if w.slow && s.slowRunning > 0 then s.slowRunning - 1 else s.slowRunning)
    case CancelBegin(id) =>
      if !Cancellable(s, id) then s   // UV_EBUSY
      else
        var l := s.requests[id].loop;
        var ls := RemoveFromLoops(s.loops, id);
        s.(wq := Remove(s.wq, Work(id)), slowPending := Remove(s.slowPending, id),
           loops := ls[l := ls[l].(cancelling := [id])])
    case CancelEnd(l) =>
      var id := s.loops[l].cancelling[0];
      s.(requests := s.requests[id := s.requests[id].(work := Cancelled)],
         loops := s.loops[l := s.loops[l].(queue := s.loops[l].queue + [id], cancelling := [])])
    case DrainMove(l) => s.(loops := s.loops[l := s.loops[l].(draining := s.loops[l].queue, queue := [])])
    case DrainNext(l) =>
      var id := s.loops[l].draining[0];
      var r := s.requests[id];
      var status := if r.work == Cancelled then Ecanceled else Ok;
      s.(requests := s.requests[id := r.(dones := r.dones + [Done(status, l)])],
         loops := s.loops[l := s.loops[l].(draining := s.loops[l].draining[1..])])
  }

  // ---------- scheduling: the slow-work cap and the wake-ups ----------

  /** The one queued entry that no worker may take now: the message, when slow work is at its cap. */
  function Throttled(s: Pool): nat {
    if Messages(s.wq) > 0 && s.slowRunning >= Threshold(s) then 1 else 0
  }

  /** While any worker sleeps, there is a worker on its way to the queue for every entry that can be taken. */
  predicate NoLostWakeup(s: Pool) {
    BlockedOnes(s.workers) > 0 ==> Awake(s.workers) + Throttled(s) >= |s.wq|
  }

  predicate Scheduling(s: Pool) {
    && |s.workers| > 0
    && s.slowRunning == Slow(s.workers) <= Threshold(s)
    && Messages(s.wq) <= 1
    && (s.slowPending != [] ==> Messages(s.wq) == 1)
    && NoLostWakeup(s)
  }

  function Bit(b: bool): nat { if b then 1 else 0 }

  lemma WorkerUpdate(ws: seq<Worker>, i: nat, w: Worker, id: Id)
    requires i < |ws|
    ensures var t, v := ws[i := w], ws[i];
      && Idle(t) + Bit(IsIdle(v)) == Idle(ws) + Bit(IsIdle(w))
      && Awake(t) + Bit(IsAwake(v)) == Awake(ws) + Bit(IsAwake(w))
      && Slow(t) + Bit(IsSlow(v)) == Slow(ws) + Bit(IsSlow(w))
      && BlockedOnes(t) + Bit(v.Blocked?) == BlockedOnes(ws) + Bit(w.Blocked?)
      && RunningIt(t, id) + Bit(v.Running? && v.id == id) == RunningIt(ws, id) + Bit(w.Running? && w.id == id)
  {
    CountUpdate(ws, i, w, IsIdle);
    CountUpdate(ws, i, w, IsAwake);
    CountUpdate(ws, i, w, IsSlow);
    CountUpdate(ws, i, w, IsBlocked);
    CountUpdate(ws, i, w, IsRunning(id));
  }

  /** A signal under the mutex: if anyone sleeps, one more is awake afterwards. */
  lemma WakeSpec(ws: seq<Worker>, k: nat, id: Id)
    requires CanWake(ws, k)
    ensures var t := Wake(ws, k);
      && |t| == |ws| && Slow(t) == Slow(ws) && RunningIt(t, id) == RunningIt(ws, id)
      && (BlockedOnes(ws) > 0 ==> Awake(t) == Awake(ws) + 1)
      && BlockedOnes(t) <= BlockedOnes(ws)
      && forall i :: 0 <= i < |ws| && !ws[i].Blocked? ==> t[i] == ws[i]
  {
    if BlockedOnes(ws) > 0 {
      var i := CountWitness(ws, IsBlocked);
      CountPositive(ws, i, IsIdle);
    }
    if k < |ws| { WorkerUpdate(ws, k, Woken, id); }
  }

  lemma WqSnoc(wq: seq<Entry>, e: Entry, id: Id)
    ensures Messages(wq + [e]) == Messages(wq) + Bit(e == RunSlowWork)
    ensures InWq(wq + [e], id) == InWq(wq, id) + Bit(e == Work(id))
  {
    CountSnoc(wq, e, Is(RunSlowWork));
    CountSnoc(wq, e, Is(Work(id)));
  }

  lemma MessageIn(wq: seq<Entry>)
    ensures Messages(wq) > 0 <==> RunSlowWork in wq
  {
    if RunSlowWork in wq {
      var i :| 0 <= i < |wq| && wq[i] == RunSlowWork;
      CountPositive(wq, i, Is(RunSlowWork));
    } else if Messages(wq) > 0 {
      var i := CountWitness(wq, Is(RunSlowWork));
    }
  }

  lemma {:induction false} RemoveSpec<T>(q: seq<T>, x: T, y: T)
    ensures CountIf(Remove(q, x), Is(y)) == if x == y then 0 else CountIf(q, Is(y))
    ensures |Remove(q, x)| <= |q|
  {
    if q != [] { RemoveSpec(q[1..], x, y); }
  }

  lemma SubmitSchedules(s: Pool, id: Id, kind: Kind, k: nat)
    requires Scheduling(s) && CanWake(s.workers, k)
    ensures Scheduling(Post(s, id, kind, k))
  {
    hide CountIf;
    WakeSpec(s.workers, k, id);
    MessageIn(s.wq);
    WqSnoc(s.wq, RunSlowWork, id);
    WqSnoc(s.wq, Work(id), id);
  }

  lemma TakeSchedules(s: Pool, i: nat, k: nat)
    requires Scheduling(s) && Enabled(s, Take(i, k))
    ensures Scheduling(TakeHead(s, i, k))
  {
    hide CountIf;
    var rest := s.wq[1..];
    WakeSpec(s.workers, k, 0);
    WqCons(s.wq, 0);
    WqSnoc(rest, RunSlowWork, 0);
    if s.wq[0].Work? {
      WorkerUpdate(s.workers, i, Running(s.wq[0].id, false), 0);
    } else if s.slowRunning < Threshold(s) && s.slowPending != [] {
      WorkerUpdate(s.workers, i, Running(s.slowPending[0], true), 0);
      WorkerUpdate(Wake(s.workers, k), i, Running(s.slowPending[0], true), 0);
    }
  }

  lemma WqCons(wq: seq<Entry>, id: Id)
    requires wq != []
    ensures Messages(wq) == Bit(wq[0] == RunSlowWork) + Messages(wq[1..])
    ensures InWq(wq, id) == Bit(wq[0] == Work(id)) + InWq(wq[1..], id)
  {
  }

  lemma NextSchedules(s: Pool, step: Step)
    requires Scheduling(s) && Enabled(s, step)
    ensures Scheduling(Next(s, step))
  {
    hide CountIf;
    match step
    case Submit(id, l, kind, k) =>
      SubmitSchedules(s.(requests := s.requests[id := Request(l, kind, Function, 0, [])]), id, kind, k);
    case WakeSpuriously(i) => WorkerUpdate(s.workers, i, Woken, 0);
    case Reacquire(i) => WorkerUpdate(s.workers, i, Top, 0);
    case Wait(i) =>
      WorkerUpdate(s.workers, i, Blocked, 0);
      if s.wq != [] { WqCons(s.wq, 0); }
    case Take(i, k) => TakeSchedules(s, i, k);
    case Finish(i) => WorkerUpdate(s.workers, i, Finishing(s.workers[i].slow), 0);
    case Relock(i) => WorkerUpdate(s.workers, i, Top, 0);
    case CancelBegin(id) =>
      RemoveSpec(s.wq, Work(id), RunSlowWork);
      RemoveSpec(s.slowPending, id, id);
    case CancelEnd(_) =>
    case DrainMove(_) =>
    case DrainNext(_) =>
  }

  // ---------- requests: one place, one run, one done callback ----------

  /** What the place of a request says about its work pointer and its past. */
  predicate WorkMatches(s: Pool, id: Id, r: Request) {
    && r.runs <= 1
    && (InWq(s.wq, id) + InQueue(s.slowPending, id) > 0 ==> r.work == Function && r.runs == 0)
    && (RunningIt(s.workers, id) > 0 ==> r.work == Function && r.runs == 1)
    && (InLoops(s.loops, id) > 0 ==> (r.work == Null && r.runs == 1) || (r.work == Cancelled && r.runs == 0))
    && (InCancels(s.loops, id) > 0 ==> r.work != Null && r.runs == 0)
    && (r.dones != [] ==> (r.dones[0].status == Ecanceled <==> r.runs == 0))
  }

  predicate Tracked(s: Pool, id: Id) {
    if id in s.requests then
      var r := s.requests[id];
      Places(s, id) + |r.dones| == 1 && WorkMatches(s, id, r)
    else
      Places(s, id) == 0
  }

  predicate OneCancelEach(s: Pool) {
    forall l :: 0 <= l < |s.loops| ==> |s.loops[l].cancelling| <= 1
  }

  lemma QueueSnoc(q: seq<Id>, x: Id, id: Id)
    ensures InQueue(q + [x], id) == InQueue(q, id) + Bit(x == id)
  {
    CountSnoc(q, x, Is(id));
  }

  lemma QueueCons(q: seq<Id>, id: Id)
    requires q != []
    ensures InQueue(q, id) == Bit(q[0] == id) + InQueue(q[1..], id)
  {
  }

  lemma QueueOne(x: Id, id: Id)
    ensures InQueue([x], id) == Bit(x == id) && InQueue([], id) == 0
  {
    CountSnoc([], x, Is(id));
    assert [] + [x] == [x];
  }

  lemma {:induction false} RemoveFromLoopsSpec(ls: seq<Loop>, x: Id, id: Id)
    ensures InLoops(RemoveFromLoops(ls, x), id) == if x == id then 0 else InLoops(ls, id)
    ensures InCancels(RemoveFromLoops(ls, x), id) == InCancels(ls, id)
    ensures forall l :: 0 <= l < |ls| ==> RemoveFromLoops(ls, x)[l].cancelling == ls[l].cancelling
  {
    if ls != [] {
      RemoveSpec(ls[0].queue, x, id);
      RemoveSpec(ls[0].draining, x, id);
      RemoveFromLoopsSpec(ls[1..], x, id);
    }
  }

  lemma SubmitTracks(s: Pool, x: Id, l: nat, kind: Kind, k: nat, id: Id)
    requires Tracked(s, id) && Enabled(s, Submit(x, l, kind, k))
    ensures Tracked(Next(s, Submit(x, l, kind, k)), id)
  {
    hide CountIf, InLoops, InCancels;
    WakeSpec(s.workers, k, id);
    WqSnoc(s.wq, Work(x), id);
    WqSnoc(s.wq, RunSlowWork, id);
    QueueSnoc(s.slowPending, x, id);
  }

  lemma TakeTracks(s: Pool, i: nat, k: nat, id: Id)
    requires Tracked(s, id) && Enabled(s, Take(i, k))
    ensures Tracked(Next(s, Take(i, k)), id)
  {
    hide CountIf, InLoops, InCancels;
    var rest := s.wq[1..];
    WakeSpec(s.workers, k, id);
    WqCons(s.wq, id);
    WqSnoc(rest, RunSlowWork, id);
    if s.wq[0].Work? {
      WorkerUpdate(s.workers, i, Running(s.wq[0].id, false), id);
    } else if s.slowRunning < Threshold(s) && s.slowPending != [] {
      QueueCons(s.slowPending, id);
      WorkerUpdate(s.workers, i, Running(s.slowPending[0], true), id);
      WorkerUpdate(Wake(s.workers, k), i, Running(s.slowPending[0], true), id);
    }
  }

  lemma FinishTracks(s: Pool, i: nat, id: Id)
    requires Tracked(s, id) && Enabled(s, Finish(i))
    ensures Tracked(Next(s, Finish(i)), id)
  {
    hide CountIf, InLoops, InCancels;
    var w := s.workers[i];
    var n := s.requests[w.id].loop;
    var l := s.loops[n];
    WorkerUpdate(s.workers, i, Finishing(w.slow), id);
    LoopsUpdate(s.loops, n, l.(queue := l.queue + [w.id]), id);
    QueueSnoc(l.queue, w.id, id);
  }

  lemma CancelTracks(s: Pool, x: Id, id: Id)
    requires Tracked(s, id) && Enabled(s, CancelBegin(x))
    ensures Tracked(Next(s, CancelBegin(x)), id)
  {
    hide CountIf, InLoops, InCancels;
    if Cancellable(s, x) {
      var n := s.requests[x].loop;
      var ls := RemoveFromLoops(s.loops, x);
      RemoveSpec(s.wq, Work(x), Work(id));
      RemoveSpec(s.slowPending, x, id);
      RemoveFromLoopsSpec(s.loops, x, id);
      LoopsUpdate(ls, n, ls[n].(cancelling := [x]), id);
      QueueOne(x, id);
    }
  }

  lemma LoopTracks(s: Pool, l: nat, step: Step, id: Id)
    requires Tracked(s, id) && OneCancelEach(s) && Enabled(s, step)
    requires step == CancelEnd(l) || step == DrainMove(l) || step == DrainNext(l)
    ensures Tracked(Next(s, step), id)
  {
    hide CountIf, InLoops, InCancels;
    var o, n := s.loops[l], Next(s, step).loops[l];
    LoopsUpdate(s.loops, l, n, id);
    QueueOne(0, id);
    if o.cancelling != [] {
      QueueSnoc(o.queue, o.cancelling[0], id);
      assert o.cancelling == [o.cancelling[0]];
      QueueOne(o.cancelling[0], id);
    }
    if o.draining != [] { QueueCons(o.draining, id); }
  }

  lemma NextTracks(s: Pool, step: Step, id: Id)
    requires Tracked(s, id) && OneCancelEach(s) && Enabled(s, step)
    ensures Tracked(Next(s, step), id)
  {
    hide CountIf, InLoops, InCancels;
    match step
    case Submit(x, l, kind, k) => SubmitTracks(s, x, l, kind, k, id);
    case WakeSpuriously(i) => WorkerUpdate(s.workers, i, Woken, id);
    case Reacquire(i) => WorkerUpdate(s.workers, i, Top, id);
    case Wait(i) => WorkerUpdate(s.workers, i, Blocked, id);
    case Take(i, k) => TakeTracks(s, i, k, id);
    case Finish(i) => FinishTracks(s, i, id);
    case Relock(i) => WorkerUpdate(s.workers, i, Top, id);
    case CancelBegin(x) => CancelTracks(s, x, id);
    case CancelEnd(l) => LoopTracks(s, l, step, id);
    case DrainMove(l) => LoopTracks(s, l, step, id);
    case DrainNext(l) => LoopTracks(s, l, step, id);
  }

  lemma NextOneCancel(s: Pool, step: Step)
    requires OneCancelEach(s) && Enabled(s, step)
    ensures OneCancelEach(Next(s, step))
  {
    if step.CancelBegin? { RemoveFromLoopsSpec(s.loops, step.id, step.id); }
  }

  // ---------- whole runs ----------

  predicate IsRun(s: Pool, steps: seq<Step>)
    decreases |steps|
  {
    steps != [] ==> Enabled(s, steps[0]) && IsRun(Next(s, steps[0]), steps[1..])
  }

  function Final(s: Pool, steps: seq<Step>): Pool
    requires IsRun(s, steps)
    decreases |steps|
  {
    if steps == [] then s else Final(Next(s, steps[0]), steps[1..])
  }

  lemma {:induction false} RunKeeps(s: Pool, steps: seq<Step>, id: Id)
    requires IsRun(s, steps) && Scheduling(s) && Tracked(s, id) && OneCancelEach(s)
    ensures var f := Final(s, steps); Scheduling(f) && Tracked(f, id) && OneCancelEach(f)
    decreases |steps|
  {
    if steps != [] {
      NextSchedules(s, steps[0]);
      NextTracks(s, steps[0], id);
      NextOneCancel(s, steps[0]);
      RunKeeps(Next(s, steps[0]), steps[1..], id);
    }
  }

  lemma {:induction false} NoneCounted<T>(n: nat, x: T, p: T -> bool)
    requires !p(x)
    ensures CountIf(seq(n, _ => x), p) == 0
  {
    if n > 0 {
      NoneCounted(n - 1, x, p);
      assert seq(n, _ => x)[1..] == seq(n - 1, _ => x);
    }
  }

  lemma {:induction false} NothingInEmptyLoops(n: nat, id: Id)
    ensures InLoops(seq(n, _ => Loop([], [], [])), id) == 0 && InCancels(seq(n, _ => Loop([], [], [])), id) == 0
  {
    if n > 0 {
      NothingInEmptyLoops(n - 1, id);
      assert seq(n, _ => Loop([], [], []))[1..] == seq(n - 1, _ => Loop([], [], []));
    }
  }

  lemma InitialKeeps(nthreads: nat, nloops: nat, id: Id)
    requires nthreads > 0
    ensures var s := Initial(nthreads, nloops); Scheduling(s) && Tracked(s, id) && OneCancelEach(s)
  {
    NoneCounted(nthreads, Top, IsBlocked);
    NoneCounted(nthreads, Top, IsSlow);
    NoneCounted(nthreads, Top, IsRunning(id));
    NothingInEmptyLoops(nloops, id);
  }

  /**
   * In every run: a request is in exactly one place until its done callback has been called, which
   * happens once and at its loop; its work function runs at most once, and the callback is told it
   * was cancelled exactly when the function never ran.
   */
  lemma EveryRequestOnce(nthreads: nat, nloops: nat, steps: seq<Step>, id: Id)
    requires nthreads > 0 && IsRun(Initial(nthreads, nloops), steps)
    ensures var s := Final(Initial(nthreads, nloops), steps);
      if id in s.requests then
        var r := s.requests[id];
        && Places(s, id) + |r.dones| == 1
        && r.runs <= 1
        && (r.dones != [] ==> (r.dones[0].status == Ecanceled <==> r.runs == 0))
        && (RunningIt(s.workers, id) > 0 ==> r.work == Function)
        && (forall d :: d in r.dones ==> d.loop == r.loop)
      else Places(s, id) == 0
  {
    hide Scheduling, IsRun, Next, CountIf, InLoops, InCancels;
    InitialKeeps(nthreads, nloops, id);
    RunKeeps(Initial(nthreads, nloops), steps, id);
    RunOnward(Initial(nthreads, nloops), steps);
  }

  /**
   * In every run: no more than half of the threads, rounded up, are busy with slow work, the counter
   * is exact, and pending slow work is announced and waits only while half of them are.
   */
  lemma SlowWorkIsCapped(nthreads: nat, nloops: nat, steps: seq<Step>)
    requires nthreads > 0 && IsRun(Initial(nthreads, nloops), steps)
    ensures var s := Final(Initial(nthreads, nloops), steps);
      && s.slowRunning == Slow(s.workers) && 2 * s.slowRunning <= nthreads + 1
      && (s.slowPending != [] ==> RunSlowWork in s.wq)
      && (s.slowPending != [] && MustWait(s) ==> 2 * s.slowRunning >= nthreads)
  {
    InitialKeeps(nthreads, nloops, 0);
    RunKeeps(Initial(nthreads, nloops), steps, 0);
    RunOnward(Initial(nthreads, nloops), steps);
    MessageIn(Final(Initial(nthreads, nloops), steps).wq);
  }

  /**
   * In every run, no wake-up is lost: if some worker sleeps although its wait condition is false,
   * another one is on its way to the queue; and when all of them sleep, nothing is waiting to be done.
   */
  lemma NoWorkIsStranded(nthreads: nat, nloops: nat, steps: seq<Step>)
    requires nthreads > 0 && IsRun(Initial(nthreads, nloops), steps)
    ensures var s := Final(Initial(nthreads, nloops), steps);
      && NoLostWakeup(s)
      && (!MustWait(s) ==> BlockedOnes(s.workers) == 0 || Awake(s.workers) > 0)
      && ((forall i :: 0 <= i < |s.workers| ==> s.workers[i].Blocked?) ==> s.wq == [] && s.slowPending == [])
  {
    InitialKeeps(nthreads, nloops, 0);
    RunKeeps(Initial(nthreads, nloops), steps, 0);
    var s := Final(Initial(nthreads, nloops), steps);
    MessageIn(s.wq);
    if forall i :: 0 <= i < |s.workers| ==> s.workers[i].Blocked? {
      AllBlocked(s.workers);
    }
  }

  lemma AllBlocked(ws: seq<Worker>)
    requires |ws| > 0 && forall i :: 0 <= i < |ws| ==> ws[i].Blocked?
    ensures BlockedOnes(ws) > 0 && Awake(ws) == 0 && Slow(ws) == 0
  {
    CountPositive(ws, 0, IsBlocked);
    NoneCounted(|ws|, Blocked, IsAwake);
    NoneCounted(|ws|, Blocked, IsSlow);
    assert ws == seq(|ws|, _ => Blocked);
  }

  // ---------- each request at its own loop, each kind in its own queue ----------

  predicate InLoopAt(l: Loop, id: Id) { id in l.queue || id in l.draining || id in l.cancelling }

  /** Results wait, and done callbacks are called, only at the loop of their request. */
  ghost predicate AtHome(s: Pool) {
    && (forall l, id :: 0 <= l < |s.loops| && InLoopAt(s.loops[l], id) ==> id in s.requests && s.requests[id].loop == l)
    && (forall id, d :: id in s.requests && d in s.requests[id].dones ==> d.loop == s.requests[id].loop)
  }

  /** Slow work is in the queue for slow work, all other work in the other, and runs as what it is. */
  ghost predicate Sorted(s: Pool) {
    && (forall e :: e in s.wq && e.Work? ==> e.id in s.requests && s.requests[e.id].kind == Fast)
    && (forall id :: id in s.slowPending ==> id in s.requests && s.requests[id].kind == SlowIo)
    && (forall w :: w in s.workers && w.Running? ==>
          w.id in s.requests && (w.slow <==> s.requests[w.id].kind == SlowIo))
  }

  lemma {:induction false} RemoveMembers<T>(q: seq<T>, x: T, y: T)
    ensures y in Remove(q, x) <==> y in q && y != x
  {
    if q != [] { RemoveMembers(q[1..], x, y); }
  }

  lemma {:induction false} RemoveFromLoopsMembers(ls: seq<Loop>, x: Id, l: nat, id: Id)
    requires l < |ls|
    ensures InLoopAt(RemoveFromLoops(ls, x)[l], id) ==> InLoopAt(ls[l], id)
    decreases |ls|
  {
    RemoveMembers(ls[0].queue, x, id);
    RemoveMembers(ls[0].draining, x, id);
    if l > 0 { RemoveFromLoopsMembers(ls[1..], x, l - 1, id); }
  }

  lemma CancelAtHome(s: Pool, x: Id)
    requires AtHome(s) && Enabled(s, CancelBegin(x))
    ensures AtHome(Next(s, CancelBegin(x)))
  {
    hide RemoveFromLoops, Cancellable, Remove;
    var t := Next(s, CancelBegin(x));
    forall l, id | 0 <= l < |t.loops| && InLoopAt(t.loops[l], id) ensures id in s.requests && s.requests[id].loop == l {
      RemoveFromLoopsMembers(s.loops, x, l, id);
    }
  }

  /** The same request, later. */
  predicate Later(r: Request, t: Request) {
    t.loop == r.loop && t.kind == r.kind && r.dones <= t.dones && r.runs <= t.runs
  }

  /** Every request is still there, as it was submitted. */
  ghost predicate Onward(s: Pool, t: Pool) {
    && (forall id :: id in s.requests ==> id in t.requests && Later(s.requests[id], t.requests[id]))
    && |t.loops| == |s.loops| && |t.workers| == |s.workers|
  }

  lemma WakeLength(ws: seq<Worker>, k: nat)
    ensures |Wake(ws, k)| == |ws|
  {
  }

  /** No done callback is called but by the drain; new requests have not been called back. */
  ghost predicate SameDones(s: Pool, t: Pool) {
    forall id :: id in t.requests && t.requests[id].dones != [] ==>
      id in s.requests && t.requests[id].dones == s.requests[id].dones
  }

  lemma PoolOnward(s: Pool, step: Step)
    requires Enabled(s, step) && (step.Submit? || step.Take?)
    ensures Onward(s, Next(s, step)) && SameDones(s, Next(s, step))
  {
    hide Wake, CanWake, MustWait, Threshold;
    WakeLength(s.workers, step.wakes);
  }

  lemma CancelOnward(s: Pool, id: Id)
    requires Enabled(s, CancelBegin(id))
    ensures Onward(s, Next(s, CancelBegin(id))) && SameDones(s, Next(s, CancelBegin(id)))
  {
    hide RemoveFromLoops, Cancellable, Remove;
  }

  lemma NextOnward(s: Pool, step: Step)
    requires Enabled(s, step)
    ensures Onward(s, Next(s, step)) && (!step.DrainNext? ==> SameDones(s, Next(s, step)))
  {
    hide RemoveFromLoops, Cancellable, Wake, CanWake, MustWait, Threshold, Remove, TakeHead, Post;
    match step
    case Submit(_, _, _, _) => PoolOnward(s, step);
    case Take(_, _) => PoolOnward(s, step);
    case CancelBegin(id) => CancelOnward(s, id);
    case _ =>
  }

  /** Steps that leave the loops alone. */
  lemma SameLoopsAtHome(s: Pool, step: Step)
    requires AtHome(s) && Enabled(s, step) && Next(s, step).loops == s.loops && !step.DrainNext?
    ensures AtHome(Next(s, step))
  {
    hide Next, Enabled;
    NextOnward(s, step);
  }

  lemma LoopAtHome(s: Pool, step: Step)
    requires AtHome(s) && Enabled(s, step)
    requires step.Finish? || step.CancelEnd? || step.DrainMove? || step.DrainNext?
    ensures AtHome(Next(s, step))
  {
    var t := Next(s, step);
    forall l, id | 0 <= l < |t.loops| && InLoopAt(t.loops[l], id) ensures id in s.requests && s.requests[id].loop == l {
      assert InLoopAt(s.loops[l], id) || (step.Finish? && id == s.workers[step.worker].id && l == s.requests[id].loop);
    }
  }

  lemma NextAtHome(s: Pool, step: Step)
    requires AtHome(s) && Enabled(s, step)
    ensures AtHome(Next(s, step))
  {
    hide AtHome, RemoveFromLoops, Cancellable, Wake, CanWake, MustWait, Threshold, Remove;
    match step
    case CancelBegin(x) => CancelAtHome(s, x);
    case Finish(_) => LoopAtHome(s, step);
    case CancelEnd(_) => LoopAtHome(s, step);
    case DrainMove(_) => LoopAtHome(s, step);
    case DrainNext(_) => LoopAtHome(s, step);
    case _ => SameLoopsAtHome(s, step);
  }

  /** One worker set to something else, perhaps after another one was woken. */
  lemma WorkerSorted(s: Pool, t: Pool, ws: seq<Worker>, i: nat, w: Worker)
    requires Sorted(s) && i < |ws| && t.workers == ws[i := w] && forall v :: v in ws && v.Running? ==> v in s.workers
    requires forall e :: e in t.wq && e.Work? ==> e in s.wq
    requires forall id :: id in t.slowPending ==> id in s.slowPending
    requires Onward(s, t)
    requires w.Running? ==> w.id in s.requests && (w.slow <==> s.requests[w.id].kind == SlowIo)
    ensures Sorted(t)
  {
  }

  lemma WakeRuns(ws: seq<Worker>, k: nat)
    ensures forall v :: v in Wake(ws, k) && v.Running? ==> v in ws
  {
  }

  lemma TakeSorted(s: Pool, i: nat, k: nat)
    requires Sorted(s) && Enabled(s, Take(i, k))
    ensures Sorted(Next(s, Take(i, k)))
  {
    hide Sorted, Wake, CanWake, Threshold, Onward;
    NextOnward(s, Take(i, k));
    WakeRuns(s.workers, k);
    WakeLength(s.workers, k);
    var t := TakeHead(s, i, k);
    HeadSorted(s);
    match s.wq[0]
    case Work(id) => WorkerSorted(s, t, s.workers, i, Running(id, false));
    case RunSlowWork =>
      if s.slowRunning < Threshold(s) && s.slowPending != [] {
        var ws := if |s.slowPending| > 1 then Wake(s.workers, k) else s.workers;
        WorkerSorted(s, t, ws, i, Running(s.slowPending[0], true));
      } else {
        WorkerSorted(s, t, s.workers, i, s.workers[i]);
      }
  }

  lemma HeadSorted(s: Pool)
    requires Sorted(s)
    ensures s.wq != [] && s.wq[0].Work? ==> s.wq[0].id in s.requests && s.requests[s.wq[0].id].kind == Fast
    ensures s.slowPending != [] ==> s.slowPending[0] in s.requests && s.requests[s.slowPending[0]].kind == SlowIo
  {
  }

  lemma SubmitSorted(s: Pool, step: Step)
    requires Sorted(s) && Enabled(s, step) && step.Submit?
    ensures Sorted(Next(s, step))
  {
    hide Wake, CanWake;
    WakeRuns(s.workers, step.wakes);
  }

  lemma CancelSorted(s: Pool, x: Id)
    requires Sorted(s) && Enabled(s, CancelBegin(x))
    ensures Sorted(Next(s, CancelBegin(x)))
  {
    hide RemoveFromLoops, Cancellable, Remove;
    forall e | e in Remove(s.wq, Work(x)) ensures e in s.wq { RemoveMembers(s.wq, Work(x), e); }
    forall id | id in Remove(s.slowPending, x) ensures id in s.slowPending { RemoveMembers(s.slowPending, x, id); }
  }

  lemma NextSorted(s: Pool, step: Step)
    requires Sorted(s) && Enabled(s, step)
    ensures Sorted(Next(s, step))
  {
    hide Sorted, RemoveFromLoops, Cancellable, Wake, CanWake, MustWait, Threshold, Remove, Onward;
    NextOnward(s, step);
    var t := Next(s, step);
    match step
    case Submit(_, _, _, _) => SubmitSorted(s, step);
    case Take(i, k) => TakeSorted(s, i, k);
    case CancelBegin(x) => CancelSorted(s, x);
    case WakeSpuriously(i) => WorkerSorted(s, t, s.workers, i, Woken);
    case Reacquire(i) => WorkerSorted(s, t, s.workers, i, Top);
    case Wait(i) => WorkerSorted(s, t, s.workers, i, Blocked);
    case Finish(i) => WorkerSorted(s, t, s.workers, i, Finishing(s.workers[i].slow));
    case Relock(i) => WorkerSorted(s, t, s.workers, i, Top);
    case _ => RequestsSorted(s, t);
  }

  lemma RequestsSorted(s: Pool, t: Pool)
    requires Sorted(s) && Onward(s, t) && t.wq == s.wq && t.slowPending == s.slowPending && t.workers == s.workers
    ensures Sorted(t)
  {
  }

  // ---------- coming to rest ----------

  /** The steps the pool and the loops make by themselves: nothing submitted, cancelled or woken for no reason. */
  predicate OwnStep(s: Pool, step: Step) {
    && Enabled(s, step) && !step.Submit? && !step.WakeSpuriously? && !step.CancelBegin?
    && (step.DrainMove? ==> s.loops[step.loop].queue != [])
  }

  function WorkerCost(w: Worker): nat {
    match w
    case Blocked => 0
    case Top => 1
    case Woken => 2
    case Finishing(_) => 2
    case Running(_, _) => 5
  }

  function LoopCost(l: Loop): nat { 2 * |l.queue| + |l.draining| + 3 * |l.cancelling| }

  function Sum<T>(s: seq<T>, cost: T -> nat): nat {
    if s == [] then 0 else cost(s[0]) + Sum(s[1..], cost)
  }

  /** How many entries stand behind the message. */
  function Behind(wq: seq<Entry>): nat {
    if wq == [] then 0 else if wq[0] == RunSlowWork then |wq| - 1 else Behind(wq[1..])
  }

  /** A bound on the steps left to make. */
  function Cost(s: Pool): nat {
    Sum(s.workers, WorkerCost) + 5 * |s.wq| + Behind(s.wq) + 7 * |s.slowPending| + Sum(s.loops, LoopCost)
  }

  lemma {:induction false} SumUpdate<T>(s: seq<T>, i: nat, x: T, cost: T -> nat)
    requires i < |s|
    ensures Sum(s[i := x], cost) + cost(s[i]) == Sum(s, cost) + cost(x)
  {
    if i == 0 {
      assert s[0 := x][1..] == s[1..];
    } else {
      SumUpdate(s[1..], i - 1, x, cost);
      assert s[i := x][1..] == s[1..][i - 1 := x];
    }
  }

  lemma {:induction false} NoMessageBehind(wq: seq<Entry>)
    requires Messages(wq) == 0
    ensures Behind(wq) == 0 && Behind(wq + [RunSlowWork]) == 0
  {
    if wq != [] {
      NoMessageBehind(wq[1..]);
      assert (wq + [RunSlowWork])[1..] == wq[1..] + [RunSlowWork];
    }
  }

  lemma WakeCosts(ws: seq<Worker>, k: nat)
    ensures |Wake(ws, k)| == |ws| && Sum(Wake(ws, k), WorkerCost) <= Sum(ws, WorkerCost) + 2
    ensures forall i :: 0 <= i < |ws| && ws[i].Top? ==> Wake(ws, k)[i].Top?
  {
    if k < |ws| { SumUpdate(ws, k, Woken, WorkerCost); }
  }

  lemma TakeCosts(s: Pool, i: nat, k: nat)
    requires Scheduling(s) && i < |s.workers| && s.workers[i].Top? && !MustWait(s)
    ensures Cost(TakeHead(s, i, k)) < Cost(s)
  {
    hide CountIf, Sum, Wake;
    var rest := s.wq[1..];
    match s.wq[0]
    case Work(id) => SumUpdate(s.workers, i, Running(id, false), WorkerCost);
    case RunSlowWork =>
      MessageFirst(s.wq);
      NoMessageBehind(rest);
      if s.slowRunning < Threshold(s) && s.slowPending != [] {
        WakeCosts(s.workers, k);
        var ws := if |s.slowPending| > 1 then Wake(s.workers, k) else s.workers;
        SumUpdate(ws, i, Running(s.slowPending[0], true), WorkerCost);
      }
  }

  lemma MessageFirst(wq: seq<Entry>)
    requires wq != [] && wq[0] == RunSlowWork && Messages(wq) <= 1
    ensures Messages(wq[1..]) == 0
  {
  }

  /** Each of these steps leaves fewer to make. */
  lemma OwnStepCosts(s: Pool, step: Step)
    requires Scheduling(s) && OneCancelEach(s) && OwnStep(s, step)
    ensures Cost(Next(s, step)) < Cost(s)
  {
    hide CountIf, Sum, MustWait, TakeHead, Scheduling;
    match step
    case Reacquire(i) => SumUpdate(s.workers, i, Top, WorkerCost);
    case Wait(i) => SumUpdate(s.workers, i, Blocked, WorkerCost);
    case Take(i, k) => TakeCosts(s, i, k);
    case Finish(i) =>
      var w := s.workers[i];
      var l := s.loops[s.requests[w.id].loop];
      SumUpdate(s.workers, i, Finishing(w.slow), WorkerCost);
      SumUpdate(s.loops, s.requests[w.id].loop, l.(queue := l.queue + [w.id]), LoopCost);
    case Relock(i) => SumUpdate(s.workers, i, Top, WorkerCost);
    case CancelEnd(l) =>
      SumUpdate(s.loops, l, s.loops[l].(queue := s.loops[l].queue + [s.loops[l].cancelling[0]], cancelling := []),
                LoopCost);
    case DrainMove(l) => SumUpdate(s.loops, l, s.loops[l].(draining := s.loops[l].queue, queue := []), LoopCost);
    case DrainNext(l) => SumUpdate(s.loops, l, s.loops[l].(draining := s.loops[l].draining[1..]), LoopCost);
  }

  predicate LoopsExist(s: Pool) { forall id :: id in s.requests ==> s.requests[id].loop < |s.loops| }

  ghost predicate Inv(s: Pool) { Scheduling(s) && OneCancelEach(s) && LoopsExist(s) && forall id: Id :: Tracked(s, id) }

  lemma NextKeepsLoops(s: Pool, step: Step)
    requires LoopsExist(s) && Enabled(s, step)
    ensures LoopsExist(Next(s, step))
  {
  }

  lemma NextKeepsInv(s: Pool, step: Step)
    requires Inv(s) && Enabled(s, step)
    ensures Inv(Next(s, step))
  {
    hide Scheduling, OneCancelEach, LoopsExist, Tracked, Enabled, Next;
    NextSchedules(s, step);
    NextOneCancel(s, step);
    NextKeepsLoops(s, step);
    forall id: Id ensures Tracked(Next(s, step), id) { NextTracks(s, step, id); }
  }

  // ---------- at rest, everything is done ----------

  ghost predicate AtRest(s: Pool) { forall step :: !OwnStep(s, step) }

  lemma {:induction false} InLoopsAt(ls: seq<Loop>, l: nat, id: Id)
    requires l < |ls| && (id in ls[l].queue || id in ls[l].draining)
    ensures InLoops(ls, id) > 0
  {
    if l > 0 { InLoopsAt(ls[1..], l - 1, id); }
    else {
      if id in ls[0].queue { CountMember(ls[0].queue, id); } else { CountMember(ls[0].draining, id); }
    }
  }

  lemma {:induction false} InCancelsAt(ls: seq<Loop>, l: nat, id: Id)
    requires l < |ls| && id in ls[l].cancelling
    ensures InCancels(ls, id) > 0
  {
    if l > 0 { InCancelsAt(ls[1..], l - 1, id); } else { CountMember(ls[0].cancelling, id); }
  }

  lemma Known(s: Pool, id: Id)
    requires Tracked(s, id) && Places(s, id) > 0
    ensures id in s.requests
  {
  }

  /** A loop with something to do can do it. */
  lemma LoopGoesOn(s: Pool, l: nat) returns (step: Step)
    requires Inv(s) && l < |s.loops| && s.loops[l] != Loop([], [], [])
    ensures OwnStep(s, step)
  {
    hide Scheduling, CountIf, InLoops, InCancels, WorkMatches, Next;
    var x := s.loops[l];
    if x.cancelling != [] {
      InCancelsAt(s.loops, l, x.cancelling[0]);
      Known(s, x.cancelling[0]);
      step := CancelEnd(l);
    } else if x.draining != [] {
      InLoopsAt(s.loops, l, x.draining[0]);
      Known(s, x.draining[0]);
      step := DrainNext(l);
    } else {
      step := DrainMove(l);
    }
  }

  /** A worker that is not asleep can go on, if only to sleep. */
  lemma WorkerGoesOn(s: Pool, i: nat) returns (step: Step)
    requires Inv(s) && i < |s.workers| && !s.workers[i].Blocked?
    ensures OwnStep(s, step)
  {
    hide Scheduling, CountIf, InLoops, InCancels, WorkMatches, Next, CanWake;
    match s.workers[i]
    case Woken => step := Reacquire(i);
    case Top =>
      var k := SomeoneToWake(s.workers);
      step := if MustWait(s) then Wait(i) else Take(i, k);
    case Running(id, _) =>
      CountPositive(s.workers, i, IsRunning(id));
      Known(s, id);
      step := Finish(i);
    case Finishing(_) => step := Relock(i);
  }

  lemma SomeoneToWake(ws: seq<Worker>) returns (k: nat)
    ensures CanWake(ws, k)
  {
    k := 0;
    if i :| 0 <= i < |ws| && ws[i].Blocked? { k := i; }
  }

  lemma {:induction false} NothingInLoops(ls: seq<Loop>, id: Id)
    requires forall l :: 0 <= l < |ls| ==> ls[l] == Loop([], [], [])
    ensures InLoops(ls, id) == 0 && InCancels(ls, id) == 0
  {
    if ls != [] { NothingInLoops(ls[1..], id); }
  }

  lemma {:induction false} NobodyRuns(ws: seq<Worker>, id: Id)
    requires forall i :: 0 <= i < |ws| ==> ws[i].Blocked?
    ensures RunningIt(ws, id) == 0
  {
    if ws != [] { NobodyRuns(ws[1..], id); }
  }

  /** At rest, all workers sleep, all queues are empty, and every request is done. */
  lemma AtRestAllDone(s: Pool)
    requires Inv(s) && AtRest(s)
    ensures forall i :: 0 <= i < |s.workers| ==> s.workers[i].Blocked?
    ensures s.wq == [] && s.slowPending == []
    ensures forall id :: id in s.requests ==> |s.requests[id].dones| == 1
  {
    hide CountIf, InLoops, InCancels, WorkMatches, OwnStep;
    forall i | 0 <= i < |s.workers| ensures s.workers[i].Blocked? {
      if !s.workers[i].Blocked? { var step := WorkerGoesOn(s, i); }
    }
    forall l | 0 <= l < |s.loops| ensures s.loops[l] == Loop([], [], []) {
      if s.loops[l] != Loop([], [], []) { var step := LoopGoesOn(s, l); }
    }
    AllBlocked(s.workers);
    MessageIn(s.wq);
    forall id | id in s.requests ensures |s.requests[id].dones| == 1 {
      NothingInLoops(s.loops, id);
      NobodyRuns(s.workers, id);
      NothingQueued(id);
      assert Tracked(s, id);
    }
  }

  lemma NothingQueued(id: Id)
    ensures InWq([], id) == 0 && InQueue([], id) == 0
  {
  }

  predicate OwnRun(s: Pool, steps: seq<Step>)
    decreases |steps|
  {
    steps != [] ==> OwnStep(s, steps[0]) && OwnRun(Next(s, steps[0]), steps[1..])
  }

  lemma {:induction false} OwnRunIsRun(s: Pool, steps: seq<Step>)
    requires OwnRun(s, steps)
    ensures IsRun(s, steps)
    decreases |steps|
  {
    if steps != [] { OwnRunIsRun(Next(s, steps[0]), steps[1..]); }
  }

  /** However it is scheduled, a pool left alone makes no more than so many steps. */
  lemma {:induction false} OwnRunIsShort(s: Pool, steps: seq<Step>)
    requires Inv(s) && OwnRun(s, steps)
    ensures IsRun(s, steps) && Inv(Final(s, steps)) && |steps| + Cost(Final(s, steps)) <= Cost(s)
    decreases |steps|
  {
    hide Inv, Next, Cost;
    OwnRunIsRun(s, steps);
    if steps != [] {
      OwnStepFrom(s, steps[0]);
      OwnRunIsShort(Next(s, steps[0]), steps[1..]);
    }
  }

  lemma OwnStepFrom(s: Pool, step: Step)
    requires Inv(s) && OwnStep(s, step)
    ensures Inv(Next(s, step)) && Cost(Next(s, step)) < Cost(s)
  {
    hide Scheduling, OneCancelEach, LoopsExist, Tracked, Enabled, Next, Cost;
    NextKeepsInv(s, step);
    OwnStepCosts(s, step);
  }

  lemma {:induction false} RunKeepsInv(s: Pool, steps: seq<Step>)
    requires Inv(s) && IsRun(s, steps)
    ensures Inv(Final(s, steps))
    decreases |steps|
  {
    hide Inv, Next, Enabled;
    if steps != [] {
      NextKeepsInv(s, steps[0]);
      RunKeepsInv(Next(s, steps[0]), steps[1..]);
    }
  }

  lemma InitialInv(nthreads: nat, nloops: nat)
    requires nthreads > 0
    ensures Inv(Initial(nthreads, nloops))
  {
    hide Scheduling, Tracked;
    InitialKeeps(nthreads, nloops, 0);
    forall id: Id ensures Tracked(Initial(nthreads, nloops), id) { InitialKeeps(nthreads, nloops, id); }
  }

  /**
   * From every reachable state: however the pool is scheduled from there on, with nothing more
   * submitted or cancelled and no wake-up without reason, it makes at most `Cost` steps; and when
   * it can make no more, every request submitted has had its done callback.
   */
  lemma EveryRequestIsDone(nthreads: nat, nloops: nat, steps: seq<Step>, more: seq<Step>)
    requires nthreads > 0 && IsRun(Initial(nthreads, nloops), steps)
    requires OwnRun(Final(Initial(nthreads, nloops), steps), more)
    ensures var s := Final(Initial(nthreads, nloops), steps);
      && |more| <= Cost(s) && IsRun(s, more)
      && (AtRest(Final(s, more)) ==>
            forall id :: id in Final(s, more).requests ==> |Final(s, more).requests[id].dones| == 1)
  {
    hide Inv, Next, Enabled, Cost, AtRest;
    InitialInv(nthreads, nloops);
    RunKeepsInv(Initial(nthreads, nloops), steps);
    var s := Final(Initial(nthreads, nloops), steps);
    OwnRunIsShort(s, more);
    if AtRest(Final(s, more)) { AtRestAllDone(Final(s, more)); }
  }

  // ---------- every request as it was submitted ----------

  lemma {:induction false} RunSplits(s: Pool, steps: seq<Step>, k: nat)
    requires IsRun(s, steps) && k <= |steps|
    ensures IsRun(s, steps[..k]) && IsRun(Final(s, steps[..k]), steps[k..])
    ensures Final(s, steps) == Final(Final(s, steps[..k]), steps[k..])
    decreases k
  {
    hide Next, Enabled;
    if k == 0 {
      assert steps[0..] == steps && steps[..0] == [];
    } else {
      assert steps[..k][1..] == steps[1..][..k - 1] && steps[1..][k - 1..] == steps[k..];
      RunSplits(Next(s, steps[0]), steps[1..], k - 1);
    }
  }

  lemma {:induction false} RunOnward(s: Pool, steps: seq<Step>)
    requires IsRun(s, steps)
    ensures var f := Final(s, steps);
      Onward(s, f) && (AtHome(s) ==> AtHome(f)) && (Sorted(s) ==> Sorted(f))
    decreases |steps|
  {
    hide Next, Enabled, AtHome, Sorted;
    if steps != [] {
      NextOnward(s, steps[0]);
      if AtHome(s) { NextAtHome(s, steps[0]); }
      if Sorted(s) { NextSorted(s, steps[0]); }
      RunOnward(Next(s, steps[0]), steps[1..]);
    }
  }

  /** What holds in every state that can be reached. */
  ghost predicate Reachable(s: Pool) { Inv(s) && AtHome(s) && Sorted(s) }

  lemma RunReaches(nthreads: nat, nloops: nat, steps: seq<Step>)
    requires nthreads > 0 && IsRun(Initial(nthreads, nloops), steps)
    ensures var s := Final(Initial(nthreads, nloops), steps); Reachable(s) && |s.workers| == nthreads
  {
    hide Inv, Next, Enabled;
    InitialInv(nthreads, nloops);
    RunKeepsInv(Initial(nthreads, nloops), steps);
    RunOnward(Initial(nthreads, nloops), steps);
  }

  lemma NextReachable(s: Pool, step: Step)
    requires Reachable(s) && Enabled(s, step)
    ensures Reachable(Next(s, step))
  {
    hide Inv, AtHome, Sorted, Enabled, Next;
    NextKeepsInv(s, step);
    NextAtHome(s, step);
    NextSorted(s, step);
  }

  /**
   * In every run, from its submission on: a request waits for its done callback, and is called back,
   * only at the loop it was submitted with, and it runs as work of the kind it was submitted as.
   */
  lemma AsSubmitted(nthreads: nat, nloops: nat, steps: seq<Step>, k: nat)
    requires nthreads > 0 && IsRun(Initial(nthreads, nloops), steps) && k < |steps| && steps[k].Submit?
    ensures var s, id, l := Final(Initial(nthreads, nloops), steps), steps[k].id, steps[k].loop;
      && id in s.requests && s.requests[id].loop == l && s.requests[id].kind == steps[k].kind
      && (forall d :: d in s.requests[id].dones ==> d.loop == l)
      && (forall m :: 0 <= m < |s.loops| && InLoopAt(s.loops[m], id) ==> m == l)
      && (forall w :: w in s.workers && w.Running? && w.id == id ==> (w.slow <==> steps[k].kind == SlowIo))
  {
    hide Inv, Enabled, IsRun, InLoopAt;
    var init := Initial(nthreads, nloops);
    RunReaches(nthreads, nloops, steps);
    RunSplits(init, steps, k);
    var before := Final(init, steps[..k]);
    FirstOfRun(before, steps[k..]);
    RunOnward(Next(before, steps[k]), steps[k..][1..]);
  }

  lemma FirstOfRun(s: Pool, steps: seq<Step>)
    requires steps != [] && IsRun(s, steps)
    ensures Enabled(s, steps[0]) && IsRun(Next(s, steps[0]), steps[1..])
    ensures Final(s, steps) == Final(Next(s, steps[0]), steps[1..])
  {
  }

  // ---------- cancelling ----------

  /** Not waiting to be run, and never run. */
  predicate Doomed(s: Pool, id: Id) {
    id in s.requests && s.requests[id].runs == 0 && InWq(s.wq, id) == 0 && InQueue(s.slowPending, id) == 0
  }

  /** Cancelling takes effect if and only if the work has not been started; then it never will be. */
  lemma CancelsExactly(s: Pool, id: Id)
    requires Reachable(s) && Enabled(s, CancelBegin(id))
    ensures Cancellable(s, id) <==> s.requests[id].runs == 0
    ensures s.requests[id].runs == 0 ==> Doomed(Next(s, CancelBegin(id)), id)
    ensures s.requests[id].runs > 0 ==> Next(s, CancelBegin(id)) == s
  {
    hide CountIf, InLoops, InCancels, Scheduling, Sorted, RemoveFromLoops;
    assert Tracked(s, id);
    NotCancelling(s, id);
    RemoveSpec(s.wq, Work(id), Work(id));
    RemoveSpec(s.slowPending, id, id);
  }

  lemma {:induction false} NotCounted(q: seq<Id>, id: Id)
    requires id !in q
    ensures InQueue(q, id) == 0
  {
    if q != [] { NotCounted(q[1..], id); }
  }

  lemma {:induction false} NoneCancelling(ls: seq<Loop>, id: Id)
    requires forall l :: 0 <= l < |ls| ==> id !in ls[l].cancelling
    ensures InCancels(ls, id) == 0
  {
    if ls != [] {
      NotCounted(ls[0].cancelling, id);
      NoneCancelling(ls[1..], id);
    }
  }

  lemma NotCancelling(s: Pool, id: Id)
    requires AtHome(s) && Enabled(s, CancelBegin(id))
    ensures InCancels(s.loops, id) == 0
  {
    hide InCancels;
    forall l | 0 <= l < |s.loops| ensures id !in s.loops[l].cancelling {
      if InLoopAt(s.loops[l], id) { assert s.requests[id].loop == l; }
    }
    NoneCancelling(s.loops, id);
  }

  lemma NextDoomed(s: Pool, step: Step, id: Id)
    requires Doomed(s, id) && Enabled(s, step)
    ensures Doomed(Next(s, step), id)
  {
    hide CountIf, InLoops, RemoveFromLoops, Wake, CanWake, Remove;
    match step
    case Submit(x, _, _, _) =>
      WqSnoc(s.wq, Work(x), id);
      WqSnoc(s.wq, RunSlowWork, id);
      QueueSnoc(s.slowPending, x, id);
    case Take(_, _) =>
      WqCons(s.wq, id);
      WqSnoc(s.wq[1..], RunSlowWork, id);
      if s.slowPending != [] { QueueCons(s.slowPending, id); }
    case CancelBegin(x) =>
      RemoveSpec(s.wq, Work(x), Work(id));
      RemoveSpec(s.slowPending, x, id);
    case _ =>
  }

  lemma {:induction false} RunDoomed(s: Pool, steps: seq<Step>, id: Id)
    requires Doomed(s, id) && IsRun(s, steps)
    ensures Doomed(Final(s, steps), id)
    decreases |steps|
  {
    hide Next, Enabled, Doomed;
    if steps != [] {
      NextDoomed(s, steps[0], id);
      RunDoomed(Next(s, steps[0]), steps[1..], id);
    }
  }

  /**
   * In every run: a request cancelled before its work was started never runs, and if its done
   * callback has been called, it was called once, at its loop, and told that it was cancelled.
   */
  lemma CancelledNeverRuns(nthreads: nat, nloops: nat, steps: seq<Step>, k: nat)
    requires nthreads > 0 && IsRun(Initial(nthreads, nloops), steps) && k < |steps| && steps[k].CancelBegin?
    requires IsRun(Initial(nthreads, nloops), steps[..k])
    requires var s, id := Final(Initial(nthreads, nloops), steps[..k]), steps[k].id;
      id in s.requests ==> s.requests[id].runs == 0
    ensures var s, id := Final(Initial(nthreads, nloops), steps), steps[k].id;
      && id in s.requests && s.requests[id].runs == 0
      && (s.requests[id].dones != [] ==> s.requests[id].dones == [Done(Ecanceled, s.requests[id].loop)])
  {
    hide Inv, Next, IsRun, Cancellable, Doomed;
    var init, id := Initial(nthreads, nloops), steps[k].id;
    RunReaches(nthreads, nloops, steps[..k]);
    RunSplits(init, steps, k);
    var before := Final(init, steps[..k]);
    FirstOfRun(before, steps[k..]);
    CancelsExactly(before, id);
    RunDoomed(Next(before, steps[k]), steps[k..][1..], id);
    RunReaches(nthreads, nloops, steps);
    ToldCancelled(Final(init, steps), id);
  }

  lemma ToldCancelled(s: Pool, id: Id)
    requires Reachable(s) && Doomed(s, id)
    ensures id in s.requests && s.requests[id].runs == 0
    ensures s.requests[id].dones != [] ==> s.requests[id].dones == [Done(Ecanceled, s.requests[id].loop)]
  {
    hide CountIf, InLoops, InCancels, Scheduling, Sorted;
    assert Tracked(s, id);
    var dones := s.requests[id].dones;
    if dones != [] { assert dones[0] in dones; }
  }

  // ---------- first come, first served ----------

  /** Wherever both are, `x` is before `y`. */
  ghost predicate Ordered<T>(q: seq<T>, x: T, y: T) {
    forall i, j :: 0 <= i < |q| && 0 <= j < |q| && q[i] == x && q[j] == y ==> i < j
  }

  lemma OrderedTail<T>(q: seq<T>, x: T, y: T)
    requires Ordered(q, x, y) && q != []
    ensures Ordered(q[1..], x, y)
    ensures x in q && x != y ==> q[0] != y
  {
    var t := q[1..];
    forall i, j | 0 <= i < |t| && 0 <= j < |t| && t[i] == x && t[j] == y ensures i < j {
      assert q[i + 1] == x && q[j + 1] == y;
    }
  }

  lemma OrderedSnoc<T>(q: seq<T>, z: T, x: T, y: T)
    requires Ordered(q, x, y) && (z != x || y !in q) && x != y
    ensures Ordered(q + [z], x, y)
  {
  }

  lemma OrderedNew<T>(q: seq<T>, x: T, y: T)
    requires y !in q && x != y
    ensures Ordered(q, x, y)
  {
  }

  lemma {:induction false} OrderedRemove<T>(q: seq<T>, z: T, x: T, y: T)
    requires Ordered(q, x, y) && x != y
    ensures Ordered(Remove(q, z), x, y)
    decreases |q|
  {
    if q != [] {
      OrderedTail(q, x, y);
      OrderedRemove(q[1..], z, x, y);
      RemoveMembers(q[1..], z, x);
      if q[0] != z { OrderedCons(q[0], Remove(q[1..], z), x, y); }
    }
  }

  lemma OrderedCons<T>(z: T, q: seq<T>, x: T, y: T)
    requires Ordered(q, x, y) && x != y && (z == y ==> x !in q)
    ensures Ordered([z] + q, x, y)
  {
    var t := [z] + q;
    forall i, j | 0 <= i < |t| && 0 <= j < |t| && t[i] == x && t[j] == y ensures i < j {
      if i > 0 && j > 0 { assert q[i - 1] == x && q[j - 1] == y; }
      if i > 0 { assert q[i - 1] == x && x in q; }
    }
  }

  /** Of two requests of one kind: while `x` waits, `y` waits behind it. */
  ghost predicate Waits(s: Pool, x: Id, y: Id) {
    && x in s.requests && y in s.requests && x != y && s.requests[x].kind == s.requests[y].kind
    && (Work(x) in s.wq ==> s.requests[y].runs == 0 && Ordered(s.wq, Work(x), Work(y)))
    && (x in s.slowPending ==> s.requests[y].runs == 0 && Ordered(s.slowPending, x, y))
  }

  lemma SubmitWaits(s: Pool, step: Step, x: Id, y: Id)
    requires Waits(s, x, y) && Enabled(s, step) && step.Submit?
    ensures Waits(Next(s, step), x, y)
  {
    hide Ordered, Wake, CanWake;
    if Work(x) in s.wq {
      OrderedSnoc(s.wq, Work(step.id), Work(x), Work(y));
      OrderedSnoc(s.wq, RunSlowWork, Work(x), Work(y));
    }
    if x in s.slowPending { OrderedSnoc(s.slowPending, step.id, x, y); }
  }

  lemma TakeWaits(s: Pool, i: nat, k: nat, x: Id, y: Id)
    requires Waits(s, x, y) && Sorted(s) && Enabled(s, Take(i, k))
    ensures Waits(Next(s, Take(i, k)), x, y)
  {
    hide Ordered, Wake, CanWake, Threshold;
    var rest := s.wq[1..];
    HeadSorted(s);
    if Work(x) in s.wq {
      OrderedTail(s.wq, Work(x), Work(y));
      OrderedSnoc(rest, RunSlowWork, Work(x), Work(y));
    }
    if x in s.slowPending { OrderedTail(s.slowPending, x, y); }
  }

  lemma CancelWaits(s: Pool, z: Id, x: Id, y: Id)
    requires Waits(s, x, y) && Enabled(s, CancelBegin(z))
    ensures Waits(Next(s, CancelBegin(z)), x, y)
  {
    hide Ordered, Remove, RemoveFromLoops, Cancellable;
    RemoveMembers(s.wq, Work(z), Work(x));
    RemoveMembers(s.slowPending, z, x);
    if Work(x) in s.wq { OrderedRemove(s.wq, Work(z), Work(x), Work(y)); }
    if x in s.slowPending { OrderedRemove(s.slowPending, z, x, y); }
  }

  lemma NextWaits(s: Pool, step: Step, x: Id, y: Id)
    requires Waits(s, x, y) && Sorted(s) && Enabled(s, step)
    ensures Waits(Next(s, step), x, y)
  {
    hide Ordered, Sorted, RemoveFromLoops, Cancellable, Wake, CanWake, MustWait, Threshold, Remove, TakeHead, Post;
    match step
    case Submit(_, _, _, _) => SubmitWaits(s, step, x, y);
    case Take(i, k) => TakeWaits(s, i, k, x, y);
    case CancelBegin(z) => CancelWaits(s, z, x, y);
    case _ =>
  }

  lemma {:induction false} RunWaits(s: Pool, steps: seq<Step>, x: Id, y: Id)
    requires Waits(s, x, y) && Sorted(s) && IsRun(s, steps)
    ensures Waits(Final(s, steps), x, y)
    decreases |steps|
  {
    hide Next, Enabled, Waits, Sorted;
    if steps != [] {
      NextWaits(s, steps[0], x, y);
      NextSorted(s, steps[0]);
      RunWaits(Next(s, steps[0]), steps[1..], x, y);
    }
  }

  /** A request that is new waits behind all of its kind. */
  lemma NewWaits(s: Pool, step: Step, x: Id)
    requires Sorted(s) && Enabled(s, step) && step.Submit? && x in s.requests && s.requests[x].kind == step.kind
    ensures Waits(Next(s, step), x, step.id)
  {
    hide Ordered, Wake, CanWake;
    var y := step.id;
    OrderedNew(s.wq, Work(x), Work(y));
    OrderedNew(s.slowPending, x, y);
    OrderedSnoc(s.wq, Work(y), Work(x), Work(y));
    OrderedSnoc(s.wq, RunSlowWork, Work(x), Work(y));
    OrderedSnoc(s.slowPending, y, x, y);
  }

  /**
   * In every run: work is started in the order in which work of its kind was submitted. Once the
   * later of two requests has been started, the earlier one no longer waits to be.
   */
  lemma StartedInOrder(nthreads: nat, nloops: nat, steps: seq<Step>, i: nat, j: nat)
    requires nthreads > 0 && IsRun(Initial(nthreads, nloops), steps) && i < j < |steps|
    requires steps[i].Submit? && steps[j].Submit? && steps[i].kind == steps[j].kind
    ensures var s, x, y := Final(Initial(nthreads, nloops), steps), steps[i].id, steps[j].id;
      && x in s.requests && y in s.requests
      && (s.requests[y].runs > 0 ==> Work(x) !in s.wq && x !in s.slowPending)
  {
    hide Inv, IsRun, Sorted, Enabled, Next;
    var init := Initial(nthreads, nloops);
    RunSplits(init, steps, j);
    var before := Final(init, steps[..j]);
    RunReaches(nthreads, nloops, steps[..j]);
    assert steps[..j][i] == steps[i];
    AsSubmitted(nthreads, nloops, steps[..j], i);
    FirstOfRun(before, steps[j..]);
    NewWaits(before, steps[j], steps[i].id);
    NextSorted(before, steps[j]);
    RunWaits(Next(before, steps[j]), steps[j..][1..], steps[i].id, steps[j].id);
  }

  /** The results of a loop in the order in which it will call back. */
  function Results(l: Loop): seq<Id> { l.draining + l.queue }

  /** `x` has been called back, or its result waits and that of `y` does not come before it. */
  ghost predicate CalledFirst(s: Pool, l: nat, x: Id, y: Id) {
    && l < |s.loops| && x != y && x in s.requests && y in s.requests && s.requests[y].loop == l
    && (s.requests[x].dones != []
        || (x in Results(s.loops[l]) && s.requests[y].dones == [] && Ordered(Results(s.loops[l]), x, y)))
  }

  /** A result that waits is nowhere else. */
  lemma OnlyThere(s: Pool, l: nat, x: Id)
    requires Tracked(s, x) && l < |s.loops| && x in Results(s.loops[l])
    ensures x in s.requests && s.requests[x].dones == []
    ensures RunningIt(s.workers, x) == 0 && InCancels(s.loops, x) == 0
  {
    hide CountIf, InLoops, InCancels, WorkMatches;
    InLoopsAt(s.loops, l, x);
  }

  lemma FinishInOrder(s: Pool, i: nat, l: nat, x: Id, y: Id)
    requires CalledFirst(s, l, x, y) && Tracked(s, x) && Enabled(s, Finish(i))
    ensures CalledFirst(Next(s, Finish(i)), l, x, y)
  {
    hide CountIf, Ordered, Tracked;
    var z := s.workers[i].id;
    if s.requests[x].dones == [] {
      OnlyThere(s, l, x);
      CountPositive(s.workers, i, IsRunning(z));
      var d := Results(s.loops[l]);
      OrderedSnoc(d, z, x, y);
      assert s.loops[l].draining + (s.loops[l].queue + [z]) == d + [z];
    }
  }

  lemma CancelEndInOrder(s: Pool, m: nat, l: nat, x: Id, y: Id)
    requires CalledFirst(s, l, x, y) && Tracked(s, x) && Enabled(s, CancelEnd(m))
    ensures CalledFirst(Next(s, CancelEnd(m)), l, x, y)
  {
    hide CountIf, Ordered, Tracked;
    var z := s.loops[m].cancelling[0];
    if s.requests[x].dones == [] {
      OnlyThere(s, l, x);
      InCancelsAt(s.loops, m, z);
      var d := Results(s.loops[l]);
      OrderedSnoc(d, z, x, y);
      assert s.loops[l].draining + (s.loops[l].queue + [z]) == d + [z];
    }
  }

  lemma DrainInOrder(s: Pool, step: Step, l: nat, x: Id, y: Id)
    requires CalledFirst(s, l, x, y) && AtHome(s) && Enabled(s, step) && (step.DrainMove? || step.DrainNext?)
    ensures CalledFirst(Next(s, step), l, x, y)
  {
    hide Ordered;
    if s.requests[x].dones == [] {
      var loop, d := s.loops[l], Results(s.loops[l]);
      assert [] + loop.queue == loop.queue + [];
      if step.DrainNext? {
        var h := s.loops[step.loop].draining[0];
        assert InLoopAt(s.loops[step.loop], h);
        if step.loop == l {
          OrderedTail(d, x, y);
          assert d[0] == h && d[1..] == loop.draining[1..] + loop.queue;
        }
      }
    }
  }

  lemma {:induction false} RemoveConcat<T>(a: seq<T>, b: seq<T>, x: T)
    ensures Remove(a + b, x) == Remove(a, x) + Remove(b, x)
  {
    if a == [] {
      assert a + b == b;
    } else {
      assert (a + b)[1..] == a[1..] + b;
      RemoveConcat(a[1..], b, x);
    }
  }

  lemma {:induction false} RemoveFromLoopsAt(ls: seq<Loop>, x: Id, l: nat)
    requires l < |ls|
    ensures Results(RemoveFromLoops(ls, x)[l]) == Remove(Results(ls[l]), x)
    decreases |ls|
  {
    if l == 0 { RemoveConcat(ls[0].draining, ls[0].queue, x); } else { RemoveFromLoopsAt(ls[1..], x, l - 1); }
  }

  lemma CancelInOrder(s: Pool, z: Id, l: nat, x: Id, y: Id)
    requires CalledFirst(s, l, x, y) && Enabled(s, CancelBegin(z)) && z != x
    ensures CalledFirst(Next(s, CancelBegin(z)), l, x, y)
  {
    hide Ordered, Remove, RemoveFromLoops, Cancellable;
    if s.requests[x].dones == [] {
      RemoveFromLoopsAt(s.loops, z, l);
      RemoveMembers(Results(s.loops[l]), z, x);
      OrderedRemove(Results(s.loops[l]), z, x, y);
    }
  }

  lemma NextInOrder(s: Pool, step: Step, l: nat, x: Id, y: Id)
    requires CalledFirst(s, l, x, y) && Tracked(s, x) && AtHome(s) && Enabled(s, step) && step != CancelBegin(x)
    ensures CalledFirst(Next(s, step), l, x, y)
  {
    hide Ordered, AtHome, Tracked, RemoveFromLoops, Cancellable, Wake, CanWake, MustWait, Threshold, Remove;
    match step
    case Finish(i) => FinishInOrder(s, i, l, x, y);
    case CancelBegin(z) => CancelInOrder(s, z, l, x, y);
    case CancelEnd(m) => CancelEndInOrder(s, m, l, x, y);
    case DrainMove(_) => DrainInOrder(s, step, l, x, y);
    case DrainNext(_) => DrainInOrder(s, step, l, x, y);
    case _ =>
  }

  /**
   * From every reachable state: while the result of `x` waits at a loop and `y`, of the same loop, is
   * not ahead of it, `y` is not called back before `x`, unless `x` is cancelled in between.
   */
  lemma {:induction false} CalledInOrder(s: Pool, steps: seq<Step>, l: nat, x: Id, y: Id)
    requires Reachable(s) && CalledFirst(s, l, x, y) && IsRun(s, steps) && CancelBegin(x) !in steps
    ensures CalledFirst(Final(s, steps), l, x, y)
    ensures var f := Final(s, steps); f.requests[y].dones != [] ==> f.requests[x].dones != []
    decreases |steps|
  {
    hide Next, Enabled, AtHome, Sorted, Ordered, Scheduling;
    if steps != [] {
      assert Tracked(s, x);
      NextInOrder(s, steps[0], l, x, y);
      NextReachable(s, steps[0]);
      CalledInOrder(Next(s, steps[0]), steps[1..], l, x, y);
    }
  }
}
