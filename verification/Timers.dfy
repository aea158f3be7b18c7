/**
 * The timers of an event loop (thirdparty/libuv-1.30.1/src/timer.c), kept in the linked heap. A
 * handle is its heap node; the node's key is the pair the original compares, due time and start
 * number.
 */
module Timers {
  import opened Words
  import opened LinkedHeap

  const INT_MAX: nat := 0x7FFF_FFFF

  datatype Key = Key(timeout: uint64, startId: nat)

  predicate TimerLessThan(a: Key, b: Key) {
    if a.timeout < b.timeout then true
    else if b.timeout < a.timeout then false
    else a.startId < b.startId
  }

  lemma TimerOrder()
    ensures StrictWeakOrder(TimerLessThan)
  {
  }

  type Handle = Node<Key>

  datatype Info = Info(repeat: uint64, hasCallback: bool, active: bool)

  /** When a timer started now for `timeout` is due, with the original's wrap-around and test for it. */
  function Due(time: uint64, timeout: uint64): (r: uint64)
    ensures r == if time + timeout < WORD_LIMIT then time + timeout else WORD_LIMIT - 1
  {
    var clamped := (time + timeout) % WORD_LIMIT;
    if clamped < timeout then WORD_LIMIT - 1 else clamped
  }

  /** What user code may do in a callback; closing a timer stops it. */
  datatype Op =
    | Init(handle: Handle)
    | Close(handle: Handle)
    | Start(handle: Handle, timeout: uint64, repeat: uint64)
    | Stop(handle: Handle)
    | Again(handle: Handle)
    | SetRepeat(handle: Handle, repeat: uint64)
    | UpdateTime(to: uint64)

  /** A callback called: of which timer, with which key it was due, at which loop time. */
  datatype Call = Call(handle: Handle, key: Key, time: uint64)

  // ---------- what the calls on timers mean ----------

  /** The timers of a loop, without the heap: `due` holds the active ones. */
  datatype Loop = Loop(time: uint64, counter: nat, info: map<Handle, Info>, due: map<Handle, Key>)

  function Stopped(l: Loop, h: Handle): Loop
    requires h in l.info
  {
    l.(info := l.info[h := l.info[h].(active := false)], due := l.due - {h})
  }

  function Started(l: Loop, h: Handle, timeout: uint64, repeat: uint64): Loop {
    l.(counter := l.counter + 1, info := l.info[h := Info(repeat, true, true)],
       due := l.due[h := Key(Due(l.time, timeout), l.counter)])
  }

  function Restarted(l: Loop, h: Handle): Loop
    requires h in l.info
  {
    var i := l.info[h];
    if i.hasCallback && i.repeat != 0 then Started(l, h, i.repeat, i.repeat) else l
  }

  function Do(l: Loop, op: Op): Loop {
    if op.UpdateTime? then (if op.to > l.time then l.(time := op.to) else l)
    else if op.Init? then (if op.handle in l.info then l else l.(info := l.info[op.handle := Info(0, false, false)]))
    else if op.handle !in l.info then l
    else
      match op
      case Start(h, timeout, repeat) => Started(l, h, timeout, repeat)
      case Again(h) => Restarted(l, h)
      case SetRepeat(h, repeat) => l.(info := l.info[h := l.info[h].(repeat := repeat)])
      case _ => Stopped(l, op.handle)
  }

  function DoAll(l: Loop, ops: seq<Op>): Loop {
    if ops == [] then l else Do(DoAll(l, ops[..|ops| - 1]), ops[|ops| - 1])
  }

  /** What each call does to the timer it is made on, and that it changes no other. */
  lemma DoIs(l: Loop, op: Op, x: Handle)
    requires !op.UpdateTime? && op.handle in l.info
    ensures var t, h, i := Do(l, op), op.handle, l.info[op.handle];
      && h in t.info && t.time == l.time
      && (op.Stop? || op.Close? ==> h !in t.due && t.info[h] == Info(i.repeat, i.hasCallback, false))
      && (op.Start? ==>
            && h in t.due && t.info[h] == Info(op.repeat, true, true)
            && t.due[h].timeout == if l.time + op.timeout < WORD_LIMIT then l.time + op.timeout else WORD_LIMIT - 1)
      && (op.Again? && i.hasCallback && i.repeat != 0 ==>
            && h in t.due && t.info[h] == Info(i.repeat, true, true)
            && t.due[h].timeout == if l.time + i.repeat < WORD_LIMIT then l.time + i.repeat else WORD_LIMIT - 1)
      && (op.Again? && (!i.hasCallback || i.repeat == 0) ==> t == l)
      && (op.SetRepeat? ==> t.due == l.due && t.info[h] == Info(op.repeat, i.hasCallback, i.active))
      && (op.Init? ==> t == l)
      && (x != h ==> (x in t.due <==> x in l.due) && (x in t.due ==> t.due[x] == l.due[x]))
      && (x != h ==> (x in t.info <==> x in l.info) && (x in t.info ==> t.info[x] == l.info[x]))
  {
  }

  /** A due timer taken out and, if it repeats, put back: what precedes its callback. */
  function Took(l: Loop, h: Handle): Loop
    requires h in l.info
  {
    Restarted(Stopped(l, h), h)
  }

  /** A callback is that of an active timer which is due and before all others, under its key. */
  predicate CallOf(l: Loop, c: Call) {
    && c.handle in l.due && c.handle in l.info && c.key == l.due[c.handle] && c.time == l.time
    && c.key.timeout <= c.time
    && forall x :: x in l.due && x != c.handle ==> TimerLessThan(c.key, l.due[x])
  }

  /** The states before each callback and after the last; callback `i` does `script[i]`. */
  predicate IsTrace(states: seq<Loop>, calls: seq<Call>, script: seq<seq<Op>>) {
    && |states| == |calls| + 1 && |calls| <= |script|
    && forall i :: 0 <= i < |calls| ==>
         CallOf(states[i], calls[i]) && states[i + 1] == DoAll(Took(states[i], calls[i].handle), script[i])
  }

  predicate NothingDue(l: Loop) { forall h :: h in l.due ==> l.due[h].timeout > l.time }

  predicate Untouched(h: Handle, ops: seq<Op>) { forall op :: op in ops ==> op.UpdateTime? || op.handle != h }

  /** Nothing that is done with other timers changes a timer. */
  lemma {:induction false} OthersStay(l: Loop, ops: seq<Op>, h: Handle)
    requires Untouched(h, ops)
    ensures h in DoAll(l, ops).due <==> h in l.due
    ensures h in l.due ==> DoAll(l, ops).due[h] == l.due[h]
    ensures DoAll(l, ops).time >= l.time
  {
    hide Due;
    if ops != [] { OthersStay(l, ops[..|ops| - 1], h); }
  }

  /** Active timers have callbacks, and numbers that will not be given out again. */
  predicate Sound(l: Loop) {
    forall h :: h in l.due ==> l.due[h].startId < l.counter && h in l.info && l.info[h].active && l.info[h].hasCallback
  }

  /** Every active timer comes after `last`, and so will every timer started from now on. */
  predicate AheadOf(l: Loop, last: Key) {
    && last.timeout <= l.time && last.startId < l.counter
    && forall h :: h in l.due ==> TimerLessThan(last, l.due[h])
  }

  lemma StartKeeps(l: Loop, h: Handle, timeout: uint64, repeat: uint64, last: Key)
    ensures Started(l, h, timeout, repeat).time == l.time
    ensures Sound(l) ==> Sound(Started(l, h, timeout, repeat))
    ensures AheadOf(l, last) ==> AheadOf(Started(l, h, timeout, repeat), last)
  {
  }

  lemma {:induction false} DoAllKeeps(l: Loop, ops: seq<Op>, last: Key)
    ensures DoAll(l, ops).time >= l.time
    ensures Sound(l) ==> Sound(DoAll(l, ops))
    ensures AheadOf(l, last) ==> AheadOf(DoAll(l, ops), last)
  {
    if ops != [] {
      var n := |ops| - 1;
      DoAllKeeps(l, ops[..n], last);
      DoKeeps(DoAll(l, ops[..n]), ops[n], last);
    }
  }

  lemma DoKeeps(l: Loop, op: Op, last: Key)
    ensures Do(l, op).time >= l.time
    ensures Sound(l) ==> Sound(Do(l, op))
    ensures AheadOf(l, last) ==> AheadOf(Do(l, op), last)
  {
    hide Started, TimerLessThan;
    if !op.UpdateTime? && op.handle in l.info {
      RestartKeeps(l, op.handle, last);
      if op.Start? { StartKeeps(l, op.handle, op.timeout, op.repeat, last); }
    }
  }

  lemma RestartKeeps(l: Loop, h: Handle, last: Key)
    requires h in l.info
    ensures Restarted(l, h).time == l.time
    ensures Sound(l) ==> Sound(Restarted(l, h))
    ensures AheadOf(l, last) ==> AheadOf(Restarted(l, h), last)
  {
    hide Started, Sound, AheadOf;
    StartKeeps(l, h, l.info[h].repeat, l.info[h].repeat, last);
  }

  /** Once its callback is called, a timer is behind everything that is still active. */
  lemma TookAhead(l: Loop, c: Call, last: Key)
    requires CallOf(l, c) && Sound(l)
    ensures var t := Took(l, c.handle); Sound(t) && t.time == l.time && AheadOf(t, c.key)
    ensures AheadOf(l, last) ==> AheadOf(Took(l, c.handle), last)
  {
    hide Restarted;
    var stopped := Stopped(l, c.handle);
    RestartKeeps(stopped, c.handle, c.key);
    RestartKeeps(stopped, c.handle, last);
  }

  /** What has been called before a state of a trace is behind everything active in it. */
  lemma {:induction false} CalledIsBehind(states: seq<Loop>, calls: seq<Call>, script: seq<seq<Op>>, i: nat, k: nat)
    requires IsTrace(states, calls, script) && Sound(states[0]) && i <= k < |states|
    ensures Sound(states[k]) && states[i].time <= states[k].time
    ensures i < k ==> AheadOf(states[k], calls[i].key)
    decreases k
  {
    hide DoAll, Took, AheadOf, Sound;
    if k > 0 {
      CalledIsBehind(states, calls, script, if i < k then i else 0, k - 1);
      var c := calls[k - 1];
      assert CallOf(states[k - 1], c);
      TookAhead(states[k - 1], c, calls[if i < k then i else 0].key);
      DoAllKeeps(Took(states[k - 1], c.handle), script[k - 1], calls[if i < k then i else 0].key);
    }
  }

  /** Callbacks are called in the order of their keys, none before it is due. */
  lemma CalledInOrder(states: seq<Loop>, calls: seq<Call>, script: seq<seq<Op>>)
    requires IsTrace(states, calls, script) && Sound(states[0])
    ensures forall i, j :: 0 <= i < j < |calls| ==> TimerLessThan(calls[i].key, calls[j].key)
    ensures forall i :: 0 <= i < |calls| ==> calls[i].key.timeout <= calls[i].time <= states[|calls|].time
  {
    hide DoAll, Took, TimerLessThan;
    forall i, j | 0 <= i < j < |calls| ensures TimerLessThan(calls[i].key, calls[j].key) {
      CalledIsBehind(states, calls, script, i, j);
      assert CallOf(states[j], calls[j]);
    }
    forall i | 0 <= i < |calls| ensures calls[i].key.timeout <= calls[i].time <= states[|calls|].time {
      CalledIsBehind(states, calls, script, i, |calls|);
      assert CallOf(states[i], calls[i]);
    }
  }

  /** A timer that no callback touches waits as it did, or has been called, as it was. */
  lemma {:induction false} WaitsOrCalled(states: seq<Loop>, calls: seq<Call>, script: seq<seq<Op>>, h: Handle, k: nat)
    requires IsTrace(states, calls, script) && k < |states| && h in states[0].due
    requires forall i :: 0 <= i < k ==> Untouched(h, script[i])
    ensures (h in states[k].due && states[k].due[h] == states[0].due[h])
      || exists i :: 0 <= i < k && calls[i].handle == h && calls[i].key == states[0].due[h]
    ensures forall i :: 0 <= i <= k ==> states[i].time <= states[k].time
  {
    hide DoAll, Due, Untouched;
    if k > 0 {
      WaitsOrCalled(states, calls, script, h, k - 1);
      var x := calls[k - 1].handle;
      assert CallOf(states[k - 1], calls[k - 1]);
      OthersStay(Took(states[k - 1], x), script[k - 1], h);
    }
  }

  /**
   * A timer that is active when the loop starts to call the due ones, and that no callback
   * touches, is called if and only if it is due when the loop is done.
   */
  lemma CalledIfDue(states: seq<Loop>, calls: seq<Call>, script: seq<seq<Op>>, h: Handle)
    requires IsTrace(states, calls, script) && NothingDue(states[|calls|]) && h in states[0].due
    requires forall i :: 0 <= i < |calls| ==> Untouched(h, script[i])
    ensures (exists i :: 0 <= i < |calls| && calls[i].handle == h && calls[i].key == states[0].due[h])
      <==> states[0].due[h].timeout <= states[|calls|].time
  {
    hide DoAll, Due, Untouched;
    WaitsOrCalled(states, calls, script, h, |calls|);
  }

  /** What is left of a timer after its callback has been called, before the callback does anything. */
  lemma TookIs(l: Loop, h: Handle, x: Handle)
    requires Sound(l) && h in l.due
    ensures var t, r := Took(l, h), l.info[h].repeat;
      && (h in t.due <==> r != 0) && h in t.info && t.info[h] == Info(r, true, r != 0)
      && (h in t.due ==> t.due[h].timeout == if l.time + r < WORD_LIMIT then l.time + r else WORD_LIMIT - 1)
      && (x != h ==> (x in t.due <==> x in l.due) && (x in t.due ==> t.due[x] == l.due[x]))
      && (x != h ==> (x in t.info <==> x in l.info) && (x in t.info ==> t.info[x] == l.info[x]))
  {
  }

  // ---------- never early ----------

  /** A timer that is neither touched nor called from state `k` to state `i` is in state `i` what it was in `k`. */
  lemma {:induction false} StaysAsItWas(states: seq<Loop>, calls: seq<Call>, script: seq<seq<Op>>, h: Handle,
                                        k: nat, i: nat)
    requires IsTrace(states, calls, script) && k <= i < |states|
    requires forall j :: k <= j < i ==> Untouched(h, script[j]) && calls[j].handle != h
    ensures h in states[i].due <==> h in states[k].due
    ensures h in states[k].due ==> states[i].due[h] == states[k].due[h]
    decreases i
  {
    hide DoAll, Due, Untouched;
    if k < i {
      StaysAsItWas(states, calls, script, h, k, i - 1);
      assert CallOf(states[i - 1], calls[i - 1]);
      OthersStay(Took(states[i - 1], calls[i - 1].handle), script[i - 1], h);
    }
  }

  /** The `n`-th thing a callback does is to start a timer, and nothing it does later touches that. */
  lemma StartedInside(l: Loop, ops: seq<Op>, n: nat)
    requires n < |ops| && ops[n].Start? && ops[n].handle in DoAll(l, ops[..n]).info
    requires Untouched(ops[n].handle, ops[n + 1..])
    ensures var h, at := ops[n].handle, DoAll(l, ops[..n]);
      h in DoAll(l, ops).due && DoAll(l, ops).due[h] == Key(Due(at.time, ops[n].timeout), at.counter)
  {
    hide Due;
    assert ops[..n + 1][..n] == ops[..n];
    assert ops == ops[..n + 1] + ops[n + 1..];
    DoAllConcat(l, ops[..n + 1], ops[n + 1..]);
    OthersStay(DoAll(l, ops[..n + 1]), ops[n + 1..], ops[n].handle);
  }

  lemma {:induction false} DoAllConcat(l: Loop, a: seq<Op>, b: seq<Op>)
    ensures DoAll(l, a + b) == DoAll(DoAll(l, a), b)
    decreases |b|
  {
    if b == [] {
      assert a + b == a;
    } else {
      var n := |b| - 1;
      assert (a + b)[..|a| + n] == a + b[..n];
      DoAllConcat(l, a, b[..n]);
    }
  }

  /**
   * A timer that a callback starts for `timeout`, and that nothing touches from then on until it is
   * called, is not called before the time of its start and `timeout` together, or the end of time.
   */
  lemma StartedNotEarly(states: seq<Loop>, calls: seq<Call>, script: seq<seq<Op>>, k: nat, n: nat, i: nat)
    requires IsTrace(states, calls, script) && k < i < |calls|
    requires n < |script[k]| && script[k][n].Start? && calls[i].handle == script[k][n].handle
    requires var at := DoAll(Took(states[k], calls[k].handle), script[k][..n]); calls[i].handle in at.info
    requires Untouched(calls[i].handle, script[k][n + 1..])
    requires forall j :: k < j < i ==> Untouched(calls[i].handle, script[j]) && calls[j].handle != calls[i].handle
    ensures var at := DoAll(Took(states[k], calls[k].handle), script[k][..n]);
      calls[i].time >= at.time + script[k][n].timeout || calls[i].time == WORD_LIMIT - 1
  {
    hide DoAll, Took, Untouched;
    StartedInside(Took(states[k], calls[k].handle), script[k], n);
    StaysAsItWas(states, calls, script, calls[i].handle, k + 1, i);
    assert CallOf(states[i], calls[i]);
  }

  /** A timer that nothing touches is called again only if it repeats, and not before that time has passed. */
  lemma RepeatedNotEarly(states: seq<Loop>, calls: seq<Call>, script: seq<seq<Op>>, k: nat, i: nat)
    requires IsTrace(states, calls, script) && Sound(states[0])
    requires k < i < |calls| && calls[i].handle == calls[k].handle
    requires forall j :: k <= j < i ==> Untouched(calls[i].handle, script[j])
    requires forall j :: k < j < i ==> calls[j].handle != calls[i].handle
    ensures calls[k].handle in states[k].info
    ensures var repeat := states[k].info[calls[k].handle].repeat;
      repeat != 0 && (calls[i].time >= calls[k].time + repeat || calls[i].time == WORD_LIMIT - 1)
  {
    hide DoAll, Took, Untouched;
    var h := calls[i].handle;
    CalledIsBehind(states, calls, script, k, k);
    assert CallOf(states[k], calls[k]) && CallOf(states[i], calls[i]);
    TookIs(states[k], h, h);
    OthersStay(Took(states[k], h), script[k], h);
    StaysAsItWas(states, calls, script, h, k + 1, i);
  }

  class TimerLoop {
    const heap: Heap<Key>
    var time: uint64
    var counter: nat
    var info: map<Handle, Info>

    ghost predicate Valid()
      reads this, heap, heap.tree, info.Keys
    {
      && heap.Valid(TimerLessThan)
      && NodeSet(heap.tree) == (set h | h in info && info[h].active)
      && (forall h :: h in NodeSet(heap.tree) ==> h.key.startId < counter)
      && (forall h :: h in info && info[h].active ==> info[h].hasCallback)
      && (forall h, x :: h in NodeSet(heap.tree) && x in NodeSet(heap.tree) && h != x ==>
            h.key.startId != x.key.startId)
    }

    ghost function TheLoop(): Loop
      reads this, info.Keys
    {
      Loop(time, counter, info, map h | h in info && info[h].active :: h.key)
    }

    /** What it takes to be the timers of this loop. */
    ghost predicate IsTheLoop(l: Loop)
      reads this, info.Keys
    {
      && l.time == time && l.counter == counter && l.info == info
      && l.due.Keys == (set h | h in info && info[h].active)
      && (forall h :: h in l.due ==> l.due[h] == h.key)
    }

    lemma HeapKnown()
      requires Valid()
      ensures NodeSet(heap.tree) <= info.Keys
    {
      hide Heap.Valid;
    }

    lemma LoopIs(l: Loop)
      ensures l == TheLoop() <==> IsTheLoop(l)
    {
      if IsTheLoop(l) { assert l.due == TheLoop().due; }
    }

    constructor (now: uint64)
      ensures Valid() && info == map[] && time == now && fresh(heap)
    {
      heap := new Heap<Key>();
      time, counter, info := now, 0, map[];
    }

    method TimerStop(h: Handle)
      requires Valid() && h in info
      modifies this`info, heap, NodeSet(heap.tree)`left, NodeSet(heap.tree)`right, NodeSet(heap.tree)`parent
      ensures Valid() && info == old(info)[h := old(info[h]).(active := false)]
    {
      hide Heap.Valid, StrictWeakOrder;
      if !info[h].active {
        return;
      }
      TimerOrder();
      assert h in NodeSet(heap.tree);
      heap.MinIsLeast(TimerLessThan);
      heap.Remove(h, TimerLessThan);
      info := info[h := info[h].(active := false)];
    }

    method TimerStart(h: Handle, timeout: uint64, repeat: uint64)
      requires Valid() && h in info
      modifies this`info, this`counter, heap, info.Keys
      ensures Valid() && counter == old(counter) + 1
      ensures info == old(info)[h := Info(repeat, true, true)]
      ensures h.key == Key(Due(time, timeout), old(counter))
      ensures h.key.timeout == if time + timeout < WORD_LIMIT then time + timeout else WORD_LIMIT - 1
      ensures forall x :: x in info && x != h ==> x.key == old(x.key)
    {
      hide Heap.Valid, StrictWeakOrder;
      if info[h].active {
        TimerStop(h);
      }
      assert h !in NodeSet(heap.tree);
      StartStopped(h, timeout, repeat);
    }

    /** The rest of `uv_timer_start`, for a handle that is not in the heap. */
    method StartStopped(h: Handle, timeout: uint64, repeat: uint64)
      requires Valid() && h in info && !info[h].active
      modifies this`info, this`counter, heap, h, NodeSet(heap.tree)`left, NodeSet(heap.tree)`right,
        NodeSet(heap.tree)`parent
      ensures Valid() && counter == old(counter) + 1
      ensures info == old(info)[h := Info(repeat, true, true)]
      ensures h.key == Key(Due(time, timeout), old(counter))
      ensures h.key.timeout == if time + timeout < WORD_LIMIT then time + timeout else WORD_LIMIT - 1
    {
      hide Heap.Valid, StrictWeakOrder, Due;
      assert h !in NodeSet(heap.tree);
      assert h !in heap.tree;
      h.key := Key(Due(time, timeout), counter);
      counter := counter + 1;
      TimerOrder();
      heap.Insert(h, TimerLessThan);
      info := info[h := Info(repeat, true, true)];
    }

    method TimerAgain(h: Handle)
      requires Valid() && h in info
      modifies this`info, this`counter, heap, info.Keys
      ensures Valid() && old(counter) <= counter
      ensures info.Keys == old(info.Keys)
      ensures if old(info[h]).hasCallback && old(info[h]).repeat != 0 then
          && info == old(info)[h := Info(old(info[h]).repeat, true, true)]
          && h.key == Key(Due(time, old(info[h]).repeat), old(counter))
          && h.key.timeout == (var due := time + old(info[h]).repeat; if due < WORD_LIMIT then due else WORD_LIMIT - 1)
          && counter == old(counter) + 1
        else info == old(info) && h.key == old(h.key) && counter == old(counter)
      ensures forall x :: x in info && x != h ==> x.key == old(x.key)
    {
      hide Heap.Valid, Due;
      if !info[h].hasCallback {
        return;   // UV_EINVAL
      }
      if info[h].repeat != 0 {
        var repeat := info[h].repeat;
        TimerStop(h);
        TimerStart(h, repeat, repeat);
      }
    }

    /** How long the loop may sleep: until the earliest timer is due, or forever without timers. */
    method NextTimeout() returns (r: int)
      requires Valid()
      ensures if heap.tree == [] then r == -1
        else if exists h :: h in heap.tree && h.key.timeout <= time then r == 0
        else 0 < r <= INT_MAX && forall h :: h in heap.tree ==> time + r <= h.key.timeout
      ensures heap.tree != [] && 0 < r < INT_MAX ==> exists h :: h in heap.tree && h.key.timeout == time + r
    {
      TimerOrder();
      heap.MinIsLeast(TimerLessThan);
      var first := heap.min;
      if first == null {
        return -1;
      }
      if first.key.timeout <= time {
        return 0;
      }
      var diff := first.key.timeout - time;
      if diff > INT_MAX {
        diff := INT_MAX;
      }
      return diff;
    }

    method TimerInit(h: Handle)
      requires Valid() && h !in info
      modifies this`info
      ensures Valid() && info == old(info)[h := Info(0, false, false)]
    {
      info := info[h := Info(0, false, false)];
    }

    method TimerSetRepeat(h: Handle, repeat: uint64)
      requires Valid() && h in info
      modifies this`info
      ensures Valid() && info == old(info)[h := old(info[h]).(repeat := repeat)]
    {
      hide Heap.Valid;
      info := info[h := info[h].(repeat := repeat)];
    }

    method UpdateTime(to: uint64)
      requires Valid()
      modifies this`time
      ensures Valid() && time == if to > old(time) then to else old(time)
    {
      if to > time { time := to; }
    }

    static predicate Known(handles: set<Handle>, op: Op) { op.UpdateTime? || op.handle in handles }

    /**
     * User code: any calls on any timers, and the loop's time may be brought up to date. A timer
     * has to be initialised before anything else is done with it, and not while it is active.
     */
    method Perform(op: Op, ghost all: set<Handle>)
      requires Valid() && info.Keys <= all && Known(all, op)
      modifies this, heap, all
      ensures Valid() && info.Keys <= all && TheLoop() == Do(old(TheLoop()), op)
    {
      hide Heap.Valid, Due, TimerLoop.TheLoop, TimerLoop.Valid;
      ghost var l := TheLoop();
      LoopIs(l);
      if op.UpdateTime? {
        UpdateTime(op.to);
        LoopIs(Do(l, op));
      } else if op.Init? {
        if op.handle !in info { TimerInit(op.handle); }
        LoopIs(Do(l, op));
      } else if op.handle in info {
        PerformOn(op);
      }
    }

    method PerformOn(op: Op)
      requires Valid() && !op.UpdateTime? && !op.Init? && op.handle in info
      modifies this`info, this`counter, heap, info.Keys
      ensures Valid() && info.Keys == old(info.Keys) && TheLoop() == Do(old(TheLoop()), op)
    {
      hide Heap.Valid, Due, TimerLoop.TheLoop, TimerLoop.Valid;
      ghost var l := TheLoop();
      LoopIs(l);
      HeapKnown();
      match op {
        case Start(h, timeout, repeat) => TimerStart(h, timeout, repeat);
        case Stop(h) => TimerStop(h);
        case Close(h) => TimerStop(h);
        case Again(h) => TimerAgain(h);
        case SetRepeat(h, repeat) => TimerSetRepeat(h, repeat);
      }
      LoopIs(Do(l, op));
    }

    method Callback(ops: seq<Op>, ghost all: set<Handle>)
      requires Valid() && info.Keys <= all && forall op :: op in ops ==> Known(all, op)
      modifies this, heap, all
      ensures Valid() && info.Keys <= all && TheLoop() == DoAll(old(TheLoop()), ops)
    {
      hide Do, TimerLoop.TheLoop, TimerLoop.Valid;
      for i := 0 to |ops|
        invariant Valid() && info.Keys <= all && TheLoop() == DoAll(old(TheLoop()), ops[..i])
      {
        assert ops[i] in ops;
        assert ops[..i + 1][..i] == ops[..i];
        Perform(ops[i], all);
      }
      assert ops[..|ops|] == ops;
    }

    /** The earliest timer, if it is due: taken out of the heap and, if it repeats, put back. */
    method TakeDue() returns (h: Node?<Key>, key: Key)
      requires Valid()
      modifies this`info, this`counter, heap, info.Keys
      ensures Valid() && info.Keys == old(info.Keys) && time == old(time)
      ensures h == null ==> unchanged(this) && TheLoop() == old(TheLoop()) && NothingDue(TheLoop())
      ensures h != null ==> CallOf(old(TheLoop()), Call(h, key, time)) && TheLoop() == Took(old(TheLoop()), h)
    {
      hide Heap.Valid, StrictWeakOrder, Due, TimerLoop.TheLoop;
      ghost var l := TheLoop();
      LoopIs(l);
      TimerOrder();
      heap.MinIsLeast(TimerLessThan);
      key := Key(0, 0);
      h := heap.min;
      if h == null {
        return;
      }
      if h.key.timeout > time {
        return null, key;
      }
      key := h.key;
      assert h in NodeSet(heap.tree);
      assert CallOf(l, Call(h, key, time));
      PutBack(h);
    }

    /** A due timer stopped and, if it repeats, started again. */
    method PutBack(h: Handle)
      requires Valid() && h in info
      modifies this`info, this`counter, heap, info.Keys
      ensures Valid() && info.Keys == old(info.Keys) && TheLoop() == Took(old(TheLoop()), h)
    {
      hide Heap.Valid, TimerLoop.Valid, Due, TimerLoop.TheLoop;
      ghost var l := TheLoop();
      LoopIs(l);
      HeapKnown();
      TimerStop(h);
      TimerAgain(h);
      LoopIs(Took(l, h));
    }

    lemma LoopSound()
      requires Valid()
      ensures Sound(TheLoop()) && TheLoop().time == time
    {
    }

    lemma LoopDue(h: Handle)
      requires NothingDue(TheLoop()) && h in info && info[h].active
      ensures h.key.timeout > time
    {
      assert h in TheLoop().due;
    }

    /**
     * `uv__run_timers`. The i-th callback does `script[i]`; a run that calls more callbacks than
     * `script` describes is cut off there, so that runs that never end are covered by their beginnings.
     */
    method RunTimers(script: seq<seq<Op>>, ghost all: set<Handle>)
      returns (calls: seq<Call>, done: bool, ghost states: seq<Loop>)
      requires Valid() && info.Keys <= all && forall i, op :: 0 <= i < |script| && op in script[i] ==> Known(all, op)
      modifies this, heap, all
      ensures Valid()
      ensures IsTrace(states, calls, script) && states[0] == old(TheLoop()) && states[|calls|] == TheLoop()
      ensures forall i, j :: 0 <= i < j < |calls| ==> TimerLessThan(calls[i].key, calls[j].key)
      ensures forall i :: 0 <= i < |calls| ==> calls[i].key.timeout <= calls[i].time <= time
      ensures if done then NothingDue(TheLoop()) else |calls| == |script|
      ensures done ==> forall h :: h in info && info[h].active ==> h.key.timeout > time
    {
      hide Heap.Valid, TimerLoop.Valid, DoAll, Took, TimerLoop.TheLoop, CallOf, NothingDue, Sound;
      calls, done, states := [], false, [TheLoop()];
      LoopSound();
      for i := 0 to |script|
        invariant Valid() && info.Keys <= all && |calls| == i && !done
        invariant IsTrace(states, calls, script) && states[0] == old(TheLoop()) && states[i] == TheLoop()
      {
        var h, key := TakeDue();
        if h == null {
          done := true;
          break;
        }
        calls := calls + [Call(h, key, time)];
        Callback(script[i], all);
        states := states + [TheLoop()];
      }
      CalledInOrder(states, calls, script);
      LoopSound();
      if done {
        forall h | h in info && info[h].active ensures h.key.timeout > time { LoopDue(h); }
      }
    }
  }
}
