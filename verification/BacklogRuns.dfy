/**
 * The backlog in time: timers that fire when due, a clock that moves on, items that are added,
 * refreshed and removed. Over every run, no item is reported before its deadline and none later
 * than the shortest timer period (plus whatever delay the event loop adds to a firing) after it;
 * and no item is ever lost.
 */
module BacklogRuns {
  import opened Sequences
  import opened Words
  import opened Backlog

  /** `due[i]` is when timer i fires next; `added` and `removed` are histories. */
  datatype System<T(==)> = System(
    periods: seq<nat>, timeout: nat, items: seq<seq<T>>,
    times: map<T, uint64>, now: uint64, due: seq<nat>,
    onTime: seq<Report<T>>, onAdd: seq<Report<T>>, added: multiset<T>, removed: multiset<T>)

  function Initial<T>(entityTimeout: nat, now: uint64): System<T> {
    var periods := Periods(entityTimeout);
    System(periods, entityTimeout * MS, seq(|periods|, _ => []), map[], now,
           seq(|periods|, i requires 0 <= i < |periods| => now + periods[i] * MS), [], [], multiset{}, multiset{})
  }

  datatype Step<T> =
    | Advance(to: uint64)                                    // time passes
    | Stamp(item: T, time: uint64)                           // an item gets its timestamp, or a newer one
    | Add(item: T)
    | Remove(bucket: nat, place: nat)
    | Fire(timer: nat, readings: seq<uint64>)                // one reading of the clock per item visited

  predicate Rising(readings: seq<uint64>, low: nat, high: nat) {
    && (forall k :: 0 <= k < |readings| ==> low <= readings[k] <= high)
    && (forall j, k :: 0 <= j <= k < |readings| ==> readings[j] <= readings[k])
  }

  /**
   * When a step can happen. `delay` bounds how long after its due time a timer's visit is over;
   * timestamps come from the clock, so they never move back and never run ahead.
   */
  predicate Enabled<T>(delay: nat, s: System<T>, step: Step<T>)
    requires |s.items| == |s.periods| == |s.due|
  {
    match step
    case Advance(to) => s.now <= to && forall i :: 0 <= i < |s.due| ==> to <= s.due[i] + delay
    case Stamp(x, time) => time <= s.now && (x in s.times ==> s.times[x] <= time)
    case Add(x) => x in s.times
    case Remove(i, k) => i < |s.items| && k < |s.items[i]|
    case Fire(i, readings) =>
      && i < |s.items| && i < |s.due| && s.due[i] <= s.now
      && |readings| == |s.items[i]|
      && forall j :: 0 <= j < |s.due| ==> Rising(readings, s.now, s.due[j] + delay)
  }

  function TimeOf<T(==)>(times: map<T, uint64>): T -> uint64 { x => if x in times then times[x] else 0 }

  function Clock(readings: seq<uint64>): nat -> uint64 { (k: nat) => if k < |readings| then readings[k] else 0 }

  /** The visit of timer `i`, as the class does it, after `k` items; `stops` says whose report stops the backlog. */
  function Visit<T(==)>(s: System<T>, i: nat, readings: seq<uint64>, stops: T -> bool, k: nat): (r: Sweep<T>)
    requires |s.items| == |s.periods| && i < |s.items| && k <= |s.items[i]|
    ensures |r.items| == |s.items|
  {
    SweepFirst(s.periods, s.timeout, i, s.items, k, Clock(readings), TimeOf(s.times), stops)
  }

  function Never<T>(): T -> bool { _ => false }

  function Next<T(==)>(delay: nat, s: System<T>, step: Step<T>): System<T>
    requires |s.items| == |s.periods| == |s.due| > 0 && Enabled(delay, s, step)
  {
    match step
    case Advance(to) => s.(now := to)
    case Stamp(x, time) => s.(times := s.times[x := time])
    case Add(x) =>
      var time := s.times[x];
      if s.now < time then s
      else if s.now - time >= s.timeout then
        s.(onAdd := s.onAdd + [Report(x, s.now, time)], added := s.added + multiset{x})
      else
        var i := BucketIndex(s.periods, s.timeout - (s.now - time));
        s.(items := s.items[i := s.items[i] + [x]], added := s.added + multiset{x})
    case Remove(i, k) => s.(items := Without(s.items, i, k), removed := s.removed + multiset{s.items[i][k]})
    case Fire(i, readings) =>
      var v := Visit(s, i, readings, Never(), |s.items[i]|);
      s.(items := v.items[i := v.kept], onTime := s.onTime + v.expired,
         now := if readings == [] then s.now else readings[|readings| - 1],
         due := s.due[i := s.now + s.periods[i] * MS])
  }

  // ---------- what every reachable state satisfies ----------

  /** Timer `i` comes round for `x` no later than the shortest period after its deadline. */
  predicate InTime<T>(s: System<T>, due: nat, x: T)
    requires s.periods != []
  {
    x in s.times && s.times[x] <= s.now && due <= s.times[x] + s.timeout + Last(s.periods) * MS
  }

  predicate NotEarlyNotLate<T>(timeout: nat, slack: nat, r: Report<T>) {
    r.time + timeout <= r.at <= r.time + timeout + slack
  }

  predicate Shape<T>(s: System<T>) {
    && |s.items| == |s.periods| == |s.due| > 0
    && s.timeout == s.periods[0] * MS
    && forall i :: 0 <= i < |s.due| ==> s.due[i] <= s.now + s.periods[i] * MS
  }

  predicate AllInTime<T>(s: System<T>)
    requires Shape(s)
  {
    forall i, x :: 0 <= i < |s.items| && x in s.items[i] ==> InTime(s, s.due[i], x)
  }

  ghost predicate Inv<T>(delay: nat, s: System<T>) {
    && Shape(s)
    && (forall i :: 0 <= i < |s.due| ==> s.now <= s.due[i] + delay)
    && AllInTime(s)
    && (forall k :: 0 <= k < |s.onTime| ==> NotEarlyNotLate(s.timeout, Last(s.periods) * MS + delay, s.onTime[k]))
  }

  // ---------- the visit of a timer ----------

  /** After `k` items of bucket `i`: what is kept, what was moved, and what was reported are all in time. */
  predicate VisitInTime<T>(s: System<T>, i: nat, delay: nat, v: Sweep<T>)
    requires Shape(s) && |v.items| == |s.items| && i < |s.items|
  {
    && (forall j, x :: 0 <= j < |v.items| && x in v.items[j] ==> InTime(s, s.due[j], x))
    && (forall x :: x in v.kept ==> InTime(s, s.now + s.periods[i] * MS, x))
    && (forall k :: 0 <= k < |v.expired| ==> NotEarlyNotLate(s.timeout, Last(s.periods) * MS + delay, v.expired[k]))
  }

  lemma ItemInTime<T>(s: System<T>, i: nat, delay: nat, v: Sweep<T>, x: T, now: uint64, stops: bool)
    requires Shape(s) && |v.items| == |s.items| && i < |s.items| && VisitInTime(s, i, delay, v)
    requires InTime(s, s.due[i], x) && s.now <= now <= s.due[i] + delay
    ensures VisitInTime(s, i, delay, SweepItem(s.periods, s.timeout, i, v, x, now, s.times[x], stops))
  {
    var time := s.times[x];
    assert WrapSub(now, time) == now - time;
    if !v.stopped && now - time < s.timeout {
      var left := s.timeout - (now - time);
      var j := BucketIndex(s.periods, left);
      Placement(s.periods, left);
      assert s.due[j] <= now + s.periods[j] * MS;
      assert InTime(s, s.due[j], x) && InTime(s, s.now + s.periods[j] * MS, x);
    }
  }

  lemma {:induction false} VisitKeepsTime<T>(delay: nat, s: System<T>, i: nat, readings: seq<uint64>, stops: T -> bool,
                                             k: nat)
    requires Inv(delay, s) && Enabled(delay, s, Fire(i, readings)) && k <= |s.items[i]|
    ensures VisitInTime(s, i, delay, Visit(s, i, readings, stops, k))
  {
    if k > 0 {
      VisitKeepsTime(delay, s, i, readings, stops, k - 1);
      var x := s.items[i][k - 1];
      assert Rising(readings, s.now, s.due[i] + delay);
      ItemInTime(s, i, delay, Visit(s, i, readings, stops, k - 1), x, readings[k - 1], stops(x));
    }
  }

  lemma FireKeepsInv<T>(delay: nat, s: System<T>, i: nat, readings: seq<uint64>)
    requires Inv(delay, s) && Enabled(delay, s, Fire(i, readings))
    ensures Inv(delay, Next(delay, s, Fire(i, readings)))
  {
    VisitKeepsTime(delay, s, i, readings, Never(), |s.items[i]|);
    var s' := Next(delay, s, Fire(i, readings));
    forall j | 0 <= j < |s.due| ensures s'.now <= s'.due[j] + delay && s.now <= s'.now {
      assert Rising(readings, s.now, s.due[j] + delay);
    }
  }

  lemma NextKeepsInv<T>(delay: nat, s: System<T>, step: Step<T>)
    requires Inv(delay, s) && Enabled(delay, s, step)
    ensures Inv(delay, Next(delay, s, step))
  {
    match step
    case Advance(_) =>
    case Stamp(_, _) =>
    case Add(x) =>
      var time := s.times[x];
      if time <= s.now && s.now - time < s.timeout {
        Placement(s.periods, s.timeout - (s.now - time));
      }
    case Remove(i, k) =>
      var b := s.items[i][..k] + s.items[i][k + 1..];
      assert forall x :: x in b ==> x in s.items[i];
    case Fire(i, readings) => FireKeepsInv(delay, s, i, readings);
  }

  // ---------- nothing is lost ----------

  function One<T(==)>(x: T, y: T): nat { if x == y then 1 else 0 }

  function Count<T(==)>(b: seq<T>, y: T): nat { CountIf(b, Is(y)) }

  /** How often `y` stands in the buckets, and how often it was reported. */
  function InBuckets<T(==)>(items: seq<seq<T>>, y: T): nat {
    if items == [] then 0 else Count(items[0], y) + InBuckets(items[1..], y)
  }

  function InReports<T(==)>(reports: seq<Report<T>>, y: T): nat {
    if reports == [] then 0 else InReports(reports[..|reports| - 1], y) + One(reports[|reports| - 1].item, y)
  }

  lemma OneMore<T>(b: seq<T>, x: T, y: T)
    ensures Count(b + [x], y) == Count(b, y) + One(x, y)
  {
    CountSnoc(b, x, Is(y));
  }

  lemma {:induction false} BucketsUpdate<T>(items: seq<seq<T>>, i: nat, b: seq<T>, y: T)
    requires i < |items|
    ensures InBuckets(items[i := b], y) + Count(items[i], y) == InBuckets(items, y) + Count(b, y)
  {
    if i == 0 {
      assert items[0 := b][1..] == items[1..];
    } else {
      BucketsUpdate(items[1..], i - 1, b, y);
      assert items[i := b][1..] == items[1..][i - 1 := b];
    }
  }

  lemma ReportsSnoc<T>(a: seq<Report<T>>, r: Report<T>, y: T)
    ensures InReports(a + [r], y) == InReports(a, y) + One(r.item, y)
  {
    assert (a + [r])[..|a|] == a;
  }

  lemma {:induction false} ReportsConcat<T>(a: seq<Report<T>>, b: seq<Report<T>>, y: T)
    ensures InReports(a + b, y) == InReports(a, y) + InReports(b, y)
  {
    if b == [] {
      assert a + b == a;
    } else {
      assert (a + b)[..|a + b| - 1] == a + b[..|b| - 1];
      ReportsConcat(a, b[..|b| - 1], y);
    }
  }

  /** One item visited: kept, moved or reported, exactly once. */
  lemma ItemConserved<T>(periods: seq<nat>, timeout: nat, i: nat, v: Sweep<T>,
                         x: T, now: uint64, time: uint64, stops: bool, y: T)
    requires |v.items| == |periods| > 0 && i < |periods| && !v.stopped
    ensures var w := SweepItem(periods, timeout, i, v, x, now, time, stops);
      && w.items[i] == v.items[i] && (w.stopped ==> stops)
      && InBuckets(w.items, y) + Count(w.kept, y) + InReports(w.expired, y)
         == InBuckets(v.items, y) + Count(v.kept, y) + InReports(v.expired, y) + One(x, y)
  {
    hide InBuckets, Count, InReports, BucketIndex;
    ReportsSnoc(v.expired, Report(x, now, time), y);
    OneMore(v.kept, x, y);
    if !Expires(timeout, now, time) {
      var j := BucketIndex(periods, timeout - WrapSub(now, time));
      BucketsUpdate(v.items, j, v.items[j] + [x], y);
      OneMore(v.items[j], x, y);
    }
  }

  /** Up to the item whose report stops the backlog, if any. */
  lemma {:induction false} VisitConserves<T>(s: System<T>, i: nat, readings: seq<uint64>, stops: T -> bool, k: nat,
                                             y: T)
    requires |s.items| == |s.periods| > 0 && i < |s.items| && k <= |s.items[i]|
    requires k > 0 ==> !Visit(s, i, readings, stops, k - 1).stopped
    ensures var v := Visit(s, i, readings, stops, k);
      && v.items[i] == s.items[i]
      && InBuckets(v.items, y) + Count(v.kept, y) + InReports(v.expired, y)
         == InBuckets(s.items, y) + Count(s.items[i][..k], y)
  {
    hide BucketIndex, InBuckets;
    if k > 0 {
      VisitConserves(s, i, readings, stops, k - 1, y);
      var x := s.items[i][k - 1];
      ItemConserved(s.periods, s.timeout, i, Visit(s, i, readings, stops, k - 1), x,
                    Clock(readings)(k - 1), TimeOf(s.times)(x), stops(x), y);
      assert s.items[i][..k] == s.items[i][..k - 1] + [x];
      OneMore(s.items[i][..k - 1], x, y);
    }
  }

  lemma {:induction false} NeverStops<T>(s: System<T>, i: nat, readings: seq<uint64>, k: nat)
    requires |s.items| == |s.periods| > 0 && i < |s.items| && k <= |s.items[i]|
    ensures !Visit(s, i, readings, Never(), k).stopped
  {
    hide BucketIndex;
    if k > 0 { NeverStops(s, i, readings, k - 1); }
  }

  /** Every `y` added is in the backlog, was reported, or was removed: as often as it was added. */
  predicate Conserved<T>(s: System<T>, y: T) {
    s.added[y] == InBuckets(s.items, y) + InReports(s.onTime, y) + InReports(s.onAdd, y) + s.removed[y]
  }

  lemma NextConserves<T>(delay: nat, s: System<T>, step: Step<T>, y: T)
    requires |s.items| == |s.periods| == |s.due| > 0 && Enabled(delay, s, step) && Conserved(s, y)
    ensures Conserved(Next(delay, s, step), y)
  {
    hide InBuckets, Count, InReports, BucketIndex, SweepFirst;
    match step
    case Advance(_) =>
    case Stamp(_, _) =>
    case Add(x) =>
      var time := s.times[x];
      ReportsSnoc(s.onAdd, Report(x, s.now, time), y);
      if time <= s.now && s.now - time < s.timeout {
        var i := BucketIndex(s.periods, s.timeout - (s.now - time));
        BucketsUpdate(s.items, i, s.items[i] + [x], y);
        OneMore(s.items[i], x, y);
      }
    case Remove(i, k) => RemoveConserves(s.items, i, k, y);
    case Fire(i, readings) =>
      var n := |s.items[i]|;
      var v := Visit(s, i, readings, Never(), n);
      if n > 0 { NeverStops(s, i, readings, n - 1); }
      VisitConserves(s, i, readings, Never(), n, y);
      assert s.items[i][..n] == s.items[i];
      BucketsUpdate(v.items, i, v.kept, y);
      ReportsConcat(s.onTime, v.expired, y);
  }

  lemma RemoveConserves<T>(items: seq<seq<T>>, i: nat, k: nat, y: T)
    requires i < |items| && k < |items[i]|
    ensures InBuckets(Without(items, i, k), y) + One(items[i][k], y) == InBuckets(items, y)
  {
    var b := items[i];
    assert b == (b[..k] + [b[k]]) + b[k + 1..];
    CountConcat(b[..k] + [b[k]], b[k + 1..], Is(y));
    OneMore(b[..k], b[k], y);
    CountConcat(b[..k], b[k + 1..], Is(y));
    BucketsUpdate(items, i, b[..k] + b[k + 1..], y);
  }

  // ---------- whole runs ----------

  predicate IsRun<T(==)>(delay: nat, s: System<T>, steps: seq<Step<T>>)
    requires |s.items| == |s.periods| == |s.due| > 0
    decreases |steps|
  {
    steps != [] ==> Enabled(delay, s, steps[0]) && IsRun(delay, Next(delay, s, steps[0]), steps[1..])
  }

  function Final<T(==)>(delay: nat, s: System<T>, steps: seq<Step<T>>): System<T>
    requires |s.items| == |s.periods| == |s.due| > 0 && IsRun(delay, s, steps)
    decreases |steps|
  {
    if steps == [] then s else Final(delay, Next(delay, s, steps[0]), steps[1..])
  }

  lemma {:induction false} RunKeeps<T>(delay: nat, s: System<T>, steps: seq<Step<T>>, y: T)
    requires Inv(delay, s) && Conserved(s, y) && IsRun(delay, s, steps)
    ensures Inv(delay, Final(delay, s, steps)) && Conserved(Final(delay, s, steps), y)
    ensures Final(delay, s, steps).periods == s.periods
    decreases |steps|
  {
    hide Inv, Conserved, Enabled;
    if steps != [] {
      InvShape(delay, s);
      NextKeepsInv(delay, s, steps[0]);
      InvShape(delay, Next(delay, s, steps[0]));
      NextConserves(delay, s, steps[0], y);
      RunKeeps(delay, Next(delay, s, steps[0]), steps[1..], y);
    }
  }

  lemma InvShape<T>(delay: nat, s: System<T>)
    requires Inv(delay, s)
    ensures |s.items| == |s.periods| == |s.due| > 0
  {
  }

  lemma {:induction false} NothingInEmptyBuckets<T>(n: nat, items: seq<seq<T>>, y: T)
    requires |items| == n && forall i :: 0 <= i < n ==> items[i] == []
    ensures InBuckets(items, y) == 0
  {
    if n > 0 { NothingInEmptyBuckets(n - 1, items[1..], y); }
  }

  lemma InitialInv<T>(delay: nat, entityTimeout: nat, start: uint64, y: T)
    ensures Inv(delay, Initial<T>(entityTimeout, start)) && Conserved(Initial<T>(entityTimeout, start), y)
  {
    var s := Initial<T>(entityTimeout, start);
    NothingInEmptyBuckets(|s.items|, s.items, y);
  }

  /**
   * After every run from the start: an item still in the backlog is not overdue by more than the
   * shortest period plus the delay, every timer report was neither early nor later than that, and
   * every item ever added is in the backlog, was reported, or was removed.
   */
  lemma NeverEarlyNeverLateNeverLost<T>(delay: nat, entityTimeout: nat, start: uint64, steps: seq<Step<T>>, y: T)
    requires var s := Initial<T>(entityTimeout, start);
      |s.items| == |s.periods| == |s.due| > 0 && IsRun(delay, s, steps)
    ensures var s := Final(delay, Initial<T>(entityTimeout, start), steps);
      var slack := Last(Periods(entityTimeout)) * MS + delay;
      && (forall i :: 0 <= i < |s.items| && y in s.items[i] ==>
            y in s.times && s.now <= s.times[y] + entityTimeout * MS + slack)
      && (forall k :: 0 <= k < |s.onTime| ==> NotEarlyNotLate(entityTimeout * MS, slack, s.onTime[k]))
      && s.added[y] == InBuckets(s.items, y) + InReports(s.onTime, y) + InReports(s.onAdd, y) + s.removed[y]
    ensures entityTimeout >= 2 ==> Last(Periods(entityTimeout)) <= 3
  {
    hide Enabled, IsRun, Final, InBuckets, InReports, SweepFirst;
    LastPeriod(entityTimeout);
    InitialInv(delay, entityTimeout, start, y);
    RunKeeps(delay, Initial<T>(entityTimeout, start), steps, y);
  }

  /** Timestamps are not ahead of the clock, and what was reported when it was added was expired. */
  ghost predicate Stamped<T>(s: System<T>) {
    && (forall x :: x in s.times ==> s.times[x] <= s.now)
    && (forall r :: r in s.onAdd ==> r.time + s.timeout <= r.at)
  }

  lemma NextAdds<T>(delay: nat, s: System<T>, step: Step<T>, y: T)
    requires |s.items| == |s.periods| == |s.due| > 0 && Stamped(s) && Enabled(delay, s, step)
    ensures var t := Next(delay, s, step);
      && Stamped(t) && t.timeout == s.timeout && |t.items| == |t.periods| == |t.due| > 0
      && t.added[y] == s.added[y] + (if step == Add(y) then 1 else 0)
  {
    hide SweepFirst, BucketIndex;
    if step.Fire? && step.readings != [] { assert Rising(step.readings, s.now, s.due[0] + delay); }
  }

  lemma {:induction false} RunAdds<T>(delay: nat, s: System<T>, steps: seq<Step<T>>, y: T)
    requires |s.items| == |s.periods| == |s.due| > 0 && Stamped(s) && IsRun(delay, s, steps)
    ensures var f := Final(delay, s, steps);
      Stamped(f) && f.timeout == s.timeout && f.added[y] == s.added[y] + CountIf(steps, Is(Add(y)))
    decreases |steps|
  {
    hide Next, Enabled, Stamped;
    if steps != [] {
      NextAdds(delay, s, steps[0], y);
      RunAdds(delay, Next(delay, s, steps[0]), steps[1..], y);
    }
  }

  /** Every item asked to be added is; and one reported at that moment is expired. */
  lemma EveryAddCounts<T>(delay: nat, entityTimeout: nat, start: uint64, steps: seq<Step<T>>, y: T)
    requires var s := Initial<T>(entityTimeout, start);
      |s.items| == |s.periods| == |s.due| > 0 && IsRun(delay, s, steps)
    ensures var s := Final(delay, Initial<T>(entityTimeout, start), steps);
      && s.added[y] == CountIf(steps, Is(Add(y)))
      && forall r :: r in s.onAdd ==> r.time + entityTimeout * MS <= r.at
  {
    hide Next, Enabled, IsRun, Final;
    RunAdds(delay, Initial<T>(entityTimeout, start), steps, y);
  }

  /**
   * And when, after any run, the report of the `k`-th item visited stops the backlog: this visit's
   * reports too were neither early nor late, and what is dropped is what had been added and neither
   * reported nor removed.
   */
  lemma StoppedByReport<T>(delay: nat, entityTimeout: nat, start: uint64, steps: seq<Step<T>>,
                           i: nat, readings: seq<uint64>, stops: T -> bool, k: nat, y: T)
    requires var s := Initial<T>(entityTimeout, start);
      |s.items| == |s.periods| == |s.due| > 0 && IsRun(delay, s, steps)
    requires var s := Final(delay, Initial<T>(entityTimeout, start), steps);
      && |s.items| == |s.periods| == |s.due| && Enabled(delay, s, Fire(i, readings)) && 0 < k <= |s.items[i]|
      && Visit(s, i, readings, stops, k).stopped && !Visit(s, i, readings, stops, k - 1).stopped
    ensures var s := Final(delay, Initial<T>(entityTimeout, start), steps);
      var v := Visit(s, i, readings, stops, k);
      var dropped := v.items[i := v.kept + s.items[i][k..]];
      var slack := Last(Periods(entityTimeout)) * MS + delay;
      && (forall j :: 0 <= j < |v.expired| ==> NotEarlyNotLate(entityTimeout * MS, slack, v.expired[j]))
      && s.added[y] == InBuckets(dropped, y) + InReports(s.onTime, y) + InReports(v.expired, y)
          + InReports(s.onAdd, y) + s.removed[y]
  {
    hide IsRun, Final, InBuckets, InReports, SweepFirst, CountIf;
    InitialInv(delay, entityTimeout, start, y);
    RunKeeps(delay, Initial<T>(entityTimeout, start), steps, y);
    var s := Final(delay, Initial<T>(entityTimeout, start), steps);
    VisitKeepsTime(delay, s, i, readings, stops, k);
    VisitConserves(s, i, readings, stops, k, y);
    var v := Visit(s, i, readings, stops, k);
    BucketsUpdate(v.items, i, v.kept + s.items[i][k..], y);
    CountConcat(v.kept, s.items[i][k..], Is(y));
    CountConcat(s.items[i][..k], s.items[i][k..], Is(y));
    assert s.items[i][..k] + s.items[i][k..] == s.items[i];
  }
}
