/**
 * Items that expire a fixed time after their timestamp, kept in buckets that periodic timers of
 * halving periods visit (source/io/BacklogWithTimeout.h). Periods are in milliseconds, clock
 * readings and timestamps in nanoseconds, as in the original.
 */
module Backlog {
  import opened Words

  const MS: nat := 1_000_000

  // ---------- the periods ----------

  /** The timer periods for a timeout: halved until nothing above one millisecond is left. */
  function Periods(timeout: nat): (r: seq<nat>)
    ensures r != [] && r[0] == timeout && r[|r| - 1] / 2 <= 1
    ensures forall i :: 0 <= i < |r| - 1 ==> r[i + 1] == r[i] / 2 > 1
  {
    if timeout / 2 > 1 then [timeout] + Periods(timeout / 2) else [timeout]
  }

  function Last(periods: seq<nat>): nat
    requires periods != []
  {
    periods[|periods| - 1]
  }

  /** The shortest period is two or three milliseconds, unless the timeout itself is shorter. */
  lemma {:induction false} LastPeriod(timeout: nat)
    ensures Last(Periods(timeout)) == 2 || Last(Periods(timeout)) == 3 <==> timeout >= 2
    ensures timeout < 2 ==> Periods(timeout) == [timeout]
  {
    if timeout / 2 > 1 { LastPeriod(timeout / 2); }
  }

  /** The first timer from `i` on whose period fits into `time`, or else the last one. */
  function FirstFit(periods: seq<nat>, time: nat, i: nat): (r: nat)
    requires periods != [] && i <= |periods|
    ensures r < |periods|
    decreases |periods| - i
  {
    if i == |periods| then |periods| - 1
    else if time >= periods[i] * MS then i
    else FirstFit(periods, time, i + 1)
  }

  function BucketIndex(periods: seq<nat>, time: nat): (r: nat)
    requires periods != []
    ensures r < |periods|
  {
    if periods[0] - time / MS <= Last(periods) then 0 else FirstFit(periods, time, 1)
  }

  lemma {:induction false} FirstFitIs(periods: seq<nat>, time: nat, i: nat)
    requires periods != [] && i <= |periods|
    ensures var r := FirstFit(periods, time, i);
      && (r < |periods| - 1 ==> i <= r && periods[r] * MS <= time)
      && forall j :: i <= j < r ==> time < periods[j] * MS
    decreases |periods| - i
  {
    if i < |periods| && time < periods[i] * MS { FirstFitIs(periods, time, i + 1); }
  }

  /**
   * The bucket for an item with `time` left: the first one, if it has used up no more whole
   * milliseconds than the shortest period or there is no other; otherwise that of the longest
   * period, but for the first, that fits into the time left, or of the shortest if none does.
   */
  predicate IsBucketFor(periods: seq<nat>, time: nat, r: nat)
    requires periods != []
  {
    && r < |periods|
    && (r == 0 <==> |periods| == 1 || periods[0] - time / MS <= Last(periods))
    && (forall i :: 1 <= i < r ==> time < periods[i] * MS)
    && (0 < r < |periods| - 1 ==> periods[r] * MS <= time)
  }

  lemma PlacementExactly(periods: seq<nat>, time: nat, r: nat)
    requires periods != []
    ensures r == BucketIndex(periods, time) <==> IsBucketFor(periods, time, r)
  {
    FirstFitIs(periods, time, 1);
    var b := BucketIndex(periods, time);
    assert IsBucketFor(periods, time, b);
    if IsBucketFor(periods, time, r) && b > 0 && r > 0 {
      assert b < r ==> b < |periods| - 1;
      assert r < b ==> r < |periods| - 1;
    }
  }

  /** An item that has all its time left goes to the first bucket. */
  lemma FreshPlacement(timeout: nat)
    ensures BucketIndex(Periods(timeout), timeout * MS) == 0
  {
    PlacementExactly(Periods(timeout), timeout * MS, 0);
  }

  /** One period of the chosen timer never outlasts the time left by more than the shortest period. */
  lemma Placement(periods: seq<nat>, time: nat)
    requires periods != []
    ensures periods[BucketIndex(periods, time)] * MS <= time + Last(periods) * MS
  {
    PlacementExactly(periods, time, BucketIndex(periods, time));
    assert time / MS * MS <= time;
  }

  // ---------- expiry ----------

  /** Subtraction of the original's unsigned clock type. */
  function WrapSub(a: uint64, b: uint64): uint64 { (a - b) % WORD_LIMIT }

  predicate Expires(timeout: nat, now: uint64, time: uint64) { WrapSub(now, time) >= timeout }

  /**
   * An item expires exactly from its deadline on, except that a timestamp ahead of the clock
   * makes it expire at the next visit: early expiry happens if and only if the timestamp is in the
   * future by no more than 2^64 nanoseconds less the timeout.
   */
  lemma ExpiryExactly(timeout: nat, now: uint64, time: uint64)
    requires timeout > 0
    ensures Expires(timeout, now, time) && now < time + timeout <==> 0 < time - now <= WORD_LIMIT - timeout
    ensures time <= now ==> (Expires(timeout, now, time) <==> now >= time + timeout)
  {
    if time <= now {
      assert WrapSub(now, time) == now - time;
    } else {
      assert (now - time + WORD_LIMIT) % WORD_LIMIT == now - time + WORD_LIMIT;
      assert WrapSub(now, time) == now - time + WORD_LIMIT;
    }
  }

  // ---------- one visit of a timer, item by item ----------

  /** A call of the expired callback: the item, the clock reading that decided, the timestamp it was compared with. */
  datatype Report<T> = Report(item: T, at: uint64, time: uint64)

  /** The buckets, the items that stay in the visited one, the reports, and whether one of them stopped it all. */
  datatype Sweep<T> = Sweep(items: seq<seq<T>>, kept: seq<T>, expired: seq<Report<T>>, stopped: bool)

  function SweepItem<T>(periods: seq<nat>, timeout: nat, i: nat, s: Sweep<T>,
                        x: T, now: uint64, time: uint64, stops: bool): (r: Sweep<T>)
    requires |s.items| == |periods| > 0
    ensures |r.items| == |periods|
  {
    if s.stopped then s
    else if Expires(timeout, now, time) then s.(expired := s.expired + [Report(x, now, time)], stopped := stops)
    else
      var j := BucketIndex(periods, timeout - WrapSub(now, time));
      if j != i then s.(items := s.items[j := s.items[j] + [x]]) else s.(kept := s.kept + [x])
  }

  /** The first `k` items of bucket `i` visited; the clock is read once per item. */
  function SweepFirst<T>(periods: seq<nat>, timeout: nat, i: nat, items: seq<seq<T>>, k: nat,
                         clock: nat -> uint64, timeOf: T -> uint64, stops: T -> bool): (r: Sweep<T>)
    requires |items| == |periods| > 0 && i < |items| && k <= |items[i]|
    ensures |r.items| == |periods|
  {
    if k == 0 then Sweep(items, [], [], false)
    else
      var x := items[i][k - 1];
      SweepItem(periods, timeout, i, SweepFirst(periods, timeout, i, items, k - 1, clock, timeOf, stops),
                x, clock(k - 1), timeOf(x), stops(x))
  }

  lemma SweepNext<T>(periods: seq<nat>, timeout: nat, i: nat, items: seq<seq<T>>, k: nat,
                     clock: nat -> uint64, timeOf: T -> uint64, stops: T -> bool)
    requires |items| == |periods| > 0 && i < |items| && k < |items[i]|
    ensures var x, s := items[i][k], SweepFirst(periods, timeout, i, items, k, clock, timeOf, stops);
      SweepFirst(periods, timeout, i, items, k + 1, clock, timeOf, stops)
        == SweepItem(periods, timeout, i, s, x, clock(k), timeOf(x), stops(x))
  {
  }

  /** Of the first `k` items of a bucket, in order, those that do not expire and belong into bucket `j`. */
  ghost function Those<T>(periods: seq<nat>, timeout: nat, bucket: seq<T>, k: nat,
                          clock: nat -> uint64, timeOf: T -> uint64, j: nat): seq<T>
    requires periods != [] && k <= |bucket|
  {
    if k == 0 then []
    else
      var x, left := bucket[k - 1], timeout - WrapSub(clock(k - 1), timeOf(bucket[k - 1]));
      Those(periods, timeout, bucket, k - 1, clock, timeOf, j)
      + if left > 0 && IsBucketFor(periods, left, j) then [x] else []
  }

  /** And those that expire. */
  ghost function Reported<T>(timeout: nat, bucket: seq<T>, k: nat,
                             clock: nat -> uint64, timeOf: T -> uint64): seq<Report<T>>
    requires k <= |bucket|
  {
    if k == 0 then []
    else
      var x, now := bucket[k - 1], clock(k - 1);
      Reported(timeout, bucket, k - 1, clock, timeOf)
      + if WrapSub(now, timeOf(x)) >= timeout then [Report(x, now, timeOf(x))] else []
  }

  /** Unless a report stops it, a visit reports what expires and puts every other item into the bucket for it. */
  lemma {:induction false} SweepIs<T>(periods: seq<nat>, timeout: nat, i: nat, items: seq<seq<T>>, k: nat,
                                      clock: nat -> uint64, timeOf: T -> uint64, stops: T -> bool)
    requires |items| == |periods| > 0 && i < |items| && k <= |items[i]|
    requires !SweepFirst(periods, timeout, i, items, k, clock, timeOf, stops).stopped
    ensures var s := SweepFirst(periods, timeout, i, items, k, clock, timeOf, stops);
      && s.kept == Those(periods, timeout, items[i], k, clock, timeOf, i)
      && s.expired == Reported(timeout, items[i], k, clock, timeOf)
      && s.items[i] == items[i]
      && forall j :: 0 <= j < |items| && j != i ==>
           s.items[j] == items[j] + Those(periods, timeout, items[i], k, clock, timeOf, j)
  {
    hide BucketIndex, WrapSub, IsBucketFor, SweepFirst;
    if k == 0 {
      NothingSwept(periods, timeout, i, items, clock, timeOf, stops);
    } else {
      SweepNext(periods, timeout, i, items, k - 1, clock, timeOf, stops);
      SweepIs(periods, timeout, i, items, k - 1, clock, timeOf, stops);
      var x := items[i][k - 1];
      var left := timeout - WrapSub(clock(k - 1), timeOf(x));
      if left > 0 {
        forall j | 0 <= j < |items| ensures j == BucketIndex(periods, left) <==> IsBucketFor(periods, left, j) {
          PlacementExactly(periods, left, j);
        }
      }
    }
  }

  lemma NothingSwept<T>(periods: seq<nat>, timeout: nat, i: nat, items: seq<seq<T>>,
                        clock: nat -> uint64, timeOf: T -> uint64, stops: T -> bool)
    requires |items| == |periods| > 0 && i < |items|
    ensures SweepFirst(periods, timeout, i, items, 0, clock, timeOf, stops) == Sweep(items, [], [], false)
  {
  }

  /** A visit of one item a nanosecond ahead of the clock, of four milliseconds: it is reported. */
  lemma AheadOfTheClock(now: uint64)
    requires now < WORD_LIMIT - 1
    ensures SweepFirst([4, 2], 4 * MS, 0, [[7], []], 1, _ => now, _ => now + 1, _ => false)
      == Sweep([[7], []], [], [Report(7, now, now + 1)], false)
  {
    ExpiryExactly(4 * MS, now, now + 1);
    assert SweepFirst([4, 2], 4 * MS, 0, [[7], []], 0, _ => now, _ => now + 1, _ => false)
      == Sweep([[7], []], [], [], false);
  }

  // ---------- removal ----------

  /** `x` stands at place `k` of bucket `i`, and nowhere before. */
  ghost predicate IsFirst<T>(items: seq<seq<T>>, x: T, i: nat, k: nat) {
    && i < |items| && k < |items[i]| && items[i][k] == x
    && x !in items[i][..k] && forall j :: 0 <= j < i ==> x !in items[j]
  }

  function Without<T>(items: seq<seq<T>>, i: nat, k: nat): (r: seq<seq<T>>)
    requires i < |items| && k < |items[i]|
    ensures |r| == |items|
  {
    items[i := items[i][..k] + items[i][k + 1..]]
  }

  // ---------- the class ----------

  /** The constructor's loop: one timer per period. */
  method StartTimers(entityTimeout: nat) returns (timers: seq<nat>)
    ensures timers == Periods(entityTimeout)
  {
    timers := [entityTimeout];
    var current := entityTimeout / 2;
    while current > 1
      invariant current >= 0
      invariant Periods(entityTimeout) == timers + (if current > 1 then Periods(current) else [])
    {
      ghost var rest := if current / 2 > 1 then Periods(current / 2) else [];
      assert timers + ([current] + rest) == timers + [current] + rest;
      timers := timers + [current];
      current := current / 2;
    }
  }

  class BacklogWithTimeout<T(==)> {
    var timeout: nat           // nanoseconds
    var periods: seq<nat>      // one per timer; empty once stopped
    var items: seq<seq<T>>
    var expired: seq<Report<T>>   // the calls made to the expired callback

    ghost predicate Valid()
      reads this
    {
      && |items| == |periods|
      && (periods != [] ==> timeout == periods[0] * MS)
    }

    predicate Stopped()
      reads this
    {
      periods == []
    }

    constructor (entityTimeout: nat)
      ensures Valid() && !Stopped()
      ensures timeout == entityTimeout * MS && periods == Periods(entityTimeout)
      ensures items == seq(|periods|, _ => []) && expired == []
    {
      timeout := entityTimeout * MS;
      var timers := StartTimers(entityTimeout);
      periods := timers;
      items := seq(|timers|, _ => []);
      expired := [];
    }

    method BucketIndexFromTime(time: nat) returns (r: nat)
      requires Valid() && !Stopped() && time <= timeout
      ensures r == BucketIndex(periods, time) && IsBucketFor(periods, time, r)
    {
      hide IsBucketFor;
      PlacementExactly(periods, time, BucketIndex(periods, time));
      if periods[0] - time / MS <= Last(periods) {
        return 0;
      }
      for i := 1 to |periods|
        invariant FirstFit(periods, time, 1) == FirstFit(periods, time, i)
      {
        if time >= periods[i] * MS {
          return i;
        }
      }
      return |periods| - 1;
    }

    /** Stores an item, or reports it when it is expired already; `stops` says whether the report stops the backlog. */
    method AddItem(x: T, now: uint64, time: uint64, stops: bool) returns (ok: bool)
      requires Valid()
      modifies this
      ensures Valid()
      ensures if now < time || old(Stopped()) then
          !ok && unchanged(this)
        else if now - time >= old(timeout) then
          expired == old(expired) + [Report(x, now, time)] && ok == !stops &&
          (if stops then Stopped() && items == [] else unchanged(`items) && unchanged(`periods) && unchanged(`timeout))
        else
          var i := BucketIndex(old(periods), old(timeout) - (now - time));
          && IsBucketFor(old(periods), old(timeout) - (now - time), i)
          && ok && expired == old(expired) && unchanged(`periods) && unchanged(`timeout)
          && items == old(items)[i := old(items)[i] + [x]]
    {
      if now < time {
        return false;
      }
      if Stopped() {
        return false;
      }
      var diff := now - time;
      if diff >= timeout {
        expired := expired + [Report(x, now, time)];
        if stops {
          Stop();
        }
        return !Stopped();
      }
      var i := BucketIndexFromTime(timeout - diff);
      items := items[i := items[i] + [x]];
      return true;
    }

    method Stop()
      modifies this
      ensures Valid() && Stopped() && items == [] && expired == old(expired)
    {
      timeout, periods, items := 0, [], [];
    }

    /** Takes the first occurrence out of the first bucket that holds one. */
    method RemoveItem(x: T) returns (found: bool)
      requires Valid()
      modifies this`items
      ensures Valid()
      ensures found <==> exists i :: 0 <= i < |old(items)| && x in old(items)[i]
      ensures found ==> exists i, k :: IsFirst(old(items), x, i, k) && items == Without(old(items), i, k)
      ensures !found ==> items == old(items)
    {
      for i := 0 to |periods|
        invariant items == old(items)
        invariant forall j :: 0 <= j < i ==> x !in items[j]
      {
        var k := 0;
        while k < |items[i]| && items[i][k] != x
          invariant 0 <= k <= |items[i]|
          invariant x !in items[i][..k]
        {
          k := k + 1;
        }
        if k < |items[i]| {
          items := Without(items, i, k);
          assert IsFirst(old(items), x, i, k);
          return true;
        }
        assert items[i][..k] == items[i];
      }
      return false;
    }

    /** A timer fires: every item of its bucket is reported, moved or kept. */
    method OnTimer(i: nat, clock: nat -> uint64, timeOf: T -> uint64, stops: T -> bool)
      requires Valid() && i < |periods|
      modifies this
      ensures Valid()
      ensures var s := SweepFirst(old(periods), old(timeout), i, old(items), |old(items)[i]|, clock, timeOf, stops);
        && expired == old(expired) + s.expired
        && (if s.stopped then Stopped() && items == []
            else items == s.items[i := s.kept] && unchanged(`periods) && unchanged(`timeout))
    {
      hide BucketIndex, SweepFirst, WrapSub;
      var bucket := items[i];
      var replacement := [];
      ghost var seen := SweepFirst(periods, timeout, i, items, 0, clock, timeOf, stops);
      NothingSwept(periods, timeout, i, items, clock, timeOf, stops);
      for k := 0 to |bucket|
        invariant unchanged(`periods) && unchanged(`timeout) && |items| == |periods|
        invariant seen == SweepFirst(periods, timeout, i, old(items), k, clock, timeOf, stops)
        invariant !seen.stopped && items == seen.items && replacement == seen.kept
        invariant expired == old(expired) + seen.expired
      {
        var x := bucket[k];
        var diff := WrapSub(clock(k), timeOf(x));
        SweepNext(periods, timeout, i, old(items), k, clock, timeOf, stops);
        seen := SweepFirst(periods, timeout, i, old(items), k + 1, clock, timeOf, stops);
        if diff >= timeout {
          expired := expired + [Report(x, clock(k), timeOf(x))];
          if stops(x) {
            Stop();
          }
          if Stopped() {
            SweepStopped(old(periods), old(timeout), i, old(items), k + 1, |bucket|, clock, timeOf, stops);
            return;
          }
          continue;
        }
        var j := BucketIndexFromTime(timeout - diff);
        if j != i {
          items := items[j := items[j] + [x]];
        } else {
          replacement := replacement + [x];
        }
      }
      items := items[i := replacement];
    }
  }

  lemma {:induction false} SweepStopped<T>(periods: seq<nat>, timeout: nat, i: nat, items: seq<seq<T>>, k: nat, n: nat,
                        clock: nat -> uint64, timeOf: T -> uint64, stops: T -> bool)
    requires |items| == |periods| > 0 && i < |items| && k <= n <= |items[i]|
    requires SweepFirst(periods, timeout, i, items, k, clock, timeOf, stops).stopped
    ensures SweepFirst(periods, timeout, i, items, n, clock, timeOf, stops)
      == SweepFirst(periods, timeout, i, items, k, clock, timeOf, stops)
    decreases n
  {
    if k < n { SweepStopped(periods, timeout, i, items, k, n - 1, clock, timeOf, stops); }
  }
}
