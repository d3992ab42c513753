/** common/ticker.h and Peer::update_send_rate: the rate limiter, and how many packets it can let through. */
module Tickers {
  import opened Integers

  const SECOND: int := 1_000_000_000

  type Interval = x: int | x > 0 witness 1

  datatype State = State(lastKnownNow: Option<int>, interval: Option<Interval>, sinceLastTick: int)

  function TickState(t: State, now: int): (State, bool) {
    var known := t.(lastKnownNow := Some(now));
    if t.lastKnownNow.None? || t.interval.None? then (known.(sinceLastTick := 0), true)
    else
      var since := t.sinceLastTick + (now - t.lastKnownNow.value);
      if since >= t.interval.value then (known.(sinceLastTick := since % t.interval.value), true)
      else (known.(sinceLastTick := since), false)
  }

  // A rate of 0 is no limit; otherwise the quotient is a whole number of nanoseconds.
  function RateInterval(rate: u8): (i: Option<Interval>) {
    if rate == 0 then None else Some(SECOND / rate)
  }

  // No interval for no limit; otherwise the longest one that fits into a second `rate` times.
  predicate PacedAt(interval: Option<Interval>, rate: u8) {
    if rate == 0 then interval == None
    else interval.Some? && interval.value * rate <= 1_000_000_000 < (interval.value + 1) * rate
  }

  class Ticker {
    var lastKnownNow: Option<int>
    var tickInterval: Option<Interval>
    var timeSinceLastTick: int

    ghost function View(): State
      reads this
    {
      State(lastKnownNow, tickInterval, timeSinceLastTick)
    }

    constructor (now: int, tickInterval: Option<Interval>)
      ensures View() == State(Some(now), tickInterval, 0)
    {
      lastKnownNow := Some(now);
      this.tickInterval := tickInterval;
      timeSinceLastTick := 0;
    }

    method Tick(now: int) returns (ticked: bool)
      modifies this
      ensures (View(), ticked) == TickState(old(View()), now)
      ensures tickInterval == old(tickInterval)
    {
      var elapsed := if lastKnownNow.Some? then Some(now - lastKnownNow.value) else None;
      lastKnownNow := Some(now);
      if elapsed.None? || tickInterval.None? {
        timeSinceLastTick := 0;
        return true;
      }
      timeSinceLastTick := timeSinceLastTick + elapsed.value;
      if timeSinceLastTick >= tickInterval.value {
        timeSinceLastTick := timeSinceLastTick % tickInterval.value;
        return true;
      }
      return false;
    }

    // Peer::update_send_rate; the accumulated time is kept.
    method UpdateSendRate(rate: u8)
      modifies `tickInterval
      ensures View() == old(View()).(interval := RateInterval(rate))
      ensures PacedAt(tickInterval, rate)
    {
      RateIsPace(rate);
      if rate == 0 {
        ClearTickInterval();
      } else {
        SetTickInterval(SECOND / rate);
      }
    }

    method SetTickInterval(interval: Interval)
      modifies `tickInterval
      ensures tickInterval == Some(interval)
    {
      tickInterval := Some(interval);
    }

    method ClearTickInterval()
      modifies `tickInterval
      ensures tickInterval == None
    {
      tickInterval := None;
    }
  }

  // ---- Whole runs at a fixed interval ----

  function Ticks(t: State, times: seq<int>): (b: seq<bool>)
    ensures |b| == |times|
    decreases |times|
  {
    if times == [] then []
    else var (t', ticked) := TickState(t, times[0]); [ticked] + Ticks(t', times[1..])
  }

  function After(t: State, times: seq<int>): State
    decreases |times|
  {
    if times == [] then t else After(TickState(t, times[0]).0, times[1..])
  }

  function CountTrue(b: seq<bool>): nat {
    if b == [] then 0 else (if b[0] then 1 else 0) + CountTrue(b[1..])
  }

  predicate Sorted(times: seq<int>) {
    forall i, j :: 0 <= i < j < |times| ==> times[i] <= times[j]
  }

  // ---- No interval ----

  lemma NoLimit(t: State, now: int)
    requires t.interval == None
    ensures TickState(t, now) == (State(Some(now), None, 0), true)
  {
  }

  // Without an interval no tick is ever refused, and no time accumulates that a later interval would inherit.
  lemma {:induction false} NoLimitNeverRefuses(t: State, times: seq<int>)
    requires t.interval == None
    ensures CountTrue(Ticks(t, times)) == |times|
    ensures times != [] ==> After(t, times) == State(Some(times[|times| - 1]), None, 0)
    decreases |times|
  {
    if times != [] {
      hide TickState;
      NoLimit(t, times[0]);
      NoLimitNeverRefuses(TickState(t, times[0]).0, times[1..]);
    }
  }

  // ---- A fixed interval ----

  // The ticker runs at interval i; start is a moment at which a tick was due.
  predicate RunsFrom(t: State, i: Interval, start: int) {
    t.lastKnownNow.Some? && t.interval == Some(i) &&
    start <= t.lastKnownNow.value && t.sinceLastTick == (t.lastKnownNow.value - start) % i
  }

  // A tick is true exactly when a multiple of the interval was crossed, and the remainder is carried exactly.
  lemma TickIsExact(t: State, i: Interval, start: int, now: int)
    requires RunsFrom(t, i, start) && t.lastKnownNow.value <= now
    ensures var (t', ticked) := TickState(t, now);
            RunsFrom(t', i, start) && t'.lastKnownNow == Some(now) &&
            (ticked <==> (now - start) / i > (t.lastKnownNow.value - start) / i)
  {
    var last := t.lastKnownNow.value;
    var q, r := (last - start) / i, (last - start) % i;
    var since := r + (now - last);
    var q', r' := since / i, since % i;
    assert last - start == i * q + r;
    assert since == i * q' + r';
    Distribute(i, q, q');
    assert now - start == i * (q + q') + r';
    QuotientNonNegative(last - start, i);
    QuotientNonNegative(since, i);
    DivUnique(now - start, i, q + q', r');
    if since < i { DivUnique(since, i, 0, since); }
  }

  // Whatever time has accumulated, also more than an interval that was just set: the tick is due once it amounts to
  // the interval, and from then on the ticker runs from where the accumulation began.
  lemma TickIsDue(t: State, i: Interval, now: int)
    requires t.lastKnownNow.Some? && t.interval == Some(i) && t.sinceLastTick >= 0 && t.lastKnownNow.value <= now
    ensures var (t', ticked) := TickState(t, now);
            var start := t.lastKnownNow.value - t.sinceLastTick;
            (ticked <==> now - start >= i) && RunsFrom(t', i, start) && t'.lastKnownNow == Some(now)
  {
    var since := t.sinceLastTick + (now - t.lastKnownNow.value);
    if since < i { DivUnique(since, i, 0, since); }
  }

  lemma QuotientNonNegative(x: int, i: Interval)
    requires x >= 0
    ensures x / i >= 0
  {
  }

  // Over a whole run: at most one true tick for each multiple crossed, and the accumulator ends at the remainder.
  lemma {:induction false} RunIsExact(t: State, i: Interval, start: int, times: seq<int>)
    requires RunsFrom(t, i, start) && Sorted(times) && (times != [] ==> t.lastKnownNow.value <= times[0])
    ensures times != [] ==>
              var now := times[|times| - 1];
              t.lastKnownNow.value <= now &&
              After(t, times).sinceLastTick == (now - start) % i &&
              CountTrue(Ticks(t, times)) <= (now - start) / i - (t.lastKnownNow.value - start) / i
    decreases |times|
  {
    if times != [] {
      TickIsExact(t, i, start, times[0]);
      Monotone(t.lastKnownNow.value - start, times[0] - start, i);
      if |times| > 1 {
        assert times[0] <= times[1];
        RunIsExact(TickState(t, times[0]).0, i, start, times[1..]);
      } else {
        assert times[1..] == [];
      }
    }
  }

  lemma Monotone(x: int, y: int, i: Interval)
    requires 0 <= x <= y
    ensures 0 <= x / i <= y / i
  {
    QuotientNonNegative(x, i);
    QuotientNonNegative(y, i);
    if x / i > y / i {
      MulGap(i, y / i, x / i);
    }
  }

  // Asked at least once every interval.
  predicate Dense(last: int, i: Interval, times: seq<int>)
    decreases |times|
  {
    times == [] || (last <= times[0] <= last + i && Dense(times[0], i, times[1..]))
  }

  // How many multiples of the interval after start lie behind `from` and not behind `to`.
  function Crossed(start: int, i: Interval, from: int, to: int): int {
    (to - start) / i - (from - start) / i
  }

  lemma CrossedAdds(start: int, i: Interval, from: int, mid: int, to: int)
    ensures Crossed(start, i, from, mid) + Crossed(start, i, mid, to) == Crossed(start, i, from, to)
  {
  }

  // Asked often enough, it ticks once for each multiple crossed.
  lemma {:induction false} DenseRunIsExact(t: State, i: Interval, start: int, times: seq<int>)
    requires RunsFrom(t, i, start) && Dense(t.lastKnownNow.value, i, times) && times != []
    ensures CountTrue(Ticks(t, times)) == Crossed(start, i, t.lastKnownNow.value, times[|times| - 1])
    decreases |times|
  {
    var last := t.lastKnownNow.value;
    hide TickState, RunsFrom, Crossed, Ticks, CountTrue;
    var t' := TickState(t, times[0]).0;
    DenseTick(t, i, start, times[0]);
    CountFirst(t, times);
    if |times| > 1 {
      DenseRunIsExact(t', i, start, times[1..]);
      CrossedAdds(start, i, last, times[0], times[|times| - 1]);
    } else {
      assert times[1..] == [];
      NoTicks(t');
    }
  }

  lemma CountFirst(t: State, times: seq<int>)
    requires times != []
    ensures var (t', ticked) := TickState(t, times[0]);
            CountTrue(Ticks(t, times)) == (if ticked then 1 else 0) + CountTrue(Ticks(t', times[1..]))
  {
    hide TickState;
  }

  lemma DenseTick(t: State, i: Interval, start: int, now: int)
    requires RunsFrom(t, i, start) && t.lastKnownNow.value <= now <= t.lastKnownNow.value + i
    ensures var (t', ticked) := TickState(t, now);
            RunsFrom(t', i, start) && t'.lastKnownNow == Some(now) &&
            Crossed(start, i, t.lastKnownNow.value, now) == if ticked then 1 else 0
  {
    hide TickState;
    var last := t.lastKnownNow.value;
    TickIsExact(t, i, start, now);
    Monotone(last - start, now - start, i);
    NextMultiple(last - start, now - last, i);
  }

  lemma NextMultiple(x: nat, d: nat, i: Interval)
    requires d <= i
    ensures (x + d) / i <= x / i + 1
  {
    QuotientBounds(x, i);
    Distribute(i, x / i, 2);
    QuotientBelow(x + d, i, x / i + 2);
  }

  // ---- Bursts ----

  predicate WithinSpan(times: seq<int>, span: nat) {
    Sorted(times) && (times != [] ==> times[|times| - 1] - times[0] <= span)
  }

  predicate Running(t: State, i: Interval, times: seq<int>) {
    t.lastKnownNow.Some? && t.interval == Some(i) && 0 <= t.sinceLastTick < i &&
    (times != [] ==> t.lastKnownNow.value <= times[0])
  }

  // The most true ticks a closed span of time can hold.
  function MaxBurst(i: Interval, span: nat): nat {
    QuotientNonNegative(span + i - 1, i);
    1 + (span + i - 1) / i
  }

  lemma BurstIsBounded(t: State, i: Interval, times: seq<int>, span: nat)
    requires Running(t, i, times) && WithinSpan(times, span)
    ensures CountTrue(Ticks(t, times)) <= MaxBurst(i, span)
  {
    hide MaxBurst;
    BurstBound(i, span);
    if times != [] {
      var start := t.lastKnownNow.value - t.sinceLastTick;
      DivUnique(t.sinceLastTick, i, 0, t.sinceLastTick);
      TickIsExact(t, i, start, times[0]);
      AfterFirst(TickState(t, times[0]).0, i, start, times, span);
    }
  }

  lemma BurstBound(i: Interval, span: nat)
    ensures MaxBurst(i, span) == 1 + (span + i - 1) / i >= 1
  {
  }

  lemma AfterFirst(t: State, i: Interval, start: int, times: seq<int>, span: nat)
    requires times != [] && WithinSpan(times, span)
    requires RunsFrom(t, i, start) && t.lastKnownNow == Some(times[0])
    ensures CountTrue(Ticks(t, times[1..])) <= (span + i - 1) / i
  {
    hide TickState, Ticks, CountTrue;
    var rest, x := times[1..], times[0] - start;
    QuotientNonNegative(span + i - 1, i);
    if rest != [] {
      assert times[0] <= times[1] == rest[0];
      RunIsExact(t, i, start, rest);
      Monotone(rest[|rest| - 1] - start, x + span, i);
      QuotientGap(x, span, i);
    } else {
      NoTicks(t);
    }
  }

  lemma NoTicks(t: State)
    ensures CountTrue(Ticks(t, [])) == 0
  {
  }

  lemma QuotientGap(x: nat, d: nat, i: Interval)
    ensures (x + d) / i - x / i <= (d + i - 1) / i
  {
    var q, q' := x / i, (d + i - 1) / i;
    QuotientBounds(x, i);
    QuotientBounds(d + i - 1, i);
    Distribute(i, q, q' + 1);
    Distribute(i, q', 1);
    QuotientBelow(x + d, i, q + q' + 1);
  }

  lemma QuotientBounds(v: nat, i: Interval)
    ensures v / i >= 0 && i * (v / i) <= v < i * (v / i) + i
  {
    QuotientNonNegative(v, i);
  }

  lemma QuotientBelow(v: nat, i: Interval, k: nat)
    requires v < i * k
    ensures v / i < k
  {
    QuotientBounds(v, i);
    if v / i > k { MulGap(i, k, v / i); }
  }

  // The bound is met: sample just before a tick is due, then exactly whenever one is due.
  function Burst(i: Interval, span: nat): seq<int> {
    [2 * i - 1] + Multiples(i, 2, MaxBurst(i, span) - 1)
  }

  function Multiples(i: Interval, from: nat, n: nat): (s: seq<int>)
    ensures |s| == n && forall k :: 0 <= k < n ==> s[k] == (from + k) * i
  {
    seq(n, k requires 0 <= k < n => (from + k) * i)
  }

  lemma {:induction false} MultiplesAllTick(t: State, i: Interval, from: nat, n: nat)
    requires RunsFrom(t, i, 0) && t.lastKnownNow.value < from * i
    requires t.lastKnownNow.value / i < from
    ensures CountTrue(Ticks(t, Multiples(i, from, n))) == n
    decreases n
  {
    if n > 0 {
      var times := Multiples(i, from, n);
      assert times[0] == from * i;
      DivUnique(from * i, i, from, 0);
      TickIsExact(t, i, 0, from * i);
      assert (from + 1) * i == from * i + i;
      assert times[1..] == Multiples(i, from + 1, n - 1);
      MultiplesAllTick(TickState(t, from * i).0, i, from + 1, n - 1);
    }
  }

  lemma MultiplesSorted(i: Interval, from: nat, n: nat)
    ensures Sorted(Multiples(i, from, n))
  {
    forall a, b | 0 <= a < b < n ensures Multiples(i, from, n)[a] <= Multiples(i, from, n)[b] {
      MulGap(i, from + a, from + b);
    }
  }

  lemma BurstIsAttained(i: Interval, span: nat)
    ensures var t := State(Some(0), Some(i), 0);
            Running(t, i, Burst(i, span)) && WithinSpan(Burst(i, span), span) &&
            CountTrue(Ticks(t, Burst(i, span))) == MaxBurst(i, span)
  {
    var t := State(Some(0), Some(i), 0);
    var n := MaxBurst(i, span) - 1;
    DivUnique(0, i, 0, 0);
    DivUnique(2 * i - 1, i, 1, i - 1);
    TickIsExact(t, i, 0, 2 * i - 1);
    MultiplesAllTick(TickState(t, 2 * i - 1).0, i, 2, n);
    assert Burst(i, span)[1..] == Multiples(i, 2, n);
    BurstFits(i, span);
  }

  lemma BurstFits(i: Interval, span: nat)
    ensures WithinSpan(Burst(i, span), span)
  {
    hide MaxBurst;
    var n := MaxBurst(i, span) - 1;
    BurstBound(i, span);
    QuotientBounds(span + i - 1, i);
    BurstSorted(i, span);
    LastMultiple(i, n);
  }

  lemma BurstSorted(i: Interval, span: nat)
    ensures Sorted(Burst(i, span))
  {
    hide MaxBurst;
    var times, rest := Burst(i, span), Multiples(i, 2, MaxBurst(i, span) - 1);
    MultiplesSorted(i, 2, |rest|);
    forall a, b | 0 <= a < b < |times| ensures times[a] <= times[b] {
      assert times[b] == rest[b - 1] >= rest[0] == 2 * i;
      if a > 0 { assert times[a] == rest[a - 1]; }
    }
  }

  lemma LastMultiple(i: Interval, n: nat)
    ensures n > 0 ==> Multiples(i, 2, n)[n - 1] == i * n + i
  {
    Distribute(i, n, 1);
  }

  // ---- The send rate ----

  lemma RateIsPace(rate: u8)
    ensures PacedAt(RateInterval(rate), rate)
  {
    if rate > 0 {
      QuotientBounds(SECOND, rate);
      Distribute(rate, SECOND / rate, 1);
    }
  }

  // Asked often enough, a ticker paced at r lets at least r packets through in any second.
  lemma RateIsReached(r: u8, t: State, times: seq<int>)
    requires r > 0 && t.interval.Some? && PacedAt(t.interval, r)
    requires Running(t, t.interval.value, times) && times != []
    requires Dense(t.lastKnownNow.value, t.interval.value, times)
    requires times[|times| - 1] - t.lastKnownNow.value >= SECOND
    ensures CountTrue(Ticks(t, times)) >= r
  {
    hide Ticks, CountTrue, Dense;
    var i := t.interval.value;
    var start := t.lastKnownNow.value - t.sinceLastTick;
    DivUnique(t.sinceLastTick, i, 0, t.sinceLastTick);
    DenseRunIsExact(t, i, start, times);
    var x := times[|times| - 1] - start;
    QuotientBounds(x, i);
    if x / i < r { MulGap(i, x / i, r); }
  }

  ghost predicate NeverMoreThan(i: Interval, span: nat, bound: nat) {
    forall t: State, times: seq<int> ::
      Running(t, i, times) && WithinSpan(times, span) ==> CountTrue(Ticks(t, times)) <= bound
  }

  // At a rate of r packets a second no second holds more than r + 1 true ticks if and only if r divides
  // 10^9 nanoseconds: otherwise the interval is rounded down and r + 2 is possible, though never more.
  lemma RateIsLimited(r: u8)
    requires r > 0
    ensures var i := RateInterval(r).value;
            (NeverMoreThan(i, SECOND, r + 1) <==> SECOND % r == 0) && NeverMoreThan(i, SECOND, r + 2)
  {
    hide MaxBurst;
    var i := RateInterval(r).value;
    BurstOfRate(r);
    BoundIsExact(i, SECOND, r + 1);
    BoundIsExact(i, SECOND, r + 2);
  }

  // A bound is kept if and only if it is at least the longest burst.
  lemma BoundIsExact(i: Interval, span: nat, bound: nat)
    ensures NeverMoreThan(i, span, bound) <==> MaxBurst(i, span) <= bound
  {
    hide MaxBurst, Running, WithinSpan, Ticks, CountTrue, Burst;
    forall t: State, times: seq<int> | Running(t, i, times) && WithinSpan(times, span)
      ensures CountTrue(Ticks(t, times)) <= MaxBurst(i, span)
    {
      BurstIsBounded(t, i, times, span);
    }
    BurstIsAttained(i, span);
  }

  lemma BurstOfRate(r: u8)
    requires r > 0
    ensures MaxBurst(RateInterval(r).value, SECOND) == if SECOND % r == 0 then r + 1 else r + 2
  {
    var i := RateInterval(r).value;
    var rem := SECOND % r;
    assert SECOND == r * i + rem;
    assert i > 255;
    if rem == 0 {
      DivUnique(SECOND + i - 1, i, r, i - 1);
    } else {
      Distribute(i, r, 1);
      DivUnique(SECOND + i - 1, i, r + 1, rem - 1);
    }
  }
}
