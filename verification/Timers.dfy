/** The two clocks of the engine: when ikcp_update flushes (and what ikcp_check predicts), and
    when a closed window is probed. */
module Timers {
  import opened Numbers
  import opened SendWindow

  const CLOCK_RESET: int := 10000
  const PROBE_INIT: nat := 7000
  const PROBE_LIMIT: nat := 120000

  // ---- ikcp_update and ikcp_check ----

  datatype Clock = Clock(current: nat, tsFlush: nat, updated: bool)

  datatype Tick = Tick(clk: Clock, flush: bool)

  function Advance(interval: nat, c: Clock, now: nat): Tick {
    var ts0 := if c.updated then c.tsFlush else now;
    var slap0 := TimeDiff(now, ts0);
    var reset := slap0 >= CLOCK_RESET || slap0 < -CLOCK_RESET;
    var ts := if reset then now else ts0;
    if reset || slap0 >= 0 then
      var next := U32(ts + interval);
      Tick(Clock(now, if TimeDiff(now, next) >= 0 then U32(now + interval) else next, true), true)
    else Tick(Clock(now, ts, true), false)
  }

  /** The least time until a segment of snd_buf is due, at most 0x7fffffff. */
  function NearestResend(buf: seq<OutSeg>, now: nat): int {
    if |buf| == 0 then TWO31 - 1
    else Min(NearestResend(buf[..|buf| - 1], now), TimeDiff(buf[|buf| - 1].resendts, now))
  }

  function Check(interval: nat, c: Clock, buf: seq<OutSeg>, now: nat): nat {
    if !c.updated then now
    else
      var slap := TimeDiff(now, c.tsFlush);
      if slap >= 0 || slap < -CLOCK_RESET then now
      else
        var packet := NearestResend(buf, now);
        if packet <= 0 then now
        else U32(now + Min(Min(packet, TimeDiff(c.tsFlush, now)), interval))
  }

  /** TimeDiff between points less than 2^31 apart. */
  lemma Apart(a: nat, b: nat)
    requires -TWO31 <= a - b < TWO31
    ensures TimeDiff(U32(a), U32(b)) == a - b
  {
    TimeDiffExact(a, b);
  }

  lemma {:induction false} NearestIsLeast(buf: seq<OutSeg>, now: nat)
    ensures forall i :: 0 <= i < |buf| ==> NearestResend(buf, now) <= TimeDiff(buf[i].resendts, now)
  {
    if |buf| > 0 {
      NearestIsLeast(buf[..|buf| - 1], now);
    }
  }

  /** A point within the predicted delay sees every later event that much nearer. */
  lemma Later(a: nat, now: nat, d: nat)
    requires d < TimeDiff(a, now)
    ensures TimeDiff(a, U32(now + d)) == TimeDiff(a, now) - d
    ensures TimeDiff(U32(now + d), a) == d - TimeDiff(a, now)
  {
    var x := TimeDiff(a, now);
    var k, q := (a - now) / TWO32, (now + d) / TWO32;
    assert a - now == x + k * TWO32;
    var t := U32(now + d);
    assert a - t == (x - d) + (k + q) * TWO32;
    DiffIs(a, t, x - d, k + q);
    assert t - a == (d - x) + (-k - q) * TWO32;
    DiffIs(t, a, d - x, -k - q);
  }

  lemma Opposite(a: nat, b: nat)
    requires -TWO31 < TimeDiff(b, a) < 0
    ensures TimeDiff(a, b) == -TimeDiff(b, a)
  {
    var x := -TimeDiff(b, a);
    var k := (b - a) / TWO32;
    assert a - b == x + (-k - 1) * TWO32;
    DiffIs(a, b, x, -k - 1);
  }

  /** Between a call of ikcp_check and the time it returns, neither would ikcp_update flush nor
      is any unacknowledged segment due: updates in that span may be skipped. */
  lemma CheckSkipsNothing(interval: nat, c: Clock, buf: seq<OutSeg>, now: nat, d: nat)
    requires now < TWO32 && c.tsFlush < TWO32 && interval < TWO31
    requires d < U32(Check(interval, c, buf, now) - now)
    ensures !Advance(interval, c, U32(now + d)).flush
    ensures forall i :: 0 <= i < |buf| ==> TimeDiff(U32(now + d), buf[i].resendts) < 0
  {
    hide TimeDiff, U32;
    var packet := NearestResend(buf, now);
    Small(0);
    Small(now);
    assert Check(interval, c, buf, now) != now;
    Opposite(c.tsFlush, now);
    var delay := Min(Min(packet, TimeDiff(c.tsFlush, now)), interval);
    assert 0 < delay < TWO31;
    U32Shift(now + delay, -(now as int));
    Small(delay);
    assert now + delay + -(now as int) == delay;
    Later(c.tsFlush, now, d);
    NearestIsLeast(buf, now);
    forall i | 0 <= i < |buf| ensures TimeDiff(U32(now + d), buf[i].resendts) < 0 {
      Later(buf[i].resendts, now, d);
    }
  }

  /** The prediction is the latest possible: at the time ikcp_check returns, ikcp_update flushes, or
      a segment's time has come, or a whole interval has passed. */
  lemma CheckIsTight(interval: nat, c: Clock, buf: seq<OutSeg>, now: nat)
    requires now < TWO32 && interval < TWO31 - 1
    ensures var t := Check(interval, c, buf, now);
      || Advance(interval, c, t).flush
      || (exists i :: 0 <= i < |buf| && TimeDiff(buf[i].resendts, t) <= 0)
      || t == U32(now + interval)
  {
    hide TimeDiff, U32, NearestResend;
    Apart(now, now);
    Small(now);
    var packet, flush := NearestResend(buf, now), TimeDiff(c.tsFlush, now);
    if c.updated && -CLOCK_RESET <= TimeDiff(now, c.tsFlush) < 0 {
      Opposite(c.tsFlush, now);
      if packet <= 0 || (packet < flush && packet < interval) {
        var i := NearestAt(buf, now);
        Reached(buf[i].resendts, now);
      } else if flush < interval {
        Reached(c.tsFlush, now);
      }
    }
  }

  lemma {:induction false} NearestAt(buf: seq<OutSeg>, now: nat) returns (i: nat)
    requires NearestResend(buf, now) < TWO31 - 1
    ensures i < |buf| && TimeDiff(buf[i].resendts, now) == NearestResend(buf, now)
  {
    hide TimeDiff;
    i := |buf| - 1;
    if NearestResend(buf[..i], now) < TimeDiff(buf[i].resendts, now) {
      i := NearestAt(buf[..i], now);
    }
  }

  lemma Reached(a: nat, now: nat)
    ensures var d := TimeDiff(a, now); d >= 0 ==> TimeDiff(a, U32(now + d)) == 0 == TimeDiff(U32(now + d), a)
  {
    var d := TimeDiff(a, now);
    if d >= 0 {
      var k, q := (a - now) / TWO32, (now + d) / TWO32;
      assert a - now == d + k * TWO32;
      var t := U32(now + d);
      assert a - t == (k + q) * TWO32;
      DiffIs(a, t, 0, k + q);
      assert t - a == (-k - q) * TWO32;
      DiffIs(t, a, 0, -k - q);
    }
  }

  // ---- whole runs of ikcp_update, on an unbounded clock ----

  function ClockAfter(interval: nat, times: seq<nat>): Clock {
    if |times| == 0 then Clock(0, 100, false)
    else Advance(interval, ClockAfter(interval, times[..|times| - 1]), U32(times[|times| - 1])).clk
  }

  predicate FlushedAt(interval: nat, times: seq<nat>, i: nat)
    requires i < |times|
  {
    Advance(interval, ClockAfter(interval, times[..i]), U32(times[i])).flush
  }

  function FlushCount(interval: nat, times: seq<nat>): nat {
    if |times| == 0 then 0
    else
      var n := |times| - 1;
      FlushCount(interval, times[..n]) + if FlushedAt(interval, times, n) then 1 else 0
  }

  /** The clock moves forward, by less than 2^31 ms between calls. */
  predicate Forward(times: seq<nat>) {
    forall i :: 0 < i < |times| ==> times[i - 1] <= times[i] < times[i - 1] + TWO31
  }

  function NextDue(interval: nat, due: nat, t: nat): nat {
    if t < due then due else if t >= due + interval then t + interval else due + interval
  }

  /** The ideal schedule: the next flush time without any wrap-around. */
  function NextFlush(interval: nat, times: seq<nat>): nat
    requires |times| > 0
  {
    var n := |times| - 1;
    if n == 0 then times[0] + interval else NextDue(interval, NextFlush(interval, times[..n]), times[n])
  }

  lemma AdvanceFirst(interval: nat, c: Clock, t: nat)
    requires 0 < interval <= 5000 && !c.updated
    ensures Advance(interval, c, U32(t)) == Tick(Clock(U32(t), U32(t + interval), true), true)
  {
    hide TimeDiff, U32;
    Apart(t, t);
    U32Shift(t, interval);
    Apart(t, t + interval);
  }

  lemma AdvanceFollows(interval: nat, prev: nat, due: nat, t: nat)
    requires 0 < interval <= 5000
    requires prev < due <= prev + interval && prev <= t < prev + TWO31
    ensures Advance(interval, Clock(U32(prev), U32(due), true), U32(t))
      == Tick(Clock(U32(t), U32(NextDue(interval, due, t)), true), t >= due)
  {
    hide TimeDiff, U32;
    Apart(t, due);
    U32Shift(due, interval);
    U32Shift(t, interval);
    Apart(t, due + interval);
    Apart(t, t + interval);
  }

  /** After every update the next flush lies strictly in the future and at most one interval
      away, and an update flushes exactly when that time has come. */
  lemma {:induction false} ScheduleFollows(interval: nat, times: seq<nat>)
    requires 0 < interval <= 5000 && Forward(times) && |times| > 0
    ensures var n := |times| - 1; var due := NextFlush(interval, times);
      && ClockAfter(interval, times) == Clock(U32(times[n]), U32(due), true)
      && times[n] < due <= times[n] + interval
      && (FlushedAt(interval, times, n) <==> n == 0 || times[n] >= NextFlush(interval, times[..n]))
  {
    hide TimeDiff, U32;
    var n := |times| - 1;
    var front := times[..n];
    if n == 0 {
      AdvanceFirst(interval, ClockAfter(interval, front), times[0]);
    } else {
      ScheduleFollows(interval, front);
      AdvanceFollows(interval, front[n - 1], NextFlush(interval, front), times[n]);
    }
  }

  /** When the clock jumps back, on the true clock: by up to 10 s before the next flush it waits for
      it, by more it flushes at once and starts over from there. */
  lemma ClockJumpsBack(interval: nat, prev: nat, due: nat, t: nat)
    requires 0 < interval <= 5000 && t < due && due - t < TWO31
    ensures var r := Advance(interval, Clock(U32(prev), U32(due), true), U32(t));
      if due - t <= 10000 then r == Tick(Clock(U32(t), U32(due), true), false)
      else r == Tick(Clock(U32(t), U32(t + interval), true), true)
  {
    hide TimeDiff, U32;
    Apart(t, due);
    U32Shift(t, interval);
    Apart(t, t + interval);
  }

  lemma NextDueAdvances(interval: nat, due: nat, t: nat, first: nat, count: nat)
    requires due >= first + count * interval
    ensures t >= due ==> NextDue(interval, due, t) >= first + (count + 1) * interval
    ensures NextDue(interval, due, t) >= first + count * interval
  {
    assert (count + 1) * interval == count * interval + interval;
  }

  /** Flushes are rate limited over the whole run: no flush comes before the first one plus one
      interval for each flush so far. */
  lemma {:induction false} FlushesSpaced(interval: nat, times: seq<nat>)
    requires 0 < interval <= 5000 && Forward(times) && |times| > 0
    ensures NextFlush(interval, times) >= times[0] + FlushCount(interval, times) * interval
    ensures var n := |times| - 1;
      FlushedAt(interval, times, n) ==> times[n] >= times[0] + FlushCount(interval, times[..n]) * interval
  {
    hide TimeDiff, U32;
    var n := |times| - 1;
    var front := times[..n];
    ScheduleFollows(interval, times);
    var flushed := FlushedAt(interval, times, n);
    assert FlushCount(interval, times) == FlushCount(interval, front) + if flushed then 1 else 0;
    if n == 0 {
      assert FlushCount(interval, times) == 1;
    } else {
      FlushesSpaced(interval, front);
      NextDueAdvances(interval, NextFlush(interval, front), times[n], times[0], FlushCount(interval, front));
    }
  }

  // ---- probing a closed window ----

  datatype Probe = Probe(ask: bool, tell: bool, ts: nat, wait: nat)

  function ProbeStep(p: Probe, rmtWnd: nat, now: nat): Probe {
    if rmtWnd != 0 then p.(ts := 0, wait := 0)
    else if p.wait == 0 then p.(wait := PROBE_INIT, ts := U32(now + PROBE_INIT))
    else if TimeDiff(now, p.ts) >= 0 then
      var base := if p.wait < PROBE_INIT then PROBE_INIT else p.wait;
      var wait := Min(U32(base + base / 2), PROBE_LIMIT);
      p.(wait := wait, ts := U32(now + wait), ask := true)
    else p
  }

  /** One flush: its time and the peer's window as then known. */
  datatype FlushEvent = FlushEvent(time: nat, rmtWnd: nat)

  /** The state a flush leaves, before it clears the request flags. */
  function ProbeAfter(events: seq<FlushEvent>): Probe {
    if |events| == 0 then Probe(false, false, 0, 0)
    else
      var e := events[|events| - 1];
      ProbeStep(ProbeAfter(events[..|events| - 1]).(ask := false, tell := false), e.rmtWnd, U32(e.time))
  }

  /** Flush i emits a WASK. */
  predicate Asks(events: seq<FlushEvent>, i: nat)
    requires i < |events|
  {
    ProbeAfter(events[..i + 1]).ask
  }

  predicate ForwardEvents(events: seq<FlushEvent>) {
    forall i :: 0 < i < |events| ==> events[i - 1].time <= events[i].time < events[i - 1].time + TWO31
  }

  /** The k-th waiting time: 7000, 10500, 15750, ..., half as long again up to two minutes. */
  function ProbeWait(k: nat): nat {
    if k == 0 then 7000 else var w := ProbeWait(k - 1); if w + w / 2 > 120000 then 120000 else w + w / 2
  }

  /** Probing as it should be, on the true clock: open, or closed with the wait number k running
      since start; asked says that the latest flush asked. */
  datatype ProbePlan = WindowOpen | WindowClosed(start: nat, k: nat, asked: bool)

  function PlanAfter(events: seq<FlushEvent>): ProbePlan {
    if |events| == 0 then WindowOpen
    else
      var s, e := PlanAfter(events[..|events| - 1]), events[|events| - 1];
      if e.rmtWnd != 0 then WindowOpen
      else if s.WindowOpen? then WindowClosed(e.time, 0, false)
      else if e.time >= s.start + ProbeWait(s.k) then WindowClosed(e.time, s.k + 1, true)
      else WindowClosed(s.start, s.k, false)
  }

  lemma {:induction false} ProbeWaitRange(k: nat)
    ensures 7000 <= ProbeWait(k) <= 120000
  {
    if k > 0 {
      ProbeWaitRange(k - 1);
    }
  }

  /** The state stands for probing as it should be. */
  predicate ProbesAs(p: Probe, s: ProbePlan) {
    match s
    case WindowOpen => p.wait == 0 && !p.ask
    case WindowClosed(start, k, asked) => p.wait == ProbeWait(k) && p.ts == U32(start + ProbeWait(k)) && p.ask == asked
  }

  lemma ProbeStepExact(p: Probe, s: ProbePlan, prev: nat, e: FlushEvent)
    requires ProbesAs(p, s) && (s.WindowClosed? ==> s.start <= prev < s.start + ProbeWait(s.k) && prev <= e.time < prev + TWO31)
    ensures var q := p.(ask := false, tell := false);
      var s' := if e.rmtWnd != 0 then WindowOpen
        else if s.WindowOpen? then WindowClosed(e.time, 0, false)
        else if e.time >= s.start + ProbeWait(s.k) then WindowClosed(e.time, s.k + 1, true)
        else WindowClosed(s.start, s.k, false);
      && ProbesAs(ProbeStep(q, e.rmtWnd, U32(e.time)), s')
      && (s'.WindowClosed? ==> s'.start <= e.time < s'.start + ProbeWait(s'.k))
  {
    hide TimeDiff, U32;
    if s.WindowClosed? {
      ProbeWaitRange(s.k);
      ProbeWaitRange(s.k + 1);
      Apart(e.time, s.start + ProbeWait(s.k));
      Small(ProbeWait(s.k) + ProbeWait(s.k) / 2);
      U32Shift(e.time, ProbeWait(s.k + 1));
    }
    U32Shift(e.time, 7000);
  }

  /** Over any run of flushes: a WASK is due exactly when the window has been closed for the
      running wait, which starts at 7000 ms and grows by half with each WASK up to 120000 ms, and
      starts over when the window opens; the flush that finds it due asks. */
  lemma {:induction false} ProbesExactly(events: seq<FlushEvent>)
    requires ForwardEvents(events)
    ensures var s := PlanAfter(events);
      && ProbesAs(ProbeAfter(events), s)
      && (s.WindowClosed? ==> |events| > 0 && s.start <= events[|events| - 1].time < s.start + ProbeWait(s.k))
  {
    hide TimeDiff, U32, ProbesAs, ProbeStep, ProbeWait;
    if |events| > 0 {
      var n := |events| - 1;
      var front := events[..n];
      ProbesExactly(front);
      ProbeStepExact(ProbeAfter(front), PlanAfter(front), if n > 0 then events[n - 1].time else 0, events[n]);
    } else {
      NoProbes();
    }
  }

  lemma NoProbes()
    ensures ProbesAs(ProbeAfter([]), WindowOpen)
  {
  }

  /** probe_wait is 0 or between 7 s and 120 s, and the deadline it announces lies ahead. */
  lemma ProbeFollows(events: seq<FlushEvent>)
    requires ForwardEvents(events)
    ensures var p, s := ProbeAfter(events), PlanAfter(events);
      && (p.wait == 0 || 7000 <= p.wait <= 120000)
      && (p.ask ==> p.wait > 0)
      && (p.wait > 0 ==>
            && |events| > 0 && s.WindowClosed?
            && p.ts == U32(s.start + p.wait)
            && events[|events| - 1].time < s.start + p.wait <= events[|events| - 1].time + 120000)
  {
    hide U32, ProbeAfter, PlanAfter;
    ProbesExactly(events);
    var s := PlanAfter(events);
    if s.WindowClosed? {
      ProbeWaitRange(s.k);
    }
  }

  /** From a WASK at flush i on, the running wait started no earlier. */
  lemma {:induction false} StartsAfterAsk(events: seq<FlushEvent>, i: nat)
    requires ForwardEvents(events) && i < |events| && Asks(events, i) && PlanAfter(events).WindowClosed?
    ensures PlanAfter(events).start >= events[i].time
  {
    hide TimeDiff, U32, ProbeStep, ProbeWait;
    var n := |events| - 1;
    var front := events[..n];
    assert events[..|events|] == events;
    ProbesExactly(events);
    if i < n {
      TimesGrow(events, i);
      assert front[..i + 1] == events[..i + 1];
      if PlanAfter(front).WindowClosed? {
        StartsAfterAsk(front, i);
      }
    }
  }

  lemma {:induction false} TimesGrow(events: seq<FlushEvent>, i: nat)
    requires ForwardEvents(events) && i < |events|
    ensures events[i].time <= events[|events| - 1].time
    decreases |events|
  {
    if i < |events| - 1 {
      TimesGrow(events[..|events| - 1], i);
    }
  }

  /** Consecutive WASKs are at least 7000 ms apart, over any run of flushes and whatever
      windows the peer announces in between. */
  lemma WasksSpaced(events: seq<FlushEvent>, i: nat, j: nat)
    requires ForwardEvents(events) && i < j < |events| && Asks(events, i) && Asks(events, j)
    ensures events[j].time >= events[i].time + PROBE_INIT
  {
    hide TimeDiff, U32;
    var upto, front := events[..j + 1], events[..j];
    assert upto[..j] == front && front[..i + 1] == events[..i + 1];
    ProbesExactly(upto);
    ProbesExactly(front);
    ProbeWaitRange(PlanAfter(front).k);
    StartsAfterAsk(front, i);
    assert upto[j] == events[j] && front[i] == events[i];
  }
}
