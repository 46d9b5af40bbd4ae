/** When an unacknowledged segment is sent again: the timeouts of one segment over its life, in
    each of the three nodelay modes. */
module Retransmission {
  import opened Numbers
  import opened SendWindow
  import opened Transmission
  import opened Timers
  import opened Wire
  import opened Kcp

  /** A later number was acknowledged, or ikcp_flush ran at a time with some estimate rx_rto. */
  datatype SegEvent = Bump | FlushAt(time: nat, rto: nat)

  /** The segment, the times of its latest transmission and of the latest flush without
      wrap-around, and how often it timed out. */
  datatype Life = Life(g: OutSeg, last: nat, seen: nat, timeouts: nat)

  function SendingAt(mode: Sending, e: SegEvent): Sending
    requires e.FlushAt?
  {
    mode.(rto := e.rto, now := U32(e.time))
  }

  function LifeStep(mode: Sending, l: Life, e: SegEvent): Life {
    if e.Bump? then l.(g := l.g.(fastack := U32(l.g.fastack + 1)))
    else
      var c := Choose(SendingAt(mode, e), l.g);
      Life(Resend(SendingAt(mode, e), l.g), if c.Keep? then l.last else e.time, e.time,
           l.timeouts + if c.Timeout? then 1 else 0)
  }

  /** From the moment a flush at time start numbered the segment. */
  function LifeAfter(mode: Sending, g: OutSeg, start: nat, events: seq<SegEvent>): Life {
    if |events| == 0 then Life(g, start, start, 0)
    else LifeStep(mode, LifeAfter(mode, g, start, events[..|events| - 1]), events[|events| - 1])
  }

  /** A flush comes after the one before it, by less than the reach of the clock, with an
      estimate between lo and hi. */
  predicate Follows(l: Life, e: SegEvent, lo: nat, hi: nat) {
    e.FlushAt? ==> l.seen <= e.time < l.seen + TWO31 && lo <= e.rto <= hi
  }

  predicate InOrder(mode: Sending, g: OutSeg, start: nat, events: seq<SegEvent>, lo: nat, hi: nat) {
    |events| > 0 ==>
      var front := events[..|events| - 1];
      InOrder(mode, g, start, front, lo, hi) && Follows(LifeAfter(mode, g, start, front), events[|events| - 1], lo, hi)
  }

  /** The timeout after n earlier ones, when the estimate always was rto: doubled each time in mode
      0, half as long again in mode 1, and longer by half the estimate in the others. */
  function Patience(nodelay: nat, rto: nat, n: nat): nat {
    if n == 0 then rto
    else
      var p := Patience(nodelay, rto, n - 1);
      if nodelay == 0 then 2 * p else if nodelay == 1 then p + p / 2 else p + rto / 2
  }

  /** How long a segment rests after its xmit-th transmission: in mode 0 an eighth longer after the
      first. */
  function Rest(nodelay: nat, xmit: nat, rto: nat): nat {
    if nodelay == 0 && xmit == 1 then rto + rto / 8 else rto
  }

  predicate Waits(nodelay: nat, l: Life, lo: nat, hi: nat) {
    && l.last <= l.seen
    && (l.g.xmit == 0 ==> l.timeouts == 0)
    && (l.g.xmit > 0 ==>
          && Patience(nodelay, lo, l.timeouts) <= l.g.rto <= Patience(nodelay, hi, l.timeouts)
          && l.g.resendts == U32(l.last + Rest(nodelay, l.g.xmit, l.g.rto))
          && l.seen <= l.last + Rest(nodelay, l.g.xmit, l.g.rto))
  }

  /** The three modes double a timeout at least, lengthen it by half, or add half the estimate. */
  lemma BackoffGrows(s: Sending, rto: nat)
    requires rto < TWO31 / 2 && s.rto < TWO31 / 2
    ensures s.nodelay == 0 ==> BackedOff(s, rto) == if rto >= s.rto then 2 * rto else rto + s.rto
    ensures s.nodelay == 1 ==> BackedOff(s, rto) == rto + rto / 2
    ensures s.nodelay >= 2 ==> BackedOff(s, rto) == rto + s.rto / 2
  {
    hide U32, S32;
    Small(rto);
    Small(rto + Max(rto, s.rto));
    SmallSigned(rto);
    Small(rto + rto / 2);
    Small(rto + s.rto / 2);
  }

  lemma SmallSigned(x: nat)
    requires x < TWO31
    ensures S32(x) == x
  {
  }

  /** The test of line 1058 on true times, with d ms of rest. */
  lemma DueExactly(l: Life, d: nat, now: nat)
    requires l.g.resendts == U32(l.last + d) && d < TWO31
    requires l.last <= l.seen <= now < l.seen + TWO31 && l.seen <= l.last + d
    ensures TimeDiff(U32(now), l.g.resendts) >= 0 <==> now >= l.last + d
  {
    Apart(now, l.last + d);
  }

  /** A transmission at time now sets the next deadline. */
  lemma SentDeadline(s: Sending, g: OutSeg, now: nat)
    requires s.now == U32(now) && !Choose(s, g).Keep? && g.xmit < TWO31
    ensures var g' := Resend(s, g); g'.resendts == U32(now + Rest(s.nodelay, g'.xmit, g'.rto))
  {
    hide TimeDiff, S32, BackedOff, U32;
    var g' := Resend(s, g);
    Small(g.xmit + 1);
    U32Shift(now, Rest(s.nodelay, g'.xmit, g'.rto));
  }

  /** What a transmission does to the timeout and the count. */
  lemma SentTimeout(s: Sending, g: OutSeg)
    requires g.rto < TWO31 / 2 && s.rto < TWO31 / 2 && g.xmit < TWO31
    ensures var c, g' := Choose(s, g), Resend(s, g);
      && (c.First? <==> g.xmit == 0)
      && (c.Keep? ==> g' == g)
      && g'.xmit == g.xmit + (if c.Keep? then 0 else 1)
      && (c.First? ==> g'.rto == s.rto)
      && (c.Fast? ==> g'.rto == g.rto)
      && (c.Timeout? ==> g'.rto == BackedOff(s, g.rto))
  {
    hide TimeDiff, S32, BackedOff;
  }

  /** One more timeout, between the bounds. */
  lemma TimeoutStep(s: Sending, rto: nat, n: nat, lo: nat, hi: nat)
    requires lo <= s.rto <= hi < TWO31 / 4 && Patience(s.nodelay, hi, n) < TWO31 / 2
    requires Patience(s.nodelay, lo, n) <= rto <= Patience(s.nodelay, hi, n)
    ensures Patience(s.nodelay, lo, n + 1) <= BackedOff(s, rto) <= Patience(s.nodelay, hi, n + 1)
  {
    hide BackedOff;
    BackoffGrows(s, rto);
    PatienceGrows(s.nodelay, hi, 0, n);
  }

  lemma StepWaits(mode: Sending, l: Life, e: SegEvent, lo: nat, hi: nat)
    requires Waits(mode.nodelay, l, lo, hi) && Follows(l, e, lo, hi)
    requires lo <= hi < TWO31 / 4 && Patience(mode.nodelay, hi, l.timeouts) < TWO31 / 2 && l.g.xmit < TWO31
    requires l.g.xmit == 0 ==> l.g.rto < TWO31 / 2
    ensures Waits(mode.nodelay, LifeStep(mode, l, e), lo, hi)
    ensures l.g.xmit <= LifeStep(mode, l, e).g.xmit <= l.g.xmit + 1
    ensures LifeStep(mode, l, e).g.xmit == 0 ==> LifeStep(mode, l, e).g.rto == l.g.rto
  {
    hide Choose, Resend, U32, TimeDiff, BackedOff;
    if e.FlushAt? {
      var s := SendingAt(mode, e);
      SentTimeout(s, l.g);
      if Choose(s, l.g).Keep? {
        DueExactly(l, Rest(mode.nodelay, l.g.xmit, l.g.rto), e.time);
        NotDueKept(s, l.g);
      } else {
        SentDeadline(s, l.g, e.time);
        if Choose(s, l.g).Timeout? {
          TimeoutStep(s, l.g.rto, l.timeouts, lo, hi);
        }
      }
    }
  }

  lemma NotDueKept(s: Sending, g: OutSeg)
    requires Choose(s, g).Keep?
    ensures TimeDiff(s.now, g.resendts) < 0
  {
  }

  lemma {:induction false} LifeWaits(mode: Sending, g: OutSeg, start: nat, events: seq<SegEvent>, lo: nat, hi: nat)
    requires g.xmit == 0 && g.rto < TWO31 / 2 && lo <= hi < TWO31 / 4 && |events| < TWO31
    requires InOrder(mode, g, start, events, lo, hi)
    requires Patience(mode.nodelay, hi, LifeAfter(mode, g, start, events).timeouts) < TWO31 / 2
    ensures var l := LifeAfter(mode, g, start, events); Waits(mode.nodelay, l, lo, hi) && l.g.xmit <= |events| && (l.g.xmit == 0 ==> l.g.rto == g.rto)
  {
    hide LifeStep, LifeAfter, InOrder, Waits, Patience, Follows;
    if |events| > 0 {
      var front := events[..|events| - 1];
      var l := LifeAfter(mode, g, start, front);
      LifeNext(mode, g, start, events, lo, hi);
      TimeoutsGrow(mode, l, events[|events| - 1]);
      PatienceGrows(mode.nodelay, hi, l.timeouts, LifeAfter(mode, g, start, events).timeouts);
      LifeWaits(mode, g, start, front, lo, hi);
      StepWaits(mode, l, events[|events| - 1], lo, hi);
    } else {
      LifeStarts(mode, g, start, events);
      FreshWaits(mode.nodelay, g, start, lo, hi);
    }
  }

  lemma LifeStarts(mode: Sending, g: OutSeg, start: nat, events: seq<SegEvent>)
    requires |events| == 0
    ensures LifeAfter(mode, g, start, events) == Life(g, start, start, 0)
  {
  }

  lemma LifeNext(mode: Sending, g: OutSeg, start: nat, events: seq<SegEvent>, lo: nat, hi: nat)
    requires |events| > 0 && InOrder(mode, g, start, events, lo, hi)
    ensures var front, e := events[..|events| - 1], events[|events| - 1];
      && LifeAfter(mode, g, start, events) == LifeStep(mode, LifeAfter(mode, g, start, front), e)
      && InOrder(mode, g, start, front, lo, hi) && Follows(LifeAfter(mode, g, start, front), e, lo, hi)
  {
  }

  lemma FreshWaits(nodelay: nat, g: OutSeg, start: nat, lo: nat, hi: nat)
    requires g.xmit == 0
    ensures Waits(nodelay, Life(g, start, start, 0), lo, hi)
  {
  }

  lemma TimeoutsGrow(mode: Sending, l: Life, e: SegEvent)
    ensures l.timeouts <= LifeStep(mode, l, e).timeouts
  {
  }

  lemma {:induction false} PatienceGrows(nodelay: nat, rto: nat, n: nat, m: nat)
    requires n <= m
    ensures Patience(nodelay, rto, n) <= Patience(nodelay, rto, m)
  {
    if n < m {
      PatienceGrows(nodelay, rto, n, m - 1);
    }
  }

  /** Over the whole life of a segment, with estimates between lo and hi: after n timeouts it does
      not time out again before it rested as long as n timeouts at estimate lo ask for, whether it
      last went out first, by a timeout or by a fast resend; and a flush as long after that as
      estimate hi asks for sends it in any case. */
  lemma TimeoutsBackOff(mode: Sending, g: OutSeg, start: nat, events: seq<SegEvent>, e: SegEvent, lo: nat, hi: nat)
    requires g.xmit == 0 && g.rto < TWO31 / 2 && lo <= hi < TWO31 / 4 && |events| < TWO31
    requires InOrder(mode, g, start, events, lo, hi) && e.FlushAt?
    requires var l := LifeAfter(mode, g, start, events);
      Follows(l, e, lo, hi) && Patience(mode.nodelay, hi, l.timeouts) < TWO31 / 2 && l.g.xmit > 0
    ensures var l := LifeAfter(mode, g, start, events); var c := Choose(SendingAt(mode, e), l.g);
      && (c.Timeout? ==> e.time >= l.last + Rest(mode.nodelay, l.g.xmit, Patience(mode.nodelay, lo, l.timeouts)))
      && (e.time >= l.last + Rest(mode.nodelay, l.g.xmit, Patience(mode.nodelay, hi, l.timeouts)) ==> c.Timeout?)
  {
    LifeWaits(mode, g, start, events, lo, hi);
    hide LifeAfter, InOrder, Patience, TimeDiff, U32;
    var l := LifeAfter(mode, g, start, events);
    DueExactly(l, Rest(mode.nodelay, l.g.xmit, l.g.rto), e.time);
  }

  /** The parameters of a configuration, as a flush applies them. */
  predicate ModeOf(mode: Sending, c: Config) {
    && mode.nodelay == c.nodelay && mode.fastlimit == c.fastlimit
    && mode.resent == if c.fastresend > 0 then c.fastresend else 0xffffffff
  }

  /** ikcp_flush at a true time is one such event for every segment buffered or just numbered, and
      emits the segment exactly when the event is a transmission. */
  lemma FlushSteps(m: Numbering, cb: Cb, mode: Sending, l: Life, i: nat, time: nat)
    requires ModeOf(mode, cb.cfg) && cb.cfg.fastresend < TWO32 && cb.clk.current == U32(time)
    requires i < |Numbered(m, cb).buf| && l.g == Numbered(m, cb).buf[i]
    requires forall j :: 0 <= j < |Numbered(m, cb).buf| && j != i ==> Numbered(m, cb).buf[j].sn != l.g.sn
    ensures var e := FlushAt(time, cb.rtt.rto); var l' := LifeStep(mode, l, e);
      && FlushState(m, cb).snd.buf[i] == l'.g
      && (!Choose(SendingAt(mode, e), l.g).Keep? <==> exists p :: p in FlushPackets(m, cb) && p.cmd == CMD_PUSH && p.sn == l.g.sn)
  {
    hide U32, TimeDiff, Numbered, BackedOff;
    var s, buf := SendingOf(cb), Numbered(m, cb).buf;
    var e := FlushAt(time, cb.rtt.rto);
    SameMode(cb, mode, l.g, time);
    hide Choose, Resend, SendingOf;
    assert FlushState(m, cb).snd.buf[i] == Resend(s, buf[i]);
    if !Choose(s, l.g).Keep? {
      SweptMembers(s, buf, DataPacket(s, l.g));
      assert DataPacket(s, l.g) in FlushPackets(m, cb);
    }
    if p :| p in FlushPackets(m, cb) && p.cmd == CMD_PUSH && p.sn == l.g.sn {
      SweptMembers(s, buf, p);
    }
  }

  lemma SameMode(cb: Cb, mode: Sending, g: OutSeg, time: nat)
    requires ModeOf(mode, cb.cfg) && cb.cfg.fastresend < TWO32 && cb.clk.current == U32(time)
    ensures var s := SendingAt(mode, FlushAt(time, cb.rtt.rto));
      Choose(s, g) == Choose(SendingOf(cb), g) && Resend(s, g) == Resend(SendingOf(cb), g)
  {
    hide U32, TimeDiff, BackedOff;
    if cb.cfg.fastresend > 0 {
      Small(cb.cfg.fastresend);
    }
    SameBackoff(SendingAt(mode, FlushAt(time, cb.rtt.rto)), SendingOf(cb), g.rto);
  }

  lemma SameBackoff(s: Sending, t: Sending, rto: nat)
    requires s.nodelay == t.nodelay && s.rto == t.rto
    ensures BackedOff(s, rto) == BackedOff(t, rto)
  {
  }
}
