/** When the program asks for the peer's window, over runs with arbitrary input. */
module WindowProbes {
  import opened Numbers
  import opened Wire
  import opened ReceiveWindow
  import opened Fragments
  import opened Congestion
  import opened Timers
  import opened Packing
  import opened Transmission
  import opened Kcp
  import opened Robustness
  import opened ZeroWindow
  import opened FlowControl

  /** The flushes of a run, with the window the peer had announced at each. */
  function FlushEvents(c: Config, calls: seq<Call>): seq<FlushEvent>
    requires c.mss > 0
  {
    if |calls| == 0 then []
    else
      var front, last := calls[..|calls| - 1], calls[|calls| - 1];
      FlushEvents(c, front)
      + if Flushes(Run(c, front), last) then [FlushEvent(last.now, Announced(c, front))] else []
  }

  predicate SameTimer(p: Probe, q: Probe) { p.ts == q.ts && p.wait == q.wait }

  lemma {:induction false} InputLeavesProbe(cb: Cb, ps: seq<Packet>)
    ensures SameTimer(InputPackets(Wrapped, cb, ps).probe, cb.probe)
  {
    hide InputPacket;
    if |ps| > 0 {
      var front := InputPackets(Wrapped, cb, ps[..|ps| - 1]);
      InputLeavesProbe(cb, ps[..|ps| - 1]);
      PacketLeavesProbe(front, ps[|ps| - 1]);
    }
  }

  lemma PacketLeavesProbe(cb: Cb, p: Packet)
    ensures SameTimer(InputPacket(Wrapped, cb, p).probe, cb.probe)
  {
    hide AcceptUna, AcceptAck, SampleRtt, AcceptPush;
  }

  /** Only a flush touches the timer, and then by the window known at that moment. */
  lemma CallProbe(cb: Cb, call: Call)
    requires cb.cfg.mss > 0
    ensures SameTimer(Apply(cb, call).probe,
                      if Flushes(cb, call) then ProbeStep(cb.probe, cb.rmtWnd, U32(call.now)) else cb.probe)
    ensures Apply(cb, call).probe.ask <==> !Flushes(cb, call) && cb.probe.ask
  {
    hide Send, Recv, Parse, Advance, InputPackets, FinishInput, LargestAck, ProbeStep;
    match call
    case CallSend(data) =>
    case CallRecv(len) =>
    case CallInput(d) =>
      if |d| >= OVERHEAD {
        var ps := Parse(cb.cfg.conv, d).packets;
        InputLeavesProbe(cb, ps);
        WaskRequests(Wrapped, cb, ps);
        InputLeaves(cb, ps, Parse(cb.cfg.conv, d).code);
      }
    case CallUpdate(now) =>
      FlushClears(cb, now);
      FlushedProbe(cb, now);
  }

  lemma InputLeaves(cb: Cb, ps: seq<Packet>, code: int)
    requires cb.cfg.mss > 0
    ensures Input(Wrapped, cb, ps, code).probe == InputPackets(Wrapped, cb, ps).probe
  {
    hide InputPackets, LargestAck;
    InputKeepsConfig(Wrapped, cb, ps);
  }

  lemma FlushedProbe(cb: Cb, now: nat)
    ensures var r := Update(Wrapped, cb, U32(now)).cb.probe;
      if Flushes(cb, CallUpdate(now)) then r == ProbeStep(cb.probe, cb.rmtWnd, U32(now)).(ask := false, tell := false)
      else r == cb.probe
  {
    hide TimeDiff, Numbered, ProbeStep, SweptBuf, Chosen, LinkDead, FlushPackets, AfterFlush, SendLimit;
  }

  /** Whether WINS is asked for does not matter to the timer. */
  lemma TimerAlone(p: Probe, q: Probe, wnd: nat, now: nat)
    requires SameTimer(p, q) && !p.ask && !q.ask
    ensures SameTimer(ProbeStep(p, wnd, now), ProbeStep(q, wnd, now))
    ensures ProbeStep(p, wnd, now).ask <==> ProbeStep(q, wnd, now).ask
  {
    hide TimeDiff, U32;
  }

  /** The timer of the block follows the flushes of the run. */
  lemma {:induction false} TimerFollows(c: Config, calls: seq<Call>)
    requires c.mss > 0
    ensures SameTimer(Run(c, calls).probe, ProbeAfter(FlushEvents(c, calls))) && !Run(c, calls).probe.ask
  {
    if |calls| > 0 {
      hide Apply, Flushes, Announced, ProbeStep;
      var front, last := calls[..|calls| - 1], calls[|calls| - 1];
      var y, events := Run(c, front), FlushEvents(c, front);
      TimerFollows(c, front);
      CallProbe(y, last);
      if Flushes(y, last) {
        WindowKnown(c, front);
        var e := FlushEvent(last.now, Announced(c, front));
        assert (events + [e])[..|events|] == events;
        FlushIsUpdate(y, last);
        TimerAlone(y.probe, ProbeAfter(events).(ask := false, tell := false), e.rmtWnd, U32(e.time));
      } else {
        assert events + [] == events;
      }
    }
  }

  lemma FlushIsUpdate(cb: Cb, call: Call)
    requires Flushes(cb, call)
    ensures call.CallUpdate?
  {
  }

  /** A flush emits a WASK if and only if its probe step says so. */
  lemma WaskEmitted(y: Cb)
    requires y.clk.updated
    ensures (exists d, p :: d in Flush(Wrapped, y).out && p in d && p.cmd == CMD_WASK) <==>
      ProbeStep(y.probe, y.rmtWnd, y.clk.current).ask
  {
    hide Numbered, Choose, Put, PutAll, ProbeStep;
    var ps := FlushPackets(Wrapped, y);
    var ds := Datagrams(y.cfg.mtu, ps);
    DatagramsConcat(y.cfg.mtu, ps);
    var w := ProbePacket(CMD_WASK, y.rcv, AnnouncedWnd(y));
    if ProbeStep(y.probe, y.rmtWnd, y.clk.current).ask {
      assert w in ControlPackets(y.rcv, AnnouncedWnd(y), ProbeStep(y.probe, y.rmtWnd, y.clk.current));
      ConcatMembers(ds, w);
      var i :| 0 <= i < |ds| && w in ds[i];
      assert ds[i] in ds;
    }
    if d, p :| d in ds && p in d && p.cmd == CMD_WASK {
      ConcatMembers(ds, p);
      SweptMembers(SendingOf(y), Numbered(Wrapped, y).buf, p);
    }
  }

  /** In every run, on true clock values that only move forward: a flush asks for the peer's window
      if and only if that window was closed at it and at all flushes for the running wait of the
      series 7000, 10500, 15750, and so on. */
  lemma WaskExact(c: Config, calls: seq<Call>, now: nat)
    requires c.mss > 0 && Flushes(Run(c, calls), CallUpdate(now))
    requires ForwardEvents(FlushEvents(c, calls + [CallUpdate(now)]))
    ensures var plan := PlanAfter(FlushEvents(c, calls + [CallUpdate(now)]));
      (exists d, p :: d in Emitted(Run(c, calls), now) && p in d && p.cmd == CMD_WASK) <==> plan.WindowClosed? && plan.asked
  {
    hide Run, Announced, ProbeStep, ForwardEvents, PlanAfter, Flush;
    var all, y := calls + [CallUpdate(now)], Run(c, calls);
    assert all[..|calls|] == calls;
    var e, events := FlushEvent(now, Announced(c, calls)), FlushEvents(c, calls);
    TimerFollows(c, calls);
    WindowKnown(c, calls);
    TimerAlone(y.probe, ProbeAfter(events).(ask := false, tell := false), e.rmtWnd, U32(now));
    assert (events + [e])[..|events|] == events;
    ProbesExactly(events + [e]);
    FlushClears(y, now);
    WaskEmitted(y.(clk := Advance(y.cfg.interval, y.clk, U32(now)).clk));
    ClockNow(y, now);
  }

  lemma ClockNow(cb: Cb, now: nat)
    ensures Advance(cb.cfg.interval, cb.clk, U32(now)).clk.current == U32(now)
  {
    hide TimeDiff, U32;
  }
}
