/** Acknowledgements are conserved: in every run, with any input bytes, those emitted so far
    followed by those still pending are exactly the ones the data segments taken in ask for. */
module Acknowledgement {
  import opened Numbers
  import opened Wire
  import opened ReceiveWindow
  import opened Fragments
  import opened Timers
  import opened Packing
  import opened Transmission
  import opened Kcp
  import opened Robustness

  /** What a datagram asks for, in order: number and time stamp of each data segment before the end
      of the window it meets, new or repeated. */
  function Asked(cb: Cb, ps: seq<Packet>): seq<Ack> {
    if |ps| == 0 then []
    else
      var front, p := ps[..|ps| - 1], ps[|ps| - 1];
      var nxt := InputPackets(Wrapped, cb, front).rcv.nxt;
      Asked(cb, front)
      + if p.cmd == CMD_PUSH && TimeDiff(p.sn, nxt + cb.cfg.rcvWnd) < 0 then [Ack(p.sn, p.ts)] else []
  }

  function AskedBy(cb: Cb, call: Call): seq<Ack> {
    if call.CallInput? && |call.datagram| >= OVERHEAD then Asked(cb, Parse(cb.cfg.conv, call.datagram).packets) else []
  }

  function AllAsked(c: Config, calls: seq<Call>): seq<Ack>
    requires c.mss > 0
  {
    if |calls| == 0 then []
    else
      var front := calls[..|calls| - 1];
      AllAsked(c, front) + AskedBy(Run(c, front), calls[|calls| - 1])
  }

  /** The acknowledgements among some segments. */
  function AcksIn(ps: seq<Packet>): seq<Ack> {
    if |ps| == 0 then []
    else
      var p := ps[|ps| - 1];
      AcksIn(ps[..|ps| - 1]) + if p.cmd == CMD_ACK then [Ack(p.sn, p.ts)] else []
  }

  function EmittedBy(cb: Cb, call: Call): seq<Ack> {
    if call.CallUpdate? then AcksIn(Concat(Update(Wrapped, cb, U32(call.now)).out)) else []
  }

  function AllEmitted(c: Config, calls: seq<Call>): seq<Ack>
    requires c.mss > 0
  {
    if |calls| == 0 then []
    else
      var front := calls[..|calls| - 1];
      AllEmitted(c, front) + EmittedBy(Run(c, front), calls[|calls| - 1])
  }

  // ---- ikcp_input ----

  lemma PushAsks(cb: Cb, p: Packet)
    ensures var r := InputPacket(Wrapped, cb, p); var asks := p.cmd == CMD_PUSH && TimeDiff(p.sn, cb.rcv.nxt + cb.cfg.rcvWnd) < 0;
      r.rcv.acks == cb.rcv.acks + if asks then [Ack(p.sn, p.ts)] else []
  {
    hide AcceptUna, AcceptAck, SampleRtt, MoveReady, InsertSeg, TimeDiff, U32;
    TimeDiffExact(p.sn, cb.rcv.nxt + cb.cfg.rcvWnd);
    TimeDiffExact(p.sn, U32(cb.rcv.nxt + cb.cfg.rcvWnd));
    Small(U32(cb.rcv.nxt + cb.cfg.rcvWnd));
  }

  lemma {:induction false} InputAsks(cb: Cb, ps: seq<Packet>)
    ensures InputPackets(Wrapped, cb, ps).rcv.acks == cb.rcv.acks + Asked(cb, ps)
  {
    hide InputPacket, TimeDiff;
    if |ps| > 0 {
      var front := ps[..|ps| - 1];
      InputAsks(cb, front);
      InputKeepsConfig(Wrapped, cb, front);
      PushAsks(InputPackets(Wrapped, cb, front), ps[|ps| - 1]);
    }
  }

  // ---- ikcp_flush ----

  lemma {:induction false} AcksOfParts(ps: seq<Packet>, qs: seq<Packet>)
    ensures AcksIn(ps + qs) == AcksIn(ps) + AcksIn(qs)
  {
    if |qs| == 0 {
      assert ps + qs == ps;
    } else {
      AcksOfParts(ps, qs[..|qs| - 1]);
      assert (ps + qs)[..|ps + qs| - 1] == ps + qs[..|qs| - 1];
    }
  }

  lemma {:induction false} NoAcks(ps: seq<Packet>)
    requires forall p :: p in ps ==> p.cmd != CMD_ACK
    ensures AcksIn(ps) == []
  {
    if |ps| > 0 {
      NoAcks(ps[..|ps| - 1]);
    }
  }

  lemma {:induction false} PendingAcks(acks: seq<Ack>, ps: seq<Packet>)
    requires |ps| == |acks| && forall i :: 0 <= i < |ps| ==> ps[i].cmd == CMD_ACK && Ack(ps[i].sn, ps[i].ts) == acks[i]
    ensures AcksIn(ps) == acks
  {
    if |ps| > 0 {
      var n := |ps| - 1;
      PendingAcks(acks[..n], ps[..n]);
    }
  }

  lemma FlushAcknowledges(cb: Cb)
    ensures AcksIn(FlushPackets(Wrapped, cb)) == cb.rcv.acks && FlushState(Wrapped, cb).rcv == cb.rcv.(acks := [])
  {
    hide AcksIn, Numbered, SweptPackets, ProbeStep;
    var wnd, p := AnnouncedWnd(cb), ProbeStep(cb.probe, cb.rmtWnd, cb.clk.current);
    var acks, control := AckPackets(cb.rcv, wnd), ControlPackets(cb.rcv, wnd, p);
    var probes, data := control[|acks|..], SweptPackets(SendingOf(cb), Numbered(Wrapped, cb).buf);
    PendingAcks(cb.rcv.acks, acks);
    NoAcks(probes);
    forall q | q in data ensures q.cmd != CMD_ACK {
      SweptMembers(SendingOf(cb), Numbered(Wrapped, cb).buf, q);
    }
    NoAcks(data);
    AcksOfParts(acks, probes);
    AcksOfParts(control, data);
    assert control == acks + probes;
  }

  // ---- whole runs ----

  lemma CallConserves(cb: Cb, call: Call)
    requires cb.cfg.mss > 0
    ensures EmittedBy(cb, call) + Apply(cb, call).rcv.acks == cb.rcv.acks + AskedBy(cb, call)
  {
    hide RecvOn, SendOn, Parse, Advance, Asked, AcksIn, InputPackets, FlushPackets, FlushState, LargestAck;
    match call
    case CallSend(data) => SendLeaves(cb, data);
    case CallRecv(len) => RecvLeaves(cb, len);
    case CallInput(d) =>
      if |d| >= OVERHEAD {
        InputAsks(cb, Parse(cb.cfg.conv, d).packets);
      }
    case CallUpdate(now) =>
      var t := Advance(cb.cfg.interval, cb.clk, U32(now));
      var y := cb.(clk := t.clk);
      Started(cb.cfg.interval, cb.clk, U32(now));
      FlushAcknowledges(y);
      DatagramsConcat(cb.cfg.mtu, FlushPackets(Wrapped, y));
      NoAcks([]);
  }

  lemma Started(interval: nat, c: Clock, now: nat)
    ensures Advance(interval, c, now).clk.updated
  {
    hide TimeDiff;
  }

  lemma SendLeaves(cb: Cb, data: Bytes)
    requires cb.cfg.mss > 0
    ensures SendOn(cb, data).cb.rcv == cb.rcv
  {
  }

  lemma RecvLeaves(cb: Cb, len: int)
    ensures RecvOn(Wrapped, cb, len).cb.rcv.acks == cb.rcv.acks
  {
    hide MessageEnd;
  }

  lemma Regroup(done: seq<Ack>, now: seq<Ack>, left: seq<Ack>, pending: seq<Ack>, asked: seq<Ack>)
    requires now + left == pending + asked
    ensures done + now + left == done + pending + asked
  {
    assert done + (now + left) == done + now + left;
    assert done + (pending + asked) == done + pending + asked;
  }

  /** Each data segment before the end of the window is acknowledged exactly once, with its own
      number and time stamp and in the order of arrival, by the next flush. */
  lemma {:induction false} AcksConserved(c: Config, calls: seq<Call>)
    requires c.mss > 0
    ensures AllEmitted(c, calls) + Run(c, calls).rcv.acks == AllAsked(c, calls)
  {
    if |calls| > 0 {
      hide Apply, AskedBy, EmittedBy, InputPackets;
      var n := |calls| - 1;
      var y := Run(c, calls[..n]);
      AcksConserved(c, calls[..n]);
      CallConserves(y, calls[n]);
      Regroup(AllEmitted(c, calls[..n]), EmittedBy(y, calls[n]), Apply(y, calls[n]).rcv.acks, y.rcv.acks, AskedBy(y, calls[n]));
    }
  }

  /** So none is pending after a flush. */
  lemma FlushAcksAll(c: Config, calls: seq<Call>, now: nat)
    requires c.mss > 0 && Advance(c.interval, Run(c, calls).clk, U32(now)).flush
    ensures AllEmitted(c, calls + [CallUpdate(now)]) == AllAsked(c, calls)
  {
    hide Run, AllEmitted, AllAsked, Advance, Apply;
    var all := calls + [CallUpdate(now)];
    assert all[..|calls|] == calls;
    AcksConserved(c, all);
    UpdateLast(c, calls, now);
  }

  lemma UpdateLast(c: Config, calls: seq<Call>, now: nat)
    requires c.mss > 0 && Advance(c.interval, Run(c, calls).clk, U32(now)).flush
    ensures var all := calls + [CallUpdate(now)]; AllAsked(c, all) == AllAsked(c, calls) && Run(c, all).rcv.acks == []
  {
    hide Advance, FlushPackets, FlushState, AskedBy;
    var all, y := calls + [CallUpdate(now)], Run(c, calls);
    assert all[..|calls|] == calls;
    Started(c.interval, y.clk, U32(now));
    FlushAcknowledges(y.(clk := Advance(c.interval, y.clk, U32(now)).clk));
    assert AskedBy(y, CallUpdate(now)) == [] by { NothingAsked(y, now); }
  }

  lemma NothingAsked(cb: Cb, now: nat)
    ensures AskedBy(cb, CallUpdate(now)) == []
  {
  }
}
