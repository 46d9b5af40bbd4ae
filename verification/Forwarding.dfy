/** The two forwarders around the control block: the chunks read from one TCP connection come out
    of the other in order, and with the forwarders' buffer sizes no call of the pumps is refused. */
module Forwarding {
  import opened Numbers
  import opened Wire
  import opened ReceiveWindow
  import opened Fragments
  import Kcp
  import opened Invariants
  import Robustness
  import opened Delivery
  import opened Connection
  import opened EndToEnd
  import opened SendWindow
  import opened Transmission
  import opened Retransmission
  import opened FastRetransmit
  import opened Wraparound
  import opened WireRun
  import opened Program
  import opened Engine

  /** The TCP read buffer of the client; the server's is smaller. */
  const READ_MAX: nat := 8192

  /** The buffer given to ikcp_recv. */
  const RECV_MAX: nat := 16384

  /** How both forwarders create their control block. */
  method OpenForwarder(checksum: bool) returns (cb: ControlBlock)
    ensures fresh(cb) && cb.Valid() && cb.checksum == checksum && cb.sent == []
    ensures cb.State() == Kcp.Create(Kcp.ForwarderConfig())
  {
    NewOk();
    hide Robustness.CbOk32, CbOk, AckPairs, Kcp.NoDelay, Kcp.WndSize;
    cb := new ControlBlock(0x5a3331fd, checksum);
    cb.SetWndSize(1024, 1024);
    cb.SetNoDelay(2, 10, 2, 1);
    assert cb.cfg == Kcp.ForwarderConfig();
  }

  lemma NewOk()
    ensures Robustness.CbOk32(Kcp.Create(Kcp.ForwarderConfig()))
  {
    ForwarderConfigOk();
    CreateOk(Kcp.ForwarderConfig());
    Robustness.WrapCreate(Kcp.ForwarderConfig());
  }

  /** A step the pump loops can take: they send what one TCP read returned, and receive into a
      buffer of RECV_MAX bytes. */
  predicate PumpEvent(e: Event) {
    && (e.SendEvent? ==> 0 < |e.data| <= READ_MAX)
    && (e.RecvEvent? ==> e.len == RECV_MAX)
  }

  predicate Pumped(steps: seq<Step>) {
    forall step :: step in steps ==> PumpEvent(step.event)
  }

  /** The chunks one side has read from its TCP connection. */
  function ChunksRead(steps: seq<Step>, onA: bool): seq<Message> {
    if |steps| == 0 then []
    else
      var step := steps[|steps| - 1];
      ChunksRead(steps[..|steps| - 1], onA)
      + if step.onA == onA && step.event.SendEvent? then [step.event.data] else []
  }

  lemma {:induction false} ChunkSizes(steps: seq<Step>, onA: bool)
    requires Pumped(steps)
    ensures forall m :: m in ChunksRead(steps, onA) ==> 0 < |m| <= READ_MAX
  {
    if |steps| > 0 {
      assert steps[|steps| - 1] in steps;
      ChunkSizes(steps[..|steps| - 1], onA);
    }
  }

  /** A chunk needs at most six fragments, so ikcp_send takes it. */
  lemma ChunkAccepted(h: Host, data: Bytes)
    requires h.cb.cfg == Kcp.ForwarderConfig() && 0 < |data| <= READ_MAX
    ensures Kcp.SendOn(h.cb, data).code == 0
    ensures HostSend(h, data).accepted == h.accepted + [data]
  {
    ForwarderConfigOk();
  }

  lemma StepAccepts(checksum: bool, h: Host, net: seq<Bytes>, e: Event)
    requires h.cb.cfg == Kcp.ForwarderConfig() && h.cb.cfg.mss > 0 && PumpEvent(e)
    ensures HostStep(checksum, h, net, e).accepted == h.accepted + if e.SendEvent? then [e.data] else []
  {
    hide Kcp.InputBytes, Kcp.RecvOn, Kcp.SendOn, Kcp.Update;
    if e.SendEvent? {
      ChunkAccepted(h, e.data);
    }
  }

  /** ikcp_send never refuses, in any run whatever: what was accepted is what was read. */
  lemma {:induction false} AcceptedIsRead(checksum: bool, steps: seq<Step>)
    requires Pumped(steps)
    ensures var h := RunHosts(checksum, Kcp.ForwarderConfig(), Kcp.ForwarderConfig(), steps);
      h.a.accepted == ChunksRead(steps, true) && h.b.accepted == ChunksRead(steps, false)
  {
    if |steps| > 0 {
      hide HostStep, Kcp.ForwarderConfig, PumpEvent;
      var n, f := |steps| - 1, Kcp.ForwarderConfig();
      assert steps[n] in steps;
      AcceptedIsRead(checksum, steps[..n]);
      var h := RunHosts(checksum, f, f, steps[..n]);
      if steps[n].onA {
        StepAccepts(checksum, h.a, h.b.out, steps[n].event);
      } else {
        StepAccepts(checksum, h.b, h.a.out, steps[n].event);
      }
    }
  }

  /** The segments it takes to carry the chunks one side has read. */
  function SegmentsRead(steps: seq<Step>, onA: bool): nat { Segments(Kcp.ForwarderConfig().mss, steps, onA) }

  /** What the receive pump's call of ikcp_recv does at h, chunks being all that was read at the
      other end: a code of zero or less says exactly that the next chunk is not complete, and
      otherwise the call returns that chunk. */
  predicate PumpExact(h: Host, chunks: seq<Message>) {
    var r := Kcp.RecvOn(Wrapped, h.cb, RECV_MAX);
    && (r.code <= 0 <==> PeekSize(h.cb.rcv.queue) < 0)
    && (r.code > 0 ==> |h.delivered| < |chunks| && r.data == chunks[|h.delivered|] && r.code == |r.data|)
  }

  lemma PumpEnd(checksum: bool, h: Host, x: Peer, y: Peer, chunks: seq<Message>)
    requires Stands(checksum, h, y) && PeerOk(y) && Direction(x, y) && Stream(x, y) && !x.cb.cfg.stream
    requires x.accepted == chunks && forall m :: m in chunks ==> 0 < |m| <= READ_MAX
    ensures PumpExact(h, chunks)
  {
    hide CbOk, HeldOk, Stream, PlausibleNet, SentOk, ForthOk, BackOk, NothingLost, MessageEnd, Take;
    MergeLength(y.cb.rcv.queue);
    PeekWraps(y.cb.rcv.queue);
    RecvWraps(y.cb, RECV_MAX);
    if PeekSize(y.cb.rcv.queue) >= 0 {
      RecvNext(x, y);
      assert x.accepted[|y.delivered|] in x.accepted;
    }
  }

  /** At either end of the program, the receive pump stops only when the next chunk has not
      arrived, and otherwise gets precisely that chunk, never empty and never too large. */
  lemma PumpReceives(checksum: bool, steps: seq<Step>)
    requires Pumped(steps) && SegmentsRead(steps, true) <= TWO31 && SegmentsRead(steps, false) <= TWO31
    ensures var h := RunHosts(checksum, Kcp.ForwarderConfig(), Kcp.ForwarderConfig(), steps);
      PumpExact(h.b, ChunksRead(steps, true)) && PumpExact(h.a, ChunksRead(steps, false))
  {
    hide PeerOk, Direction, Stream, Stands, PumpExact, RunHosts, IdealRun, ChunksRead, Segments, Recent;
    var f := Kcp.ForwarderConfig();
    ForwarderConfigOk();
    hide Kcp.ForwarderConfig;
    var h, s := RunHosts(checksum, f, f, steps), IdealRun(f, f, steps);
    ShortRunRecent(f, f, steps);
    HostsFollow(checksum, f, f, steps);
    IdealEnds(f, f, steps);
    AcceptedIsRead(checksum, steps);
    SameAccepted(checksum, h.a, s.a);
    SameAccepted(checksum, h.b, s.b);
    ChunkSizes(steps, true);
    ChunkSizes(steps, false);
    PumpEnd(checksum, h.b, s.a, s.b, ChunksRead(steps, true));
    PumpEnd(checksum, h.a, s.b, s.a, ChunksRead(steps, false));
  }

  lemma IdealEnds(ca: Kcp.Config, cb: Kcp.Config, steps: seq<Step>)
    requires ConfigOk(ca) && ConfigOk(cb)
    ensures var s := IdealRun(ca, cb, steps);
      && PeerOk(s.a) && PeerOk(s.b) && Direction(s.a, s.b) && Direction(s.b, s.a)
      && Stream(s.a, s.b) && Stream(s.b, s.a) && s.a.cb.cfg == ca && s.b.cb.cfg == cb
  {
    hide PeerOk, Direction, Stream, IdealSteps;
    RunEndsOk(ca, cb, IdealSteps(ca, cb, steps));
  }

  lemma SameAccepted(checksum: bool, h: Host, x: Peer)
    requires Stands(checksum, h, x)
    ensures h.accepted == x.accepted && h.delivered == x.delivered
  {
  }

  /** End to end, on the wire-level program: the chunks written to each TCP connection are a prefix
      of the chunks read from the other, while those take at most 2^31 segments each way. */
  lemma BytesForwarded(checksum: bool, steps: seq<Step>)
    requires Pumped(steps) && SegmentsRead(steps, true) <= TWO31 && SegmentsRead(steps, false) <= TWO31
    ensures var h := RunHosts(checksum, Kcp.ForwarderConfig(), Kcp.ForwarderConfig(), steps);
      h.b.delivered <= ChunksRead(steps, true) && h.a.delivered <= ChunksRead(steps, false)
  {
    hide RunHosts, Segments, ChunksRead;
    var f := Kcp.ForwarderConfig();
    ForwarderConfigOk();
    hide Kcp.ForwarderConfig;
    AcceptedIsRead(checksum, steps);
    ProgramDelivers(checksum, f, f, steps);
  }

  /** And without that bound, while every delivered datagram is legible. */
  lemma BytesForwardedRecent(checksum: bool, steps: seq<Step>)
    requires Pumped(steps) && Recent(Kcp.ForwarderConfig(), Kcp.ForwarderConfig(), steps)
    ensures var h := RunHosts(checksum, Kcp.ForwarderConfig(), Kcp.ForwarderConfig(), steps);
      h.b.delivered <= ChunksRead(steps, true) && h.a.delivered <= ChunksRead(steps, false)
  {
    hide RunHosts, Recent, ChunksRead;
    var f := Kcp.ForwarderConfig();
    ForwarderConfigOk();
    hide Kcp.ForwarderConfig;
    AcceptedIsRead(checksum, steps);
    ProgramDeliversRecent(checksum, f, f, steps);
  }

  // ---- the forwarders' mode ----

  /** What a forwarder's flush applies to every segment: mode 2, two skips, five transmissions. */
  lemma ForwarderSending(cb: Kcp.Cb)
    requires cb.cfg == Kcp.ForwarderConfig()
    ensures var s := Kcp.SendingOf(cb); s.nodelay == 2 && s.resent == 2 && s.fastlimit == 5 && s.rto == cb.rtt.rto
  {
    ForwarderConfigOk();
  }

  /** In any reachable state of a forwarder its timeout estimate lies between 30 ms and a minute. */
  lemma ForwarderEstimate(calls: seq<Robustness.Call>)
    ensures 30 <= Robustness.Run(Kcp.ForwarderConfig(), calls).rtt.rto <= 60000
  {
    ForwarderConfigOk();
    Robustness.ReachableOk(Kcp.ForwarderConfig(), calls);
  }

  /** So with them a segment that timed out n times rests at least 30 + 15 n ms after its latest
      transmission, and a flush 60000 + 30000 n ms after it sends it in any case. */
  lemma ForwarderTimeouts(cb: Kcp.Cb, g: OutSeg, start: nat, events: seq<SegEvent>, e: SegEvent)
    requires cb.cfg == Kcp.ForwarderConfig() && g.xmit == 0 && g.rto <= 60000 && |events| < TWO31
    requires InOrder(Kcp.SendingOf(cb), g, start, events, 30, 60000) && e.FlushAt?
    requires var l := LifeAfter(Kcp.SendingOf(cb), g, start, events);
      Retransmission.Follows(l, e, 30, 60000) && l.g.xmit > 0 && l.timeouts <= 30000
    ensures var l := LifeAfter(Kcp.SendingOf(cb), g, start, events);
      var c := Choose(SendingAt(Kcp.SendingOf(cb), e), l.g);
      && (c.Timeout? ==> e.time >= l.last + 30 + 15 * l.timeouts)
      && (e.time >= l.last + 60000 + 30000 * l.timeouts ==> c.Timeout?)
  {
    hide Kcp.ForwarderConfig, Kcp.SendingOf, InOrder, LifeAfter, Retransmission.Follows, Choose;
    var mode := Kcp.SendingOf(cb);
    ForwarderSending(cb);
    var n := LifeAfter(mode, g, start, events).timeouts;
    PatienceIs(30, n);
    PatienceIs(60000, n);
    TimeoutsBackOff(mode, g, start, events, e, 30, 60000);
  }

  lemma {:induction false} PatienceIs(rto: nat, n: nat)
    ensures Patience(2, rto, n) == rto + n * (rto / 2)
  {
    if n > 0 {
      PatienceIs(rto, n - 1);
      assert n * (rto / 2) == (n - 1) * (rto / 2) + rto / 2;
    }
  }

  /** A forwarder fast-resends an unacknowledged segment exactly when it was sent before, is not
      overdue, was skipped twice since its last fast resend or its numbering, and went out at most
      five times. */
  lemma ForwarderFastResends(sn: nat, moves: seq<Move>, now: nat, g: OutSeg)
    requires |moves| < TWO31 - 2 && now < TWO32 && forall i :: 0 <= i < |moves| ==> Sensible(moves[i])
    requires var l := LiveAll(Kcp.ForwarderConfig(), sn, moves);
      FastRetransmit.Flushes(l.cb, now) && g in l.cb.snd.buf && g.sn == sn
    ensures var l := LiveAll(Kcp.ForwarderConfig(), sn, moves);
      FastResends(l.cb, now, sn) <==> g.xmit > 0 && TimeDiff(now, g.resendts) < 0 && l.skips >= 2 && g.xmit <= 5
  {
    var f := Kcp.ForwarderConfig();
    ForwarderConfigOk();
    hide Kcp.ForwarderConfig, LiveAll, FastRetransmit.Flushes, FastResends, Sensible, TimeDiff;
    FastResendExactly(f, sn, moves, now, g);
  }
}
