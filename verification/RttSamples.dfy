/** Where round-trip samples come from: with an honest peer every acknowledgement echoes the
    time stamp of a copy that was really sent. */
module RttSamples {
  import opened Numbers
  import opened Wire
  import opened SendWindow
  import opened ReceiveWindow
  import opened RttEstimation
  import opened Timers
  import opened Packing
  import opened Transmission
  import opened Kcp
  import opened Invariants
  import opened Delivery
  import opened Connection

  predicate CarriesPush(d: seq<Packet>, sn: nat) {
    exists p :: p in d && p.cmd == CMD_PUSH && p.sn == sn
  }

  /** x emitted a copy of segment sn when its clock read ts. */
  predicate Emitted(x: Peer, sn: nat, ts: nat) {
    exists k :: 0 <= k < |x.out| && k < |x.sentAt| && x.sentAt[k] == ts && CarriesPush(x.out[k], sn)
  }

  /** Data segments are stamped with the clock at the moment of their emission. */
  predicate StampsOk(x: Peer) {
    && |x.sentAt| == |x.out|
    && (forall k, p :: 0 <= k < |x.out| && p in x.out[k] && p.cmd == CMD_PUSH ==> p.ts == x.sentAt[k])
  }

  /** Whatever y acknowledges, or is about to, echoes an emission of x. */
  predicate EchoOk(x: Peer, y: Peer) {
    && (forall a :: a in y.cb.rcv.acks ==> Emitted(x, a.sn, a.ts))
    && (forall d, p :: d in y.out && p in d && p.cmd == CMD_ACK ==> Emitted(x, p.sn, p.ts))
  }

  predicate Honest(s: Sys) {
    StampsOk(s.a) && StampsOk(s.b) && EchoOk(s.a, s.b) && EchoOk(s.b, s.a)
  }

  lemma EmittedGrows(x: Peer, x': Peer, sn: nat, ts: nat)
    requires x.out <= x'.out && x.sentAt <= x'.sentAt && Emitted(x, sn, ts)
    ensures Emitted(x', sn, ts)
  {
    hide CarriesPush;
    var k :| 0 <= k < |x.out| && k < |x.sentAt| && x.sentAt[k] == ts && CarriesPush(x.out[k], sn);
    assert x'.out[k] == x.out[k] && x'.sentAt[k] == ts;
  }

  lemma EchoGrows(x: Peer, x': Peer, y: Peer)
    requires x.out <= x'.out && x.sentAt <= x'.sentAt && EchoOk(x, y)
    ensures EchoOk(x', y)
  {
    hide Emitted;
    forall a | a in y.cb.rcv.acks ensures Emitted(x', a.sn, a.ts) {
      EmittedGrows(x, x', a.sn, a.ts);
    }
    forall d, p | d in y.out && p in d && p.cmd == CMD_ACK ensures Emitted(x', p.sn, p.ts) {
      EmittedGrows(x, x', p.sn, p.ts);
    }
  }

  lemma PushWasEmitted(y: Peer, d: seq<Packet>, blank: set<nat>)
    requires StampsOk(y) && d in y.out
    ensures forall p :: p in d && p.cmd == CMD_PUSH ==> Emitted(y, p.sn, p.ts)
    ensures forall p :: p in Blanked(d, blank) && p.cmd == CMD_PUSH ==> p in d
  {
    var k :| 0 <= k < |y.out| && y.out[k] == d;
    forall p | p in d && p.cmd == CMD_PUSH ensures Emitted(y, p.sn, p.ts) {
      assert CarriesPush(y.out[k], p.sn);
    }
    forall p | p in Blanked(d, blank) && p.cmd == CMD_PUSH ensures p in d {
      var i :| 0 <= i < |d| && Blanked(d, blank)[i] == p;
    }
  }

  lemma {:induction false} NewAcks(x: Cb, ps: seq<Packet>, a: Ack)
    requires CbOk(x) && (forall p :: p in ps ==> Plausible(p)) && a in InputPackets(Unbounded, x, ps).rcv.acks
    ensures a in x.rcv.acks || exists p :: p in ps && p.cmd == CMD_PUSH && p.sn == a.sn && p.ts == a.ts
  {
    if |ps| > 0 {
      hide CbOk, AcceptPush, AcceptUna, AcceptAck, SampleRtt;
      var n := |ps| - 1;
      var c, p := InputPackets(Unbounded, x, ps[..n]), ps[n];
      assert p in ps;
      InputPacketsKeep(x, ps[..n]);
      if p.cmd == CMD_PUSH {
        PushAcks(c, p);
      }
      if a in c.rcv.acks {
        NewAcks(x, ps[..n], a);
      }
    }
  }

  lemma PushAcks(c: Cb, p: Packet)
    requires CbOk(c)
    ensures var r := AcceptPush(Unbounded, c.cfg.rcvWnd, c.rcv, p.sn, p.ts, FragOf(p));
      forall a :: a in r.acks ==> a in c.rcv.acks || a == Ack(p.sn, p.ts)
  {
    AcceptPushKeeps(c.cfg.rcvWnd, c.rcv, p.sn, p.ts, FragOf(p));
  }

  function FragOf(p: Packet): Frag { Frag(p.frg, p.data) }

  lemma DeliverEcho(x: Peer, y: Peer, d: seq<Packet>)
    requires CbOk(x.cb) && EchoOk(y, x) && x.cb.cfg.mss > 0
    requires forall p :: p in d ==> Plausible(p) && (p.cmd == CMD_PUSH ==> Emitted(y, p.sn, p.ts))
    ensures EchoOk(y, AfterDeliver(x, d))
  {
    hide CbOk, InputPackets, LargestAck, FinishInput, Emitted;
    var x' := AfterDeliver(x, d);
    InputPacketsKeep(x.cb, d);
    MssPositive(InputPackets(Unbounded, x.cb, d));
    FinishFrame(InputPackets(Unbounded, x.cb, d), x.cb.snd.una, LargestAck(Unbounded, d));
    forall a | a in x'.cb.rcv.acks ensures Emitted(y, a.sn, a.ts) {
      NewAcks(x.cb, d, a);
      if a !in x.cb.rcv.acks {
        var p :| p in d && p.cmd == CMD_PUSH && p.sn == a.sn && p.ts == a.ts;
      }
    }
  }

  /** Control packets acknowledge pending numbers; data packets carry the current clock. */
  lemma FlushStamps(x: Cb, p: Packet)
    requires CbOk(x) && p in FlushPackets(Unbounded, x)
    ensures p.cmd == CMD_PUSH ==> p.ts == x.clk.current
    ensures p.cmd == CMD_ACK ==> exists a :: a in x.rcv.acks && a.sn == p.sn && a.ts == p.ts
  {
    hide CbOk, Numbered, ProbeStep, Choose;
    SweptMembers(SendingOf(x), Numbered(Unbounded, x).buf, p);
    if p.cmd == CMD_ACK {
      var wnd := AnnouncedWnd(x);
      assert p in AckPackets(x.rcv, wnd);
      var i :| 0 <= i < |x.rcv.acks| && AckPackets(x.rcv, wnd)[i] == p;
      assert x.rcv.acks[i] in x.rcv.acks;
    }
  }

  lemma FlushHonest(x: Peer, y: Peer)
    requires CbOk(x.cb) && x.cb.clk.updated && StampsOk(x) && EchoOk(y, x)
    ensures var x' := AfterFlushing(x); StampsOk(x') && EchoOk(y, x') && x.out <= x'.out && x.sentAt <= x'.sentAt
  {
    hide CbOk, FlushPackets, Datagrams, Emitted, ToNumber, Numbered, SweptBuf, ProbeStep, SendLimit, Chosen, LinkDead;
    var x' := AfterFlushing(x);
    var ds := Flush(Unbounded, x.cb).out;
    forall d, p | d in ds && p in d
      ensures p.cmd == CMD_PUSH ==> p.ts == x.cb.clk.current
      ensures p.cmd == CMD_ACK ==> Emitted(y, p.sn, p.ts)
    {
      EmittedPackets(x.cb, d, p);
      FlushStamps(x.cb, p);
    }
    forall k, p | 0 <= k < |x'.out| && p in x'.out[k] && p.cmd == CMD_PUSH ensures p.ts == x'.sentAt[k] {
      if k >= |x.out| {
        assert x'.out[k] in ds;
      }
    }
  }

  lemma BlankedIsPlausible(net: Network, k: nat, blank: set<nat>)
    requires PlausibleNet(net) && k < |net|
    ensures forall p :: p in net[k] || p in Blanked(net[k], blank) ==> Plausible(p)
  {
    forall p | p in Blanked(net[k], blank) ensures Plausible(p) {
      var i :| 0 <= i < |net[k]| && Blanked(net[k], blank)[i] == p;
      assert net[k][i] in net[k];
    }
  }

  lemma StepHonest(x: Peer, y: Peer, e: Event)
    requires PeerOk(x) && PeerOk(y) && x.cb.cfg.mss > 0
    requires StampsOk(x) && StampsOk(y) && EchoOk(x, y) && EchoOk(y, x)
    ensures var x' := PeerStep(x, y.out, e); StampsOk(x') && EchoOk(x', y) && EchoOk(y, x')
  {
    hide CbOk, PlausibleNet, Input, Emitted, AfterFlushing, SendOn, Advance, RecvOn;
    var x' := PeerStep(x, y.out, e);
    match e
    case SendEvent(data) =>
      SendAcks(x.cb, data);
      EchoGrows(x, x', y);
    case RecvEvent(len) =>
      RecvAcks(x.cb, len);
      EchoGrows(x, x', y);
    case DeliverEvent(k) =>
      if k < |y.out| {
        PushWasEmitted(y, y.out[k], {});
        BlankedIsPlausible(y.out, k, {});
        DeliverEcho(x, y, y.out[k]);
      }
      EchoGrows(x, x', y);
    case DeliverBlanked(k, blank) =>
      if k < |y.out| {
        PushWasEmitted(y, y.out[k], blank);
        BlankedIsPlausible(y.out, k, blank);
        DeliverEcho(x, y, Blanked(y.out[k], blank));
      }
      EchoGrows(x, x', y);
    case UpdateEvent(now) =>
      var t := Advance(x.cb.cfg.interval, x.cb.clk, U32(now));
      var z := x.(cb := x.cb.(clk := t.clk));
      TickOk(x.cb, now);
      if t.flush {
        FlushHonest(z, y);
      }
      EchoGrows(x, x', y);
  }

  lemma SendAcks(x: Cb, data: Bytes)
    requires x.cfg.mss > 0
    ensures SendOn(x, data).cb.rcv == x.rcv
  {
  }

  lemma RecvAcks(x: Cb, len: int)
    ensures RecvOn(Unbounded, x, len).cb.rcv.acks == x.rcv.acks
  {
  }

  lemma {:induction false} RunHonest(ca: Config, cb: Config, steps: seq<Step>)
    requires ConfigOk(ca) && ConfigOk(cb)
    ensures Honest(Run(ca, cb, steps))
  {
    if |steps| > 0 {
      hide PeerOk, Direction, PeerStep, StampsOk, EchoOk;
      var n := |steps| - 1;
      RunHonest(ca, cb, steps[..n]);
      RunOk(ca, cb, steps[..n]);
      var s := Run(ca, cb, steps[..n]);
      if steps[n].onA {
        StepHonest(s.a, s.b, steps[n].event);
      } else {
        StepHonest(s.b, s.a, steps[n].event);
      }
    }
  }

  /** What ikcp_input makes of an acknowledgement when its sample is the age of the copy sent at
      clock value sent; an age past 2^31 ms counts as negative and is ignored. */
  predicate SampledAge(x: Cb, p: Packet, sent: nat)
  {
    var age := TimeDiff(x.clk.current, sent);
    InputPacket(Unbounded, x, p).rtt == if age >= 0 then UpdateAck(x.cfg.interval, x.cfg.minrto, x.rtt, age) else x.rtt
  }

  /** In every run, for each acknowledgement the peer ever emitted, whenever it arrives: some copy
      of that very segment left at the clock value it echoes, and the sample taken is the age of
      that copy. */
  lemma SamplesAreGenuine(ca: Config, cb: Config, steps: seq<Step>, d: seq<Packet>, p: Packet)
    requires ConfigOk(ca) && ConfigOk(cb)
    requires d in Run(ca, cb, steps).b.out && p in d && p.cmd == CMD_ACK
    ensures var a := Run(ca, cb, steps).a;
      exists k :: 0 <= k < |a.out| && k < |a.sentAt| && CarriesPush(a.out[k], p.sn) && SampledAge(a.cb, p, a.sentAt[k])
  {
    RunHonest(ca, cb, steps);
    var a := Run(ca, cb, steps).a;
    assert Emitted(a, p.sn, p.ts);
    var k :| 0 <= k < |a.out| && k < |a.sentAt| && a.sentAt[k] == p.ts && CarriesPush(a.out[k], p.sn);
    EchoSampled(a.cb, p);
    assert SampledAge(a.cb, p, a.sentAt[k]);
  }

  lemma EchoSampled(x: Cb, p: Packet)
    requires p.cmd == CMD_ACK
    ensures SampledAge(x, p, p.ts)
  {
  }
}
