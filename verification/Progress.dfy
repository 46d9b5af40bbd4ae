/** One exchange without loss: the sender flushes, the receiver takes in everything and flushes,
    the sender takes in the answers. */
module Progress {
  import opened Numbers
  import opened Wire
  import opened SendWindow
  import opened ReceiveWindow
  import opened Timers
  import opened Packing
  import opened Transmission
  import opened Kcp
  import opened Invariants
  import opened Delivery
  import Connection

  function FeedAll(cb: Cb, ds: Network): (r: Cb)
    requires cb.cfg.mss > 0
    ensures r.cfg == cb.cfg && r.clk == cb.clk
  {
    if |ds| == 0 then cb
    else
      var c := FeedAll(cb, ds[..|ds| - 1]);
      InputKeepsConfig(Unbounded, c, ds[|ds| - 1]);
      Input(Unbounded, c, ds[|ds| - 1], 0)
  }

  /** Every unacknowledged segment is new or past its retransmission time. */
  predicate AllDue(cb: Cb) {
    forall g :: g in cb.snd.buf ==> g.xmit == 0 || TimeDiff(cb.clk.current, g.resendts) >= 0
  }

  predicate Acked(r: Receiver, sn: nat) {
    exists a :: a in r.acks && a.sn == sn
  }

  predicate PlausibleAll(d: seq<Packet>) {
    forall p :: p in d ==> Plausible(p)
  }

  // ---- the sender's flush ----

  lemma FlushSendsAll(x: Cb, sn: nat)
    requires CbOk(x) && x.clk.updated && AllDue(x) && HasSn(FlushState(Unbounded, x).snd.buf, sn)
    ensures exists p :: p in FlushPackets(Unbounded, x) && p.cmd == CMD_PUSH && p.sn == sn
  {
    hide CbOk, MoveToBuf, Numbered, Resend, ProbeStep, SendLimit, TimeDiff;
    NumberedKeeps(x);
    var n, sp := Numbered(Unbounded, x), SendingOf(x);
    ResendFrame(sp, n.buf);
    var buf := FlushState(Unbounded, x).snd.buf;
    var i :| 0 <= i < |buf| && buf[i].sn == sn;
    var g := n.buf[i];
    if i < |x.snd.buf| {
      assert g == x.snd.buf[i] && g in x.snd.buf;
    } else {
      assert g.xmit == 0;
    }
    assert !Choose(sp, g).Keep?;
    SweptMembers(sp, n.buf, DataPacket(sp, g));
  }

  // ---- the receiver's side ----

  lemma PushAcked(y: Cb, p: Packet)
    requires CbOk(y)
    ensures var y' := InputPacket(Unbounded, y, p);
      && y.rcv.nxt <= y'.rcv.nxt
      && (forall sn: nat :: Acked(y.rcv, sn) ==> Acked(y'.rcv, sn))
      && (p.cmd == CMD_PUSH && p.sn < y.rcv.nxt + y.cfg.rcvWnd ==> Acked(y'.rcv, p.sn))
  {
    hide AcceptPush, AcceptUna, AcceptAck, SampleRtt;
    if p.cmd == CMD_PUSH {
      AcceptPushKeeps(y.cfg.rcvWnd, y.rcv, p.sn, p.ts, Frag(p.frg, p.data));
      var y' := InputPacket(Unbounded, y, p);
      forall sn: nat | Acked(y.rcv, sn) ensures Acked(y'.rcv, sn) {
        var a :| a in y.rcv.acks && a.sn == sn;
        assert a in y'.rcv.acks;
      }
      if p.sn < y.rcv.nxt + y.cfg.rcvWnd {
        assert Ack(p.sn, p.ts) in y'.rcv.acks;
      }
    }
  }

  lemma {:induction false} PacketsAcked(y: Cb, ps: seq<Packet>, lim: nat)
    requires CbOk(y) && PlausibleAll(ps) && lim <= y.rcv.nxt + y.cfg.rcvWnd
    ensures var y' := InputPackets(Unbounded, y, ps);
      && y.rcv.nxt <= y'.rcv.nxt
      && (forall sn: nat :: Acked(y.rcv, sn) ==> Acked(y'.rcv, sn))
      && (forall p :: p in ps && p.cmd == CMD_PUSH && p.sn < lim ==> Acked(y'.rcv, p.sn))
  {
    hide CbOk, InputPacket, Acked;
    if |ps| > 0 {
      var n := |ps| - 1;
      PacketsAcked(y, ps[..n], lim);
      InputPacketsKeep(y, ps[..n]);
      PushAcked(InputPackets(Unbounded, y, ps[..n]), ps[n]);
    }
  }

  lemma DatagramAcked(y: Cb, d: seq<Packet>, lim: nat)
    requires CbOk(y) && PlausibleAll(d) && lim <= y.rcv.nxt + y.cfg.rcvWnd
    ensures var y' := Input(Unbounded, y, d, 0);
      && CbOk(y') && y'.cfg == y.cfg && y.rcv.nxt <= y'.rcv.nxt
      && (forall sn: nat :: Acked(y.rcv, sn) ==> Acked(y'.rcv, sn))
      && (forall p :: p in d && p.cmd == CMD_PUSH && p.sn < lim ==> Acked(y'.rcv, p.sn))
  {
    hide CbOk, InputPackets, FinishInput, LargestAck, Acked;
    PacketsAcked(y, d, lim);
    InputPacketsKeep(y, d);
    InputKeeps(y, d, 0);
    MssPositive(InputPackets(Unbounded, y, d));
    FinishFrame(InputPackets(Unbounded, y, d), y.snd.una, LargestAck(Unbounded, d));
  }

  lemma {:induction false} AllAcked(y: Cb, ds: Network, lim: nat)
    requires CbOk(y) && y.cfg.mss > 0 && lim <= y.rcv.nxt + y.cfg.rcvWnd
    requires forall d :: d in ds ==> PlausibleAll(d)
    ensures var y' := FeedAll(y, ds);
      && CbOk(y') && y.rcv.nxt <= y'.rcv.nxt
      && (forall sn: nat :: Acked(y.rcv, sn) ==> Acked(y'.rcv, sn))
      && (forall d, p :: d in ds && p in d && p.cmd == CMD_PUSH && p.sn < lim ==> Acked(y'.rcv, p.sn))
  {
    hide CbOk, Input, Acked, PlausibleAll;
    if |ds| > 0 {
      var n := |ds| - 1;
      AllAcked(y, ds[..n], lim);
      DatagramAcked(FeedAll(y, ds[..n]), ds[n], lim);
    }
  }

  lemma AckSent(y: Cb, sn: nat)
    requires Acked(y.rcv, sn)
    ensures exists p :: p in FlushPackets(Unbounded, y) && p.cmd == CMD_ACK && p.sn == sn
  {
    hide Numbered, ProbeStep;
    var a :| a in y.rcv.acks && a.sn == sn;
    var i :| 0 <= i < |y.rcv.acks| && y.rcv.acks[i] == a;
    var p := FlushPackets(Unbounded, y)[i];
    assert p.cmd == CMD_ACK && p.sn == sn;
  }

  // ---- the sender's side ----

  /** Taking in a datagram removes what it acknowledges and adds nothing. */
  predicate Removed(before: seq<OutSeg>, after: seq<OutSeg>, d: seq<Packet>) {
    forall g :: g in after ==>
      HasSn(before, g.sn) && forall p :: p in d && p.cmd == CMD_ACK ==> p.sn != g.sn
  }

  lemma {:induction false} PacketsRemove(x: Cb, ps: seq<Packet>)
    requires CbOk(x) && PlausibleAll(ps)
    ensures forall g :: g in InputPackets(Unbounded, x, ps).snd.buf ==>
      g in x.snd.buf && forall p :: p in ps && p.cmd == CMD_ACK ==> p.sn != g.sn
  {
    hide CbOk, InputPacket;
    if |ps| > 0 {
      var n := |ps| - 1;
      PacketsRemove(x, ps[..n]);
      InputPacketsKeep(x, ps[..n]);
      InputPacketKeeps(InputPackets(Unbounded, x, ps[..n]), ps[n]);
    }
  }

  lemma DatagramRemoves(x: Cb, d: seq<Packet>)
    requires CbOk(x) && PlausibleAll(d)
    ensures var x' := Input(Unbounded, x, d, 0);
      && CbOk(x') && x'.cfg == x.cfg && x.snd.una <= x'.snd.una && x'.snd.nxt == x.snd.nxt
      && Removed(x.snd.buf, x'.snd.buf, d)
  {
    hide CbOk, InputPackets, FinishInput, LargestAck, HasSn;
    PacketsRemove(x, d);
    InputPacketsKeep(x, d);
    InputKeeps(x, d, 0);
    var c, a := InputPackets(Unbounded, x, d), LargestAck(Unbounded, d);
    MssPositive(c);
    FinishKeeps(c, x.snd.una, a);
    var x' := Input(Unbounded, x, d, 0);
    forall g | g in x'.snd.buf
      ensures HasSn(x.snd.buf, g.sn) && forall p :: p in d && p.cmd == CMD_ACK ==> p.sn != g.sn
    {
      var i :| 0 <= i < |x'.snd.buf| && x'.snd.buf[i] == g;
      assert c.snd.buf[i] in c.snd.buf && c.snd.buf[i].sn == g.sn;
      HasSnIn(x.snd.buf, g.sn);
    }
  }

  lemma {:induction false} AllRemoved(x: Cb, ds: Network)
    requires CbOk(x) && x.cfg.mss > 0 && forall d :: d in ds ==> PlausibleAll(d)
    ensures var x' := FeedAll(x, ds);
      && CbOk(x') && x.snd.una <= x'.snd.una && x'.snd.nxt == x.snd.nxt
      && (forall g :: g in x'.snd.buf ==> HasSn(x.snd.buf, g.sn))
      && (forall g, d, p :: g in x'.snd.buf && d in ds && p in d && p.cmd == CMD_ACK ==> p.sn != g.sn)
  {
    hide CbOk, Input, HasSn, PlausibleAll;
    if |ds| == 0 {
      forall g | g in x.snd.buf ensures HasSn(x.snd.buf, g.sn) {
        HasSnIn(x.snd.buf, g.sn);
      }
    } else {
      var n := |ds| - 1;
      var c := FeedAll(x, ds[..n]);
      AllRemoved(x, ds[..n]);
      DatagramRemoves(c, ds[n]);
      var x' := FeedAll(x, ds);
      forall g | g in x'.snd.buf
        ensures HasSn(x.snd.buf, g.sn) && forall d, p :: d in ds && p in d && p.cmd == CMD_ACK ==> p.sn != g.sn
      {
        HasSnIn(c.snd.buf, g.sn);
      }
    }
  }

  // ---- the exchange ----

  lemma FlushedPlausible(x: Cb)
    requires CbOk(x)
    ensures forall d :: d in Flush(Unbounded, x).out ==> PlausibleAll(d)
  {
    if x.clk.updated {
      hide CbOk, FlushPackets, Datagrams;
      FlushPacketsFit(x);
      forall d, p | d in Flush(Unbounded, x).out && p in d ensures Plausible(p) {
        EmittedPackets(x, d, p);
      }
    }
  }

  lemma PacketInDatagram(x: Cb, p: Packet)
    requires x.clk.updated && p in FlushPackets(Unbounded, x)
    ensures exists d :: d in Flush(Unbounded, x).out && p in d
  {
    hide FlushPackets;
    DatagramsConcat(x.cfg.mtu, FlushPackets(Unbounded, x));
    var ds := Flush(Unbounded, x).out;
    ConcatMembers(ds, p);
    var i :| 0 <= i < |ds| && p in ds[i];
    assert ds[i] in ds;
  }

  /** The sender after flushing, and after the whole exchange. */
  function Flushing(x: Cb): Cb { Flush(Unbounded, x).cb }

  function Answer(x: Cb, y: Cb): Cb
    requires y.cfg.mss > 0
  {
    FeedAll(y, Flush(Unbounded, x).out)
  }

  function AfterExchange(x: Cb, y: Cb): Cb
    requires x.cfg.mss > 0 && y.cfg.mss > 0
  {
    FeedAll(Flushing(x), Flush(Unbounded, Answer(x, y)).out)
  }

  /** One loss-free exchange clears from snd_buf every segment, old or newly numbered, that lay
      inside the receiver's window; only segments beyond it remain. */
  lemma ExchangeClears(x: Cb, y: Cb)
    requires CbOk(x) && CbOk(y) && x.clk.updated && y.clk.updated && AllDue(x)
    requires x.cfg.mss > 0 && y.cfg.mss > 0
    ensures var x' := AfterExchange(x, y);
      && CbOk(x') && Flushing(x).snd.una <= x'.snd.una && x'.snd.nxt == Flushing(x).snd.nxt
      && (forall g :: g in x'.snd.buf ==> g.sn >= y.rcv.nxt + y.cfg.rcvWnd)
  {
    hide CbOk, FlushState, FlushPackets, Datagrams, HasSn, Acked, AllDue, FeedAll;
    var x1 := Flushing(x);
    var lim := y.rcv.nxt + y.cfg.rcvWnd;
    FlushKeeps(x);
    MssPositive(x1);
    FlushedPlausible(x);
    var y1 := Answer(x, y);
    AllAcked(y, Flush(Unbounded, x).out, lim);
    FlushedPlausible(y1);
    AllRemoved(x1, Flush(Unbounded, y1).out);
    var x2 := AfterExchange(x, y);
    forall g | g in x2.snd.buf ensures g.sn >= lim {
      if g.sn < lim {
        FlushSendsAll(x, g.sn);
        var p :| p in FlushPackets(Unbounded, x) && p.cmd == CMD_PUSH && p.sn == g.sn;
        PacketInDatagram(x, p);
        AckSent(y1, g.sn);
        var q :| q in FlushPackets(Unbounded, y1) && q.cmd == CMD_ACK && q.sn == g.sn;
        PacketInDatagram(y1, q);
        assert false;
      }
    }
  }

  lemma FirstInWindow(x: Cb, y: Cb)
    requires CbOk(x) && CbOk(y) && NothingLost(x.snd, y.rcv)
    requires |y.rcv.queue| < y.cfg.rcvWnd && x.snd.una < x.snd.nxt
    ensures x.snd.una <= y.rcv.nxt
  {
    if y.rcv.nxt < x.snd.nxt {
      forall i | 0 <= i < |y.rcv.buf| ensures y.rcv.buf[i].sn != y.rcv.nxt {
        assert i > 0 ==> y.rcv.buf[0].sn < y.rcv.buf[i].sn;
      }
      assert !Received(y.rcv, y.rcv.nxt);
      assert HasSn(x.snd.buf, y.rcv.nxt);
    }
  }

  /** Hence, whenever something is unacknowledged and the receiver's queue has room, the exchange
      strictly reduces what is outstanding. */
  lemma ExchangeProgress(x: Cb, y: Cb)
    requires CbOk(x) && CbOk(y) && x.clk.updated && y.clk.updated && AllDue(x)
    requires x.cfg.mss > 0 && y.cfg.mss > 0
    requires NothingLost(Flushing(x).snd, y.rcv) && |y.rcv.queue| < y.cfg.rcvWnd
    requires Flushing(x).snd.una < Flushing(x).snd.nxt
    ensures var before, after := Flushing(x).snd, AfterExchange(x, y).snd;
      after.nxt - after.una < before.nxt - before.una
  {
    hide FlushState, FeedAll, NothingLost;
    ExchangeClears(x, y);
    FlushKeeps(x);
    FirstInWindow(Flushing(x), y);
    var after := AfterExchange(x, y).snd;
    if |after.buf| > 0 {
      assert after.buf[0] in after.buf;
    }
  }

  /** In every reachable state of the connection: when all unacknowledged segments are due and the
      receiver's queue has room, an exchange without loss strictly reduces what is outstanding. */
  lemma RunProgress(ca: Config, cb: Config, steps: seq<Connection.Step>)
    requires ConfigOk(ca) && ConfigOk(cb)
    ensures var s := Connection.Run(ca, cb, steps); var x, y := s.a.cb, s.b.cb;
      x.clk.updated && y.clk.updated && AllDue(x) && |y.rcv.queue| < cb.rcvWnd && Flushing(x).snd.una < Flushing(x).snd.nxt
      ==> var before, after := Flushing(x).snd, AfterExchange(x, y).snd;
          after.nxt - after.una < before.nxt - before.una
  {
    hide FlushState, FeedAll, NothingLost, SentOk, ForthOk, BackOk, HeldOk;
    Connection.RunOk(ca, cb, steps);
    var s := Connection.Run(ca, cb, steps);
    var x, y := s.a.cb, s.b.cb;
    MssPositive(x);
    MssPositive(y);
    if x.clk.updated && y.clk.updated && AllDue(x) && |y.rcv.queue| < cb.rcvWnd && Flushing(x).snd.una < Flushing(x).snd.nxt {
      FlushSender(x, s.a.log, y.rcv);
      ExchangeProgress(x, y);
    }
  }
}
