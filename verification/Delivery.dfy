/** One direction of a connection: how a step of either end keeps the sender's log, the
    network and the receiver's buffers in agreement. */
module Delivery {
  import opened Numbers
  import opened Wire
  import opened SendWindow
  import opened ReceiveWindow
  import opened Congestion
  import opened Timers
  import opened Packing
  import opened Transmission
  import opened Kcp
  import opened Invariants

  type Network = seq<seq<Packet>>

  /** The segment numbered sn carries the sn-th fragment of the log. */
  predicate Logged(log: seq<Frag>, sn: nat, f: Frag) {
    sn < |log| && log[sn] == f
  }

  predicate SentOk(s: Sender, log: seq<Frag>) {
    && |log| == s.nxt
    && (forall g :: g in s.buf ==> Logged(log, g.sn, g.frag))
  }

  /** Every copy of a data segment on the network is the logged one. */
  predicate PushOk(log: seq<Frag>, p: Packet) {
    p.cmd == CMD_PUSH ==> Logged(log, p.sn, Frag(p.frg, p.data))
  }

  predicate ForthOk(log: seq<Frag>, net: Network) {
    forall d, p :: d in net && p in d ==> PushOk(log, p)
  }

  /** A packet acknowledges only what its sender has received. */
  predicate AckOk(r: Receiver, p: Packet) {
    && p.una <= r.nxt
    && (p.cmd == CMD_ACK ==> Received(r, p.sn))
  }

  predicate BackOk(r: Receiver, net: Network) {
    forall d, p :: d in net && p in d ==> AckOk(r, p)
  }

  /** What the receiver holds is what was logged, and its pending acknowledgements are true. */
  predicate HeldOk(r: Receiver, log: seq<Frag>) {
    && r.nxt <= |log|
    && (forall x :: x in r.queue + r.buf ==> Logged(log, x.sn, x.frag))
    && (forall a :: a in r.acks ==> Received(r, a.sn))
  }

  /** No segment is lost: each numbered one is still to be acknowledged or has been received. */
  predicate NothingLost(s: Sender, r: Receiver) {
    forall sn: nat :: sn < s.nxt ==> HasSn(s.buf, sn) || Received(r, sn)
  }

  ghost predicate Grows(r: Receiver, r': Receiver) {
    && r.nxt <= r'.nxt
    && (forall sn: nat :: Received(r, sn) ==> Received(r', sn))
  }

  lemma BackGrows(r: Receiver, r': Receiver, net: Network)
    requires BackOk(r, net) && Grows(r, r')
    ensures BackOk(r', net)
  {
    hide Received;
    forall d, p | d in net && p in d ensures AckOk(r', p) {
      assert AckOk(r, p);
    }
  }

  lemma LostGrows(s: Sender, r: Receiver, r': Receiver)
    requires NothingLost(s, r) && Grows(r, r')
    ensures NothingLost(s, r')
  {
    hide Received, HasSn;
  }

  lemma HasSnIn(buf: seq<OutSeg>, sn: nat)
    ensures HasSn(buf, sn) <==> exists g :: g in buf && g.sn == sn
  {
    if g :| g in buf && g.sn == sn {
      var i :| 0 <= i < |buf| && buf[i] == g;
      assert buf[i].sn == sn;
    }
    if HasSn(buf, sn) {
      var i :| 0 <= i < |buf| && buf[i].sn == sn;
      assert buf[i] in buf;
    }
  }

  // ---- incoming packets ----

  /** The sending half of ikcp_input: only acknowledged segments leave snd_buf. */
  lemma InputSender(x: Cb, p: Packet, log: seq<Frag>, r: Receiver)
    requires CbOk(x) && Plausible(p) && AckOk(r, p)
    requires SentOk(x.snd, log) && NothingLost(x.snd, r)
    ensures var s := InputPacket(Unbounded, x, p).snd; SentOk(s, log) && NothingLost(s, r)
  {
    hide CbOk, InputPacket, Received, HasSn, Logged;
    InputPacketKeeps(x, p);
    var s := InputPacket(Unbounded, x, p).snd;
    forall sn: nat | sn < s.nxt ensures HasSn(s.buf, sn) || Received(r, sn) {
      HasSnIn(x.snd.buf, sn);
      HasSnIn(s.buf, sn);
      if sn < p.una {
        BelowNext(r, sn);
      }
    }
  }

  lemma BelowNext(r: Receiver, sn: nat)
    requires sn < r.nxt
    ensures Received(r, sn)
  {
  }

  /** The receiving half: accepted data is logged data, every acknowledgement it queues is
      true, and nothing received is forgotten. */
  lemma AcceptHeld(wnd: nat, r: Receiver, p: Packet, log: seq<Frag>)
    requires ReceiverOk(r, wnd) && HeldOk(r, log) && p.cmd == CMD_PUSH && PushOk(log, p)
    ensures var r' := AcceptPush(Unbounded, wnd, r, p.sn, p.ts, Frag(p.frg, p.data));
      HeldOk(r', log) && Grows(r, r')
  {
    hide AcceptPush, Received;
    var f := Frag(p.frg, p.data);
    var r' := AcceptPush(Unbounded, wnd, r, p.sn, p.ts, f);
    AcceptPushKeeps(wnd, r, p.sn, p.ts, f);
    forall sn: nat ensures Received(r', sn) <==> Received(r, sn) || (sn == p.sn && r.nxt <= sn < r.nxt + wnd) {
      AcceptPushReceived(wnd, r, p.sn, p.ts, f, sn);
    }
    forall a | a in r'.acks ensures Received(r', a.sn) {
      if a !in r.acks && p.sn < r.nxt {
        BelowNext(r', p.sn);
      }
    }
    NextLogged(r', wnd, log);
  }

  lemma NextLogged(r: Receiver, wnd: nat, log: seq<Frag>)
    requires ReceiverOk(r, wnd) && Taken(r) <= |log|
    requires forall x :: x in r.queue + r.buf ==> Logged(log, x.sn, x.frag)
    ensures r.nxt <= |log|
  {
    if |r.queue| > 0 {
      var last := r.queue[|r.queue| - 1];
      assert last in r.queue + r.buf;
      assert last.sn == r.nxt - 1;
    }
  }

  lemma InputReceiver(x: Cb, p: Packet, log: seq<Frag>)
    requires CbOk(x) && PushOk(log, p) && HeldOk(x.rcv, log)
    ensures var r := InputPacket(Unbounded, x, p).rcv; HeldOk(r, log) && Grows(x.rcv, r)
  {
    hide AcceptPush, AcceptUna, AcceptAck, SampleRtt;
    if p.cmd == CMD_PUSH {
      AcceptHeld(x.cfg.rcvWnd, x.rcv, p, log);
    }
  }

  /** A whole datagram of the other end, packet by packet. */
  lemma {:induction false} InputDatagram(x: Cb, ps: seq<Packet>, log: seq<Frag>, r: Receiver, peerLog: seq<Frag>)
    requires CbOk(x)
    requires forall p :: p in ps ==> Plausible(p) && AckOk(r, p) && PushOk(peerLog, p)
    requires SentOk(x.snd, log) && NothingLost(x.snd, r) && HeldOk(x.rcv, peerLog)
    ensures var x' := InputPackets(Unbounded, x, ps);
      && CbOk(x') && SentOk(x'.snd, log) && NothingLost(x'.snd, r)
      && HeldOk(x'.rcv, peerLog) && Grows(x.rcv, x'.rcv)
  {
    hide CbOk, SentOk, NothingLost, HeldOk, AckOk, PushOk, Plausible, Received, InputPacket;
    if |ps| > 0 {
      var n := |ps| - 1;
      var p := ps[n];
      InputDatagram(x, ps[..n], log, r, peerLog);
      var y := InputPackets(Unbounded, x, ps[..n]);
      InputPacketKeeps(y, p);
      InputSender(y, p, log, r);
      InputReceiver(y, p, peerLog);
    }
  }

  lemma FinishSender(x: Cb, prevUna: nat, a: MaxAck, log: seq<Frag>, r: Receiver)
    requires CbOk(x) && SentOk(x.snd, log) && NothingLost(x.snd, r)
    ensures var s := FinishInput(Unbounded, x, prevUna, a).snd; SentOk(s, log) && NothingLost(s, r)
  {
    hide CbOk, FinishInput, Received;
    MssPositive(x);
    FinishKeeps(x, prevUna, a);
    var s := FinishInput(Unbounded, x, prevUna, a).snd;
    forall g | g in s.buf ensures Logged(log, g.sn, g.frag) {
      var i :| 0 <= i < |s.buf| && s.buf[i] == g;
      assert x.snd.buf[i] in x.snd.buf;
    }
    forall sn: nat | sn < s.nxt ensures HasSn(s.buf, sn) || Received(r, sn) {
      if HasSn(x.snd.buf, sn) {
        var i :| 0 <= i < |x.snd.buf| && x.snd.buf[i].sn == sn;
        assert s.buf[i].sn == sn;
      }
    }
  }

  /** ikcp_input of any datagram the other end ever emitted. */
  lemma DeliverKeeps(x: Cb, d: seq<Packet>, log: seq<Frag>, r: Receiver, peerLog: seq<Frag>)
    requires CbOk(x)
    requires forall p :: p in d ==> Plausible(p) && AckOk(r, p) && PushOk(peerLog, p)
    requires SentOk(x.snd, log) && NothingLost(x.snd, r) && HeldOk(x.rcv, peerLog)
    ensures var x' := Input(Unbounded, x, d, 0);
      && CbOk(x') && SentOk(x'.snd, log) && NothingLost(x'.snd, r)
      && HeldOk(x'.rcv, peerLog) && Grows(x.rcv, x'.rcv)
  {
    hide CbOk, SentOk, NothingLost, HeldOk, AckOk, PushOk, Plausible, Received, InputPackets, FinishInput, LargestAck, Grows;
    InputDatagram(x, d, log, r, peerLog);
    InputPacketsKeep(x, d);
    InputKeeps(x, d, 0);
    var y, a := InputPackets(Unbounded, x, d), LargestAck(Unbounded, d);
    MssPositive(y);
    FinishSender(y, x.snd.una, a, log, r);
    FinishFrame(y, x.snd.una, a);
  }

  // ---- ikcp_flush ----

  /** The fragments a flush is going to number. */
  function ToNumber(cb: Cb): seq<Frag> {
    cb.snd.queue[..MoveCount(cb.snd, SendLimit(cb))]
  }

  lemma FlushSender(x: Cb, log: seq<Frag>, r: Receiver)
    requires CbOk(x) && x.clk.updated && SentOk(x.snd, log) && NothingLost(x.snd, r)
    ensures var s := FlushState(Unbounded, x).snd;
      && SentOk(s, log + ToNumber(x)) && NothingLost(s, r)
      && ToNumber(x) + s.queue == x.snd.queue
  {
    hide CbOk, Received, MoveToBuf, Choose, Resend, Numbered, SendLimit, AfterFlush, ProbeStep;
    NumberedKeeps(x);
    var n, p := Numbered(Unbounded, x), SendingOf(x);
    var moved := ToNumber(x);
    ResendFrame(p, n.buf);
    var s := FlushState(Unbounded, x).snd;
    forall i | 0 <= i < |s.buf| ensures Logged(log + moved, s.buf[i].sn, s.buf[i].frag) {
      if i < |x.snd.buf| {
        assert n.buf[i] == x.snd.buf[i] && x.snd.buf[i] in x.snd.buf;
      } else {
        var j := i - |x.snd.buf|;
        assert n.buf[i] == NewSegment(x.snd.nxt + j, moved[j], x.rtt.rto, x.clk.current);
      }
    }
    forall sn: nat | sn < s.nxt ensures HasSn(s.buf, sn) || Received(r, sn) {
      if sn >= x.snd.nxt {
        var i := |x.snd.buf| + (sn - x.snd.nxt);
        assert n.buf[i].sn == sn && s.buf[i].sn == sn;
      } else if HasSn(x.snd.buf, sn) {
        var i :| 0 <= i < |x.snd.buf| && x.snd.buf[i].sn == sn;
        assert n.buf[i] == x.snd.buf[i] && s.buf[i].sn == sn;
      }
    }
  }

  /** What a flush emits: data as logged, acknowledgements as received. */
  lemma FlushPacketsOk(x: Cb, log: seq<Frag>, peerLog: seq<Frag>)
    requires CbOk(x) && x.clk.updated && SentOk(FlushState(Unbounded, x).snd, log) && HeldOk(x.rcv, peerLog)
    ensures forall p :: p in FlushPackets(Unbounded, x) ==> Plausible(p) && PushOk(log, p) && AckOk(x.rcv, p)
  {
    hide CbOk, MoveToBuf, Choose, Resend, Numbered, SendLimit, AfterFlush, ProbeStep, Received, HeldOk;
    FlushPacketsFit(x);
    var n, sp := Numbered(Unbounded, x), SendingOf(x);
    ResendFrame(sp, n.buf);
    forall p | p in FlushPackets(Unbounded, x) ensures Plausible(p) && PushOk(log, p) && AckOk(x.rcv, p) {
      SweptMembers(sp, n.buf, p);
      if p in SweptPackets(sp, n.buf) {
        var i :| 0 <= i < |n.buf| && p == DataPacket(sp, n.buf[i]);
        var g := FlushState(Unbounded, x).snd.buf[i];
        assert g in FlushState(Unbounded, x).snd.buf;
        assert g == Resend(sp, n.buf[i]) && Logged(log, g.sn, g.frag);
        assert p == DataPacket(sp, n.buf[i]);
      } else {
        assert p in ControlPackets(x.rcv, AnnouncedWnd(x), ProbeStep(x.probe, x.rmtWnd, x.clk.current));
        ControlPacketsTrue(x.rcv, peerLog, AnnouncedWnd(x), ProbeStep(x.probe, x.rmtWnd, x.clk.current), p);
      }
    }
  }

  lemma ControlPacketsTrue(r: Receiver, log: seq<Frag>, wnd: nat, probe: Probe, p: Packet)
    requires HeldOk(r, log) && p in ControlPackets(r, wnd, probe)
    ensures AckOk(r, p) && p.cmd != CMD_PUSH
  {
    hide Received, Logged;
    if p in AckPackets(r, wnd) {
      var i :| 0 <= i < |r.acks| && p == AckPackets(r, wnd)[i];
      assert r.acks[i] in r.acks;
    }
  }

  /** The datagrams of a flush carry exactly its segments. */
  lemma EmittedPackets(x: Cb, d: seq<Packet>, p: Packet)
    requires x.clk.updated && d in Flush(Unbounded, x).out && p in d
    ensures p in FlushPackets(Unbounded, x)
  {
    hide FlushPackets;
    var ds := Datagrams(x.cfg.mtu, FlushPackets(Unbounded, x));
    DatagramsConcat(x.cfg.mtu, FlushPackets(Unbounded, x));
    ConcatMembers(ds, p);
    var i :| 0 <= i < |ds| && ds[i] == d;
  }

  // ---- growth of the log ----

  lemma LogGrows(log: seq<Frag>, more: seq<Frag>, net: Network, r: Receiver)
    requires ForthOk(log, net) && HeldOk(r, log)
    ensures ForthOk(log + more, net) && HeldOk(r, log + more)
  {
    hide Received;
    forall d, p | d in net && p in d ensures PushOk(log + more, p) {
      assert PushOk(log, p);
    }
    forall x | x in r.queue + r.buf ensures Logged(log + more, x.sn, x.frag) {
      assert Logged(log, x.sn, x.frag);
    }
  }
}
