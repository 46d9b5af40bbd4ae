/** Two endpoints and a network that may drop, duplicate, delay and reorder datagrams: the
    network keeps every datagram ever emitted, and any of them may be delivered at any time.
    It may also blank data segments of the copy it delivers, leaving their headers. */
module Connection {
  import opened Numbers
  import opened Wire
  import opened SendWindow
  import opened ReceiveWindow
  import opened Fragments
  import opened Timers
  import opened Packing
  import opened Transmission
  import opened Kcp
  import opened Invariants
  import opened Wraparound
  import opened Delivery

  /** An endpoint with its history: the fragments numbered so far, what the application handed
      over (whole accepted messages, and all bytes taken in), what the application received, and
      every datagram emitted with the clock at that moment. */
  datatype Peer = Peer(cb: Cb, log: seq<Frag>, accepted: seq<Message>, absorbed: Bytes,
                       delivered: seq<Message>, out: Network, sentAt: seq<nat>)

  datatype Event =
    | SendEvent(data: Bytes)
    | UpdateEvent(now: nat)
    | DeliverEvent(k: nat)
    | DeliverBlanked(k: nat, blank: set<nat>)
    | RecvEvent(len: int)

  function NewPeer(c: Config): Peer { Peer(Create(c), [], [], [], [], [], []) }

  function AfterSend(x: Peer, data: Bytes): Peer
    requires x.cb.cfg.mss > 0
  {
    var r := SendOn(x.cb, data);
    var taken := if r.code == 0 then |data|
                 else if x.cb.cfg.stream then Min(|data|, Room(x.cb.cfg.mss, x.cb.snd.queue)) else 0;
    x.(cb := r.cb, accepted := x.accepted + if r.code == 0 then [data] else [],
       absorbed := x.absorbed + data[..taken])
  }

  function Stamps(n: nat, clock: nat): (r: seq<nat>)
    ensures |r| == n && forall i :: 0 <= i < n ==> r[i] == clock
  {
    seq(n, _ => clock)
  }

  function AfterFlushing(x: Peer): Peer {
    var f := Flush(Unbounded, x.cb);
    x.(cb := f.cb, log := x.log + ToNumber(x.cb), out := x.out + f.out,
       sentAt := x.sentAt + Stamps(|f.out|, x.cb.clk.current))
  }

  function AfterUpdate(x: Peer, now: nat): Peer {
    var t := Advance(x.cb.cfg.interval, x.cb.clk, U32(now));
    var y := x.(cb := x.cb.(clk := t.clk));
    if t.flush then AfterFlushing(y) else y
  }

  function AfterDeliver(x: Peer, d: seq<Packet>): Peer
    requires x.cb.cfg.mss > 0
  {
    x.(cb := Input(Unbounded, x.cb, d, 0))
  }

  function AfterRecv(x: Peer, len: int): Peer {
    var r := RecvOn(Unbounded, x.cb, len);
    x.(cb := r.cb, delivered := x.delivered + if r.code >= 0 && len >= 0 then [r.data] else [])
  }

  /** A datagram some of whose data segments count for their headers only. */
  function Blanked(d: seq<Packet>, blank: set<nat>): (r: seq<Packet>)
    ensures |r| == |d|
  {
    seq(|d|, i requires 0 <= i < |d| => if i in blank then Blank(d[i]) else d[i])
  }

  /** One step of endpoint x; net is what the other end has emitted. */
  function PeerStep(x: Peer, net: Network, e: Event): (x': Peer)
    requires x.cb.cfg.mss > 0
    ensures x'.cb.cfg == x.cb.cfg
  {
    match e
    case SendEvent(data) => AfterSend(x, data)
    case UpdateEvent(now) => AfterUpdate(x, now)
    case DeliverEvent(k) =>
      if k < |net| then
        InputKeepsConfig(Unbounded, x.cb, net[k]);
        AfterDeliver(x, net[k])
      else x
    case DeliverBlanked(k, blank) =>
      if k < |net| then
        InputKeepsConfig(Unbounded, x.cb, Blanked(net[k], blank));
        AfterDeliver(x, Blanked(net[k], blank))
      else x
    case RecvEvent(len) => AfterRecv(x, len)
  }

  datatype Sys = Sys(a: Peer, b: Peer)

  datatype Step = Step(onA: bool, event: Event)

  function SysStep(s: Sys, step: Step): (s': Sys)
    requires s.a.cb.cfg.mss > 0 && s.b.cb.cfg.mss > 0
    ensures s'.a.cb.cfg == s.a.cb.cfg && s'.b.cb.cfg == s.b.cb.cfg
  {
    if step.onA then s.(a := PeerStep(s.a, s.b.out, step.event)) else s.(b := PeerStep(s.b, s.a.out, step.event))
  }

  function Run(ca: Config, cb: Config, steps: seq<Step>): (s: Sys)
    requires ca.mss > 0 && cb.mss > 0
    ensures s.a.cb.cfg == ca && s.b.cb.cfg == cb
  {
    if |steps| == 0 then Sys(NewPeer(ca), NewPeer(cb))
    else SysStep(Run(ca, cb, steps[..|steps| - 1]), steps[|steps| - 1])
  }

  // ---- the invariant of one direction, from x to y ----

  predicate PlausibleNet(net: Network) {
    forall d, p :: d in net && p in d ==> Plausible(p)
  }

  predicate Direction(x: Peer, y: Peer) {
    && SentOk(x.cb.snd, x.log)
    && ForthOk(x.log, x.out)
    && BackOk(y.cb.rcv, y.out)
    && HeldOk(y.cb.rcv, x.log)
    && NothingLost(x.cb.snd, y.cb.rcv)
  }

  predicate PeerOk(x: Peer) { CbOk(x.cb) && PlausibleNet(x.out) }

  predicate SysOk(s: Sys) {
    PeerOk(s.a) && PeerOk(s.b) && Direction(s.a, s.b) && Direction(s.b, s.a)
  }

  // ---- every step keeps it ----

  lemma SendStep(x: Peer, y: Peer, data: Bytes)
    requires PeerOk(x) && Direction(x, y) && Direction(y, x)
    ensures var x' := AfterSend(x, data); PeerOk(x') && Direction(x', y) && Direction(y, x')
  {
    hide CbOk, HeldOk, ForthOk, BackOk, PlausibleNet, Send, HasSn, Received;
    MssPositive(x.cb);
    SendKeeps(x.cb, data);
  }

  lemma RecvReceiver(x: Cb, len: int, log: seq<Frag>)
    requires CbOk(x) && HeldOk(x.rcv, log)
    ensures var r := RecvOn(Unbounded, x, len).cb.rcv; HeldOk(r, log) && Grows(x.rcv, r)
  {
    hide MessageEnd, Merge, PeekSize, Received;
    var wnd, k := x.cfg.rcvWnd, if len < 0 then 0 else MessageEnd(x.rcv.queue);
    TakeKeeps(wnd, x.rcv, k);
    forall sn: nat ensures Received(Take(Unbounded, wnd, x.rcv, k), sn) <==> Received(x.rcv, sn) {
      TakeReceived(wnd, x.rcv, k, sn);
    }
    var r := Take(Unbounded, wnd, x.rcv, k);
    forall s | s in r.queue + r.buf ensures Logged(log, s.sn, s.frag) {
      assert s in x.rcv.queue[k..] + x.rcv.buf;
      assert s in x.rcv.queue + x.rcv.buf;
    }
    NextLogged(r, wnd, log);
  }

  lemma RecvStep(x: Peer, y: Peer, len: int)
    requires PeerOk(x) && Direction(x, y) && Direction(y, x)
    ensures var x' := AfterRecv(x, len); PeerOk(x') && Direction(x', y) && Direction(y, x')
  {
    hide CbOk, HeldOk, NothingLost, ForthOk, BackOk, SentOk, PlausibleNet, Recv, Grows;
    RecvKeeps(x.cb, len);
    RecvReceiver(x.cb, len, y.log);
    var x' := AfterRecv(x, len);
    BackGrows(x.cb.rcv, x'.cb.rcv, x.out);
    LostGrows(y.cb.snd, x.cb.rcv, x'.cb.rcv);
  }

  /** What a datagram of y, or a blanked copy of it, says is plausible, logged and true. */
  predicate Trusted(y: Peer, d: seq<Packet>) {
    forall p :: p in d ==> Plausible(p) && AckOk(y.cb.rcv, p) && PushOk(y.log, p)
  }

  lemma NetTrusted(x: Peer, y: Peer, d: seq<Packet>, blank: set<nat>)
    requires PeerOk(y) && Direction(x, y) && Direction(y, x) && d in y.out
    ensures Trusted(y, d) && Trusted(y, Blanked(d, blank))
  {
    hide CbOk, HeldOk, NothingLost, SentOk, Received, Logged;
    assert forall p :: p in d ==> AckOk(y.cb.rcv, p) && PushOk(y.log, p);
    forall q | q in Blanked(d, blank) ensures Plausible(q) && AckOk(y.cb.rcv, q) && PushOk(y.log, q) {
      var i :| 0 <= i < |d| && Blanked(d, blank)[i] == q;
      assert d[i] in d;
    }
  }

  lemma DeliverStep(x: Peer, y: Peer, d: seq<Packet>)
    requires PeerOk(x) && PeerOk(y) && Direction(x, y) && Direction(y, x) && Trusted(y, d)
    requires x.cb.cfg.mss > 0
    ensures var x' := AfterDeliver(x, d); PeerOk(x') && Direction(x', y) && Direction(y, x')
  {
    hide CbOk, HeldOk, NothingLost, SentOk, Input, Grows, AckOk, PushOk, Plausible;
    DeliverKeeps(x.cb, d, x.log, y.cb.rcv, y.log);
    var x' := AfterDeliver(x, d);
    BackGrows(x.cb.rcv, x'.cb.rcv, x.out);
    LostGrows(y.cb.snd, x.cb.rcv, x'.cb.rcv);
  }

  lemma FlushNetwork(x: Peer, peerLog: seq<Frag>, r: Receiver)
    requires PeerOk(x) && x.cb.clk.updated
    requires SentOk(x.cb.snd, x.log) && ForthOk(x.log, x.out) && NothingLost(x.cb.snd, r) && HeldOk(r, x.log)
    requires BackOk(x.cb.rcv, x.out) && HeldOk(x.cb.rcv, peerLog)
    ensures var x' := AfterFlushing(x);
      && PeerOk(x') && SentOk(x'.cb.snd, x'.log) && ForthOk(x'.log, x'.out) && NothingLost(x'.cb.snd, r)
      && HeldOk(r, x'.log) && BackOk(x.cb.rcv, x'.out)
  {
    hide CbOk, HeldOk, NothingLost, SentOk, PushOk, AckOk, Plausible, FlushState, FlushPackets, ToNumber, Datagrams;
    var log' := x.log + ToNumber(x.cb);
    FlushKeeps(x.cb);
    FlushSender(x.cb, x.log, r);
    LogGrows(x.log, ToNumber(x.cb), x.out, r);
    FlushPacketsOk(x.cb, log', peerLog);
    var ds := Flush(Unbounded, x.cb).out;
    forall d, p | d in ds && p in d ensures Plausible(p) && PushOk(log', p) && AckOk(x.cb.rcv, p) {
      EmittedPackets(x.cb, d, p);
    }
  }

  /** Sending the acknowledgements empties the list and changes nothing else for the receiver. */
  lemma ClearedReceiver(r: Receiver, log: seq<Frag>, net: Network, s: Sender)
    requires HeldOk(r, log) && BackOk(r, net) && NothingLost(s, r)
    ensures var r' := r.(acks := []); HeldOk(r', log) && BackOk(r', net) && NothingLost(s, r')
  {
    var r' := r.(acks := []);
    forall sn: nat ensures Received(r', sn) <==> Received(r, sn) {
    }
    assert Grows(r, r');
    BackGrows(r, r', net);
    LostGrows(s, r, r');
  }

  lemma FlushStep(x: Peer, y: Peer)
    requires PeerOk(x) && Direction(x, y) && Direction(y, x) && x.cb.clk.updated
    ensures var x' := AfterFlushing(x); PeerOk(x') && Direction(x', y) && Direction(y, x')
  {
    hide CbOk, HeldOk, NothingLost, SentOk, ForthOk, BackOk, PlausibleNet, ToNumber, Datagrams, FlushPackets,
      SweptBuf, Numbered, SendLimit, Chosen, LinkDead, ProbeStep;
    FlushNetwork(x, y.log, y.cb.rcv);
    var x' := AfterFlushing(x);
    ClearedReceiver(x.cb.rcv, y.log, x'.out, y.cb.snd);
  }

  lemma UpdateStep(x: Peer, y: Peer, now: nat)
    requires PeerOk(x) && Direction(x, y) && Direction(y, x)
    ensures var x' := AfterUpdate(x, now); PeerOk(x') && Direction(x', y) && Direction(y, x')
  {
    hide SentOk, HeldOk, NothingLost, ForthOk, BackOk, PlausibleNet, AfterFlushing, TimeDiff;
    var t := Advance(x.cb.cfg.interval, x.cb.clk, U32(now));
    var z := x.(cb := x.cb.(clk := t.clk));
    assert PeerOk(z) && Direction(z, y) && Direction(y, z);
    if t.flush {
      FlushStep(z, y);
    }
  }

  lemma PeerStepKeeps(x: Peer, y: Peer, e: Event)
    requires PeerOk(x) && PeerOk(y) && Direction(x, y) && Direction(y, x) && x.cb.cfg.mss > 0
    ensures var x' := PeerStep(x, y.out, e); PeerOk(x') && Direction(x', y) && Direction(y, x')
  {
    hide PeerOk, Direction, AfterSend, AfterUpdate, AfterDeliver, AfterRecv, Trusted;
    match e
    case SendEvent(data) => SendStep(x, y, data);
    case UpdateEvent(now) => UpdateStep(x, y, now);
    case DeliverEvent(k) =>
      if k < |y.out| {
        NetTrusted(x, y, y.out[k], {});
        DeliverStep(x, y, y.out[k]);
      }
    case DeliverBlanked(k, blank) =>
      if k < |y.out| {
        NetTrusted(x, y, y.out[k], blank);
        DeliverStep(x, y, Blanked(y.out[k], blank));
      }
    case RecvEvent(len) => RecvStep(x, y, len);
  }

  lemma NewSysOk(ca: Config, cb: Config)
    requires ConfigOk(ca) && ConfigOk(cb)
    ensures SysOk(Sys(NewPeer(ca), NewPeer(cb)))
  {
    hide CbOk, ConfigOk;
    CreateOk(ca);
    CreateOk(cb);
  }

  /** In every run: both control blocks meet their invariants, every datagram ever emitted
      carries only logged data and true acknowledgements, and no segment is lost. */
  lemma {:induction false} RunOk(ca: Config, cb: Config, steps: seq<Step>)
    requires ConfigOk(ca) && ConfigOk(cb)
    ensures SysOk(Run(ca, cb, steps))
  {
    hide PeerOk, Direction, PeerStep;
    if |steps| == 0 {
      NewSysOk(ca, cb);
    } else {
      var n := |steps| - 1;
      RunOk(ca, cb, steps[..n]);
      var s := Run(ca, cb, steps[..n]);
      if steps[n].onA {
        PeerStepKeeps(s.a, s.b, steps[n].event);
      } else {
        PeerStepKeeps(s.b, s.a, steps[n].event);
      }
    }
  }

  /** Read off for one number: each sn below snd_nxt is still in snd_buf, or the peer has it in
      rcv_buf, or it was queued for or taken by the peer's application. */
  lemma NoSegmentLost(ca: Config, cb: Config, steps: seq<Step>, sn: nat)
    requires ConfigOk(ca) && ConfigOk(cb)
    requires var s := Run(ca, cb, steps); sn < s.a.cb.snd.nxt
    ensures var s := Run(ca, cb, steps);
      HasSn(s.a.cb.snd.buf, sn) || sn < s.b.cb.rcv.nxt || Waiting(s.b.cb.rcv.buf, sn)
  {
    RunOk(ca, cb, steps);
    var s := Run(ca, cb, steps);
    assert HasSn(s.a.cb.snd.buf, sn) || Received(s.b.cb.rcv, sn);
  }
}
