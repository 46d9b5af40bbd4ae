/** The two endpoints as they really run: 32-bit numbers, datagrams as bytes, encrypted and
    optionally checksummed.  Each step follows the step of the unbounded connection. */
module WireRun {
  import opened Numbers
  import opened Wire
  import opened MiscUtils
  import opened SendWindow
  import opened ReceiveWindow
  import opened Fragments
  import opened Timers
  import opened Packing
  import opened Transmission
  import opened Kcp
  import opened Invariants
  import opened Staleness
  import opened Wraparound
  import opened Delivery
  import opened Connection
  import opened EndToEnd

  /** An endpoint of the program; out is what it handed to its socket, sentAt its clock then. */
  datatype Host = Host(cb: Cb, accepted: seq<Message>, absorbed: Bytes, delivered: seq<Message>, out: seq<Bytes>,
                       sentAt: seq<nat>)

  function NewHost(c: Config): Host { Host(Create(c), [], [], [], [], []) }

  function SealAll(checksum: bool, conv: nat, ds: seq<seq<Packet>>): (r: seq<Bytes>)
    ensures |r| == |ds|
  {
    seq(|ds|, i requires 0 <= i < |ds| => Seal(checksum, EncodeAll(conv, ds[i])))
  }

  function HostSend(h: Host, data: Bytes): Host
    requires h.cb.cfg.mss > 0
  {
    var r := SendOn(h.cb, data);
    var taken := if r.code == 0 then |data|
                 else if h.cb.cfg.stream then Min(|data|, Room(h.cb.cfg.mss, h.cb.snd.queue)) else 0;
    h.(cb := r.cb, accepted := h.accepted + if r.code == 0 then [data] else [],
       absorbed := h.absorbed + data[..taken])
  }

  function HostUpdate(checksum: bool, h: Host, now: nat): Host {
    var f := Update(Wrapped, h.cb, U32(now));
    h.(cb := f.cb, out := h.out + SealAll(checksum, h.cb.cfg.conv, f.out),
       sentAt := h.sentAt + Stamps(|f.out|, U32(now)))
  }

  /** The feed loop: check, decrypt, ikcp_input. */
  function HostFeed(checksum: bool, h: Host, w: Bytes): Host
    requires h.cb.cfg.mss > 0
  {
    match Open(checksum, w)
    case None => h
    case Some(d) => h.(cb := InputBytes(h.cb, d).cb)
  }

  function HostRecv(h: Host, len: int): Host {
    var r := RecvOn(Wrapped, h.cb, len);
    h.(cb := r.cb, delivered := h.delivered + if r.code >= 0 && len >= 0 then [r.data] else [])
  }

  function HostDeliver(checksum: bool, h: Host, net: seq<Bytes>, k: nat): (h': Host)
    requires h.cb.cfg.mss > 0
    ensures h'.cb.cfg == h.cb.cfg
  {
    if k < |net| then
      FeedConfig(checksum, h, net[k]);
      HostFeed(checksum, h, net[k])
    else h
  }

  /** One step of the program; bytes cannot be blanked. */
  function HostStep(checksum: bool, h: Host, net: seq<Bytes>, e: Event): (h': Host)
    requires h.cb.cfg.mss > 0
    ensures h'.cb.cfg == h.cb.cfg
  {
    match e
    case SendEvent(data) => HostSend(h, data)
    case UpdateEvent(now) => HostUpdate(checksum, h, now)
    case DeliverEvent(k) => HostDeliver(checksum, h, net, k)
    case DeliverBlanked(k, _) => HostDeliver(checksum, h, net, k)
    case RecvEvent(len) => HostRecv(h, len)
  }

  lemma FeedConfig(checksum: bool, h: Host, w: Bytes)
    requires h.cb.cfg.mss > 0
    ensures HostFeed(checksum, h, w).cb.cfg == h.cb.cfg
  {
    match Open(checksum, w)
    case None =>
    case Some(d) => InputKeepsConfig(Wrapped, h.cb, Parse(h.cb.cfg.conv, d).packets);
  }

  datatype Hosts = Hosts(a: Host, b: Host)

  function RunHosts(checksum: bool, ca: Config, cb: Config, steps: seq<Step>): (s: Hosts)
    requires ca.mss > 0 && cb.mss > 0
    ensures s.a.cb.cfg == ca && s.b.cb.cfg == cb
  {
    if |steps| == 0 then Hosts(NewHost(ca), NewHost(cb))
    else
      var s := RunHosts(checksum, ca, cb, steps[..|steps| - 1]);
      var e := steps[|steps| - 1];
      if e.onA then s.(a := HostStep(checksum, s.a, s.b.out, e.event))
      else s.(b := HostStep(checksum, s.b, s.a.out, e.event))
  }

  // ---- every datagram of the ideal connection can be encoded ----

  predicate EncodableNet(net: Network) {
    && (forall d :: d in net ==> |d| > 0)
    && (forall d, p :: d in net && p in d ==> Encodable(WrapPacket(p)))
  }

  lemma FlushEncodable(x: Cb)
    requires CbOk(x)
    ensures EncodableNet(Flush(Unbounded, x).out)
  {
    if x.clk.updated {
      hide CbOk, FlushPackets, Datagrams;
      FlushPacketsFit(x);
      MtuBound(x);
      DatagramsSized(x.cfg.mtu, FlushPackets(Unbounded, x));
      var ds := Flush(Unbounded, x).out;
      forall d, p | d in ds && p in d ensures Encodable(WrapPacket(p)) {
        EmittedPackets(x, d, p);
      }
      forall d | d in ds ensures |d| > 0 {
        var i :| 0 <= i < |ds| && ds[i] == d;
        assert Sized(x.cfg.mtu, ds[i]);
      }
    }
  }

  lemma MtuBound(x: Cb)
    requires CbOk(x)
    ensures x.cfg.mss < TWO31
  {
  }

  lemma StepEncodable(x: Peer, net: Network, e: Event)
    requires PeerOk(x) && EncodableNet(x.out) && x.cb.cfg.mss > 0
    ensures EncodableNet(PeerStep(x, net, e).out)
  {
    hide Encodable, Flush, Advance, Input, SendOn, RecvOn, ToNumber;
    match e
    case SendEvent(data) =>
    case DeliverEvent(k) =>
    case DeliverBlanked(k, blank) =>
    case RecvEvent(len) =>
    case UpdateEvent(now) =>
      var t := Advance(x.cb.cfg.interval, x.cb.clk, U32(now));
      var c := x.cb.(clk := t.clk);
      TickOk(x.cb, now);
      FlushEncodable(c);
  }

  lemma {:induction false} RunEncodable(ca: Config, cb: Config, steps: seq<Step>)
    requires ConfigOk(ca) && ConfigOk(cb)
    ensures EncodableNet(Run(ca, cb, steps).a.out) && EncodableNet(Run(ca, cb, steps).b.out)
  {
    hide PeerOk, Direction, PeerStep, EncodableNet;
    if |steps| == 0 {
      assert EncodableNet([]) by { EmptyEncodable(); }
    } else {
      var n := |steps| - 1;
      RunEncodable(ca, cb, steps[..n]);
      RunOk(ca, cb, steps[..n]);
      var s := Run(ca, cb, steps[..n]);
      StepEncodable(s.a, s.b.out, steps[n].event);
      StepEncodable(s.b, s.a.out, steps[n].event);
    }
  }

  lemma EmptyEncodable()
    ensures EncodableNet([])
  {
  }

  // ---- the simulation ----

  predicate Stands(checksum: bool, h: Host, x: Peer) {
    && h.cb == WrapCb(x.cb)
    && h.accepted == x.accepted && h.absorbed == x.absorbed && h.delivered == x.delivered
    && h.out == SealAll(checksum, x.cb.cfg.conv, WrapAll(x.out)) && h.sentAt == x.sentAt
  }

  /** Feeding a datagram from the wire decodes exactly the segments that were sent. */
  lemma FeedFollows(checksum: bool, h: Host, x: Peer, d: seq<Packet>)
    requires Stands(checksum, h, x) && CbOk(x.cb) && |d| > 0
    requires (forall p :: p in d ==> Plausible(p) && Encodable(WrapPacket(p))) && LegibleAll(x.cb, d)
    requires x.cb.cfg.mss > 0
    ensures Stands(checksum, HostFeed(checksum, h, Seal(checksum, EncodeAll(x.cb.cfg.conv, WrapPackets(d)))), AfterDeliver(x, HeardAll(x.cb, d)))
  {
    hide CbOk, Input, LegibleAll, HeardAll, SomeBlanked, Encodable, Plausible, Seal, Open, Parse, SealAll, WrapAll, WrapCb, EncodeAll;
    var conv, ps := x.cb.cfg.conv, WrapPackets(d);
    var bytes := EncodeAll(conv, ps);
    ConvBound(x.cb);
    forall p | p in ps ensures Encodable(p) {
      var i :| 0 <= i < |ps| && ps[i] == p;
      assert d[i] in d;
    }
    EncodedNonempty(conv, ps);
    OpenSeal(checksum, bytes);
    ParseRoundTrip(conv, ps);
    InputWraps(x.cb, d, 0);
    HeardIsBlanked(x.cb, d);
    BlankedPlausible(d, HeardAll(x.cb, d));
    InputKeeps(x.cb, HeardAll(x.cb, d), 0);
    WrapConfig(x.cb);
    assert InputBytes(h.cb, bytes).cb == Input(Wrapped, WrapCb(x.cb), ps, 0);
  }

  lemma WrapConfig(x: Cb)
    ensures WrapCb(x).cfg == x.cfg
  {
  }

  lemma ConvBound(x: Cb)
    requires CbOk(x)
    ensures x.cfg.conv < TWO32
  {
  }

  lemma EncodedNonempty(conv: nat, ps: seq<Packet>)
    requires |ps| > 0
    ensures |EncodeAll(conv, ps)| >= OVERHEAD
  {
  }

  lemma SealAppend(checksum: bool, conv: nat, a: Network, b: Network)
    ensures SealAll(checksum, conv, WrapAll(a + b)) == SealAll(checksum, conv, WrapAll(a)) + SealAll(checksum, conv, WrapAll(b))
  {
    hide Seal, EncodeAll, WrapPackets;
  }

  lemma UpdateFollows(checksum: bool, h: Host, x: Peer, now: nat)
    requires Stands(checksum, h, x) && CbOk(x.cb)
    ensures Stands(checksum, HostUpdate(checksum, h, now), AfterUpdate(x, now))
  {
    hide CbOk, SealAll, WrapAll, Flush, Advance, ToNumber, Stamps;
    ClockRead(x.cb, now);
    UpdateWraps(x.cb, U32(now));
    var f := Update(Unbounded, x.cb, U32(now));
    SealAppend(checksum, x.cb.cfg.conv, x.out, f.out);
    FlushConfig(x.cb.(clk := Advance(x.cb.cfg.interval, x.cb.clk, U32(now)).clk));
    if !Advance(x.cb.cfg.interval, x.cb.clk, U32(now)).flush {
      assert x.out + [] == x.out && x.sentAt + [] == x.sentAt;
    }
  }

  lemma ClockRead(x: Cb, now: nat)
    ensures Advance(x.cfg.interval, x.clk, U32(now)).clk.current == U32(now)
  {
  }

  lemma FlushConfig(x: Cb)
    ensures Flush(Unbounded, x).cb.cfg == x.cfg
  {
  }

  /** The data segments of d that are too old to be heard. */
  function BlankSet(cb: Cb, d: seq<Packet>): set<nat> {
    set i | 0 <= i < |d| && HeardAll(cb, d)[i] != d[i]
  }

  lemma BlankedIsHeard(cb: Cb, d: seq<Packet>)
    ensures Blanked(d, BlankSet(cb, d)) == HeardAll(cb, d)
  {
    hide HeardAll;
    HeardIsBlanked(cb, d);
  }

  /** The step of the unbounded connection that a step of the program stands for. */
  function IdealEvent(x: Cb, net: Network, e: Event): Event {
    match e
    case SendEvent(_) => e
    case UpdateEvent(_) => e
    case RecvEvent(_) => e
    case DeliverEvent(k) => if k < |net| then DeliverBlanked(k, BlankSet(x, net[k])) else e
    case DeliverBlanked(k, _) => if k < |net| then DeliverBlanked(k, BlankSet(x, net[k])) else e
  }

  lemma DeliverFollows(checksum: bool, h: Host, x: Peer, net: seq<Bytes>, ideal: Network, conv: nat, k: nat)
    requires Stands(checksum, h, x) && PeerOk(x) && x.cb.cfg.mss > 0
    requires net == SealAll(checksum, conv, WrapAll(ideal)) && conv == x.cb.cfg.conv
    requires PlausibleNet(ideal) && EncodableNet(ideal) && (k < |ideal| ==> LegibleAll(x.cb, ideal[k]))
    ensures Stands(checksum, HostDeliver(checksum, h, net, k), if k < |ideal| then AfterDeliver(x, HeardAll(x.cb, ideal[k])) else x)
  {
    hide CbOk, LegibleAll, Encodable, Plausible, Seal, EncodeAll, WrapPackets, HostFeed, AfterDeliver;
    if k < |ideal| {
      assert ideal[k] in ideal;
      FeedFollows(checksum, h, x, ideal[k]);
    }
  }

  lemma HostFollows(checksum: bool, h: Host, x: Peer, net: seq<Bytes>, ideal: Network, conv: nat, e: Event)
    requires Stands(checksum, h, x) && PeerOk(x) && x.cb.cfg.mss > 0
    requires net == SealAll(checksum, conv, WrapAll(ideal)) && conv == x.cb.cfg.conv
    requires PlausibleNet(ideal) && EncodableNet(ideal) && RecentEvent(x.cb, ideal, e)
    ensures Stands(checksum, HostStep(checksum, h, net, e), PeerStep(x, ideal, IdealEvent(x.cb, ideal, e)))
  {
    hide PeerOk, PlausibleNet, EncodableNet, LegibleAll, HostUpdate, AfterUpdate, HostDeliver, AfterDeliver, SendOn, RecvOn, BlankSet, Blanked, HeardAll;
    match e
    case SendEvent(data) =>
      SendWraps(x.cb, data);
    case UpdateEvent(now) =>
      assert CbOk(x.cb) by { PeerPart(x); }
      UpdateFollows(checksum, h, x, now);
    case DeliverEvent(k) =>
      DeliverFollows(checksum, h, x, net, ideal, conv, k);
      if k < |ideal| { BlankedIsHeard(x.cb, ideal[k]); }
    case DeliverBlanked(k, _) =>
      DeliverFollows(checksum, h, x, net, ideal, conv, k);
      if k < |ideal| { BlankedIsHeard(x.cb, ideal[k]); }
    case RecvEvent(len) =>
      assert CbOk(x.cb) by { PeerPart(x); }
      RecvWraps(x.cb, len);
  }

  lemma PeerPart(x: Peer)
    requires PeerOk(x)
    ensures CbOk(x.cb)
  {
  }

  /** The run of the unbounded connection that a run of the program stands for. */
  function IdealSteps(ca: Config, cb: Config, steps: seq<Step>): (r: seq<Step>)
    requires ca.mss > 0 && cb.mss > 0
    ensures |r| == |steps|
  {
    if |steps| == 0 then []
    else
      var front, e := IdealSteps(ca, cb, steps[..|steps| - 1]), steps[|steps| - 1];
      var s := Run(ca, cb, front);
      front + [Step(e.onA, if e.onA then IdealEvent(s.a.cb, s.b.out, e.event) else IdealEvent(s.b.cb, s.a.out, e.event))]
  }

  function IdealRun(ca: Config, cb: Config, steps: seq<Step>): Sys
    requires ca.mss > 0 && cb.mss > 0
  {
    Run(ca, cb, IdealSteps(ca, cb, steps))
  }

  lemma IdealStep(ca: Config, cb: Config, steps: seq<Step>)
    requires ca.mss > 0 && cb.mss > 0 && |steps| > 0
    ensures var e, s := steps[|steps| - 1], IdealRun(ca, cb, steps[..|steps| - 1]);
      IdealRun(ca, cb, steps)
      == if e.onA then s.(a := PeerStep(s.a, s.b.out, IdealEvent(s.a.cb, s.b.out, e.event)))
         else s.(b := PeerStep(s.b, s.a.out, IdealEvent(s.b.cb, s.a.out, e.event)))
  {
    hide PeerStep, IdealEvent;
    var ideal := IdealSteps(ca, cb, steps);
    assert ideal[..|ideal| - 1] == IdealSteps(ca, cb, steps[..|steps| - 1]);
  }

  /** Each datagram delivered in the run is legible in the state that receives it. */
  predicate Recent(ca: Config, cb: Config, steps: seq<Step>)
    requires ca.mss > 0 && cb.mss > 0
  {
    |steps| > 0 ==>
      var n := |steps| - 1;
      var s := IdealRun(ca, cb, steps[..n]);
      && Recent(ca, cb, steps[..n])
      && (if steps[n].onA then RecentEvent(s.a.cb, s.b.out, steps[n].event) else RecentEvent(s.b.cb, s.a.out, steps[n].event))
  }

  predicate RecentEvent(x: Cb, net: Network, e: Event) {
    && (e.DeliverEvent? && e.k < |net| ==> LegibleAll(x, net[e.k]))
    && (e.DeliverBlanked? && e.k < |net| ==> LegibleAll(x, net[e.k]))
  }

  /** The 32-bit program refines the connection with unbounded numbers over every run, however
      long, in which each delivered datagram is legible. */
  lemma {:induction false} HostsFollow(checksum: bool, ca: Config, cb: Config, steps: seq<Step>)
    requires ConfigOk(ca) && ConfigOk(cb) && ca.conv == cb.conv && Recent(ca, cb, steps)
    ensures var h, s := RunHosts(checksum, ca, cb, steps), IdealRun(ca, cb, steps);
      Stands(checksum, h.a, s.a) && Stands(checksum, h.b, s.b)
  {
    hide PeerOk, Direction, PeerStep, HostStep, EncodableNet, RecentEvent, Stands, IdealEvent;
    if |steps| == 0 {
      NewStands(checksum, ca);
      NewStands(checksum, cb);
    } else {
      var n := |steps| - 1;
      HostsFollow(checksum, ca, cb, steps[..n]);
      IdealStep(ca, cb, steps);
      RunOk(ca, cb, IdealSteps(ca, cb, steps[..n]));
      RunEncodable(ca, cb, IdealSteps(ca, cb, steps[..n]));
      var h, s, e := RunHosts(checksum, ca, cb, steps[..n]), IdealRun(ca, cb, steps[..n]), steps[n];
      if e.onA {
        PairFollows(checksum, h.a, s.a, h.b, s.b, e.event);
      } else {
        PairFollows(checksum, h.b, s.b, h.a, s.a, e.event);
      }
    }
  }

  lemma PairFollows(checksum: bool, h: Host, x: Peer, g: Host, y: Peer, e: Event)
    requires Stands(checksum, h, x) && Stands(checksum, g, y) && PeerOk(x) && PeerOk(y) && x.cb.cfg.mss > 0
    requires x.cb.cfg.conv == y.cb.cfg.conv && EncodableNet(y.out) && RecentEvent(x.cb, y.out, e)
    ensures Stands(checksum, HostStep(checksum, h, g.out, e), PeerStep(x, y.out, IdealEvent(x.cb, y.out, e)))
  {
    hide CbOk, RecentEvent, EncodableNet, HostStep, PeerStep, IdealEvent;
    HostFollows(checksum, h, x, g.out, y.out, x.cb.cfg.conv, e);
  }

  lemma NewStands(checksum: bool, c: Config)
    ensures Stands(checksum, NewHost(c), NewPeer(c))
  {
  }

  // ---- short runs are recent ----

  /** The segments needed by all messages one side accepts during the run. */
  function Segments(mss: nat, steps: seq<Step>, onA: bool): nat
    requires mss > 0
  {
    if |steps| == 0 then 0
    else
      var e := steps[|steps| - 1];
      Segments(mss, steps[..|steps| - 1], onA)
      + if e.onA == onA && e.event.SendEvent? && FragmentCount(mss, |e.event.data|) < WND_RCV
        then Max(0, FragmentCount(mss, |e.event.data|)) else 0
  }

  lemma StepAccepted(x: Peer, net: Network, e: Event)
    requires x.cb.cfg.mss > 0 && !x.cb.cfg.stream
    ensures var mss := x.cb.cfg.mss; var x' := PeerStep(x, net, e);
      |AllFrags(mss, x'.accepted)| == |AllFrags(mss, x.accepted)|
        + (if e.SendEvent? && FragmentCount(mss, |e.data|) < WND_RCV then Max(0, FragmentCount(mss, |e.data|)) else 0)
  {
    hide Input, Update, RecvOn, Send, FragmentCount, SplitMessage, Flush, Advance;
    if e.SendEvent? {
      SendMessage(x.cb.cfg.mss, x.cb.snd.queue, e.data);
      AllFragsSnoc(x.cb.cfg.mss, x.accepted, e.data);
      MessageNonempty(x.cb.cfg.mss, e.data);
      assert x.accepted + [] == x.accepted;
    }
  }

  lemma {:induction false} AcceptedSegments(ca: Config, cb: Config, steps: seq<Step>)
    requires ConfigOk(ca) && ConfigOk(cb) && !ca.stream && !cb.stream
    ensures var s := Run(ca, cb, steps);
      && |AllFrags(ca.mss, s.a.accepted)| == Segments(ca.mss, steps, true)
      && |AllFrags(cb.mss, s.b.accepted)| == Segments(cb.mss, steps, false)
  {
    if |steps| > 0 {
      hide PeerStep, AllFrags, FragmentCount;
      var n := |steps| - 1;
      AcceptedSegments(ca, cb, steps[..n]);
      var s := Run(ca, cb, steps[..n]);
      StepAccepted(s.a, s.b.out, steps[n].event);
      StepAccepted(s.b, s.a.out, steps[n].event);
    }
  }

  lemma {:induction false} IdealSends(ca: Config, cb: Config, steps: seq<Step>, mss: nat, onA: bool)
    requires ca.mss > 0 && cb.mss > 0 && mss > 0
    ensures Segments(mss, IdealSteps(ca, cb, steps), onA) == Segments(mss, steps, onA)
  {
    if |steps| > 0 {
      hide Run, BlankSet, FragmentCount;
      var n, ideal := |steps| - 1, IdealSteps(ca, cb, steps);
      IdealSends(ca, cb, steps[..n], mss, onA);
      assert ideal[..n] == IdealSteps(ca, cb, steps[..n]);
    }
  }

  /** Whatever is on the network stays within both logs. */
  lemma NetWithin(x: Peer, y: Peer, d: seq<Packet>)
    requires PeerOk(y) && Direction(x, y) && Direction(y, x) && d in y.out
    ensures forall p :: p in d ==> PacketWithin(x, y, p)
  {
    hide CbOk, SentOk, ForthOk, NothingLost;
    forall p | p in d ensures PacketWithin(x, y, p) {
      assert AckOk(y.cb.rcv, p);
      assert PushOk(y.log, p) by { PushOnNet(y, d, p); }
      if p.cmd == CMD_ACK {
        ReceivedLogged(y.cb.rcv, x.log, p.sn);
      }
    }
  }

  /** While both logs stay short, whatever is delivered is legible. */
  lemma ShortIsLegible(x: Peer, y: Peer, d: seq<Packet>)
    requires PeerOk(x) && PeerOk(y) && Direction(x, y) && Direction(y, x) && d in y.out
    requires |x.log| <= TWO31 && |y.log| <= TWO31
    ensures LegibleAll(x.cb, d)
  {
    hide CbOk, SentOk, ForthOk, NothingLost;
    NetWithin(x, y, d);
    NextIsLog(x);
    LegiblePrefix(x, y, d);
  }

  lemma PushOnNet(y: Peer, d: seq<Packet>, p: Packet)
    requires ForthOk(y.log, y.out) && d in y.out && p in d
    ensures PushOk(y.log, p)
  {
  }

  lemma NextIsLog(x: Peer)
    requires SentOk(x.cb.snd, x.log)
    ensures x.cb.snd.nxt == |x.log|
  {
  }

  lemma ReceivedLogged(r: Receiver, log: seq<Frag>, sn: nat)
    requires HeldOk(r, log) && Received(r, sn)
    ensures sn < |log|
  {
    if Waiting(r.buf, sn) {
      var i :| 0 <= i < |r.buf| && r.buf[i].sn == sn;
      assert r.buf[i] in r.queue + r.buf;
    }
  }

  predicate PacketWithin(x: Peer, y: Peer, p: Packet) {
    && Plausible(p)
    && p.una <= |x.log|
    && (p.cmd == CMD_ACK ==> p.sn < |x.log|)
    && (p.cmd == CMD_PUSH ==> p.sn < |y.log| && PushOk(y.log, p))
  }

  lemma {:induction false} LegiblePrefix(x: Peer, y: Peer, d: seq<Packet>)
    requires CbOk(x.cb) && HeldOk(x.cb.rcv, y.log)
    requires |x.log| <= TWO31 && |y.log| <= TWO31 && x.cb.snd.nxt == |x.log|
    requires forall p :: p in d ==> PacketWithin(x, y, p)
    ensures LegibleEach(x.cb, d)
    ensures var c := InputPackets(Unbounded, x.cb, HeardAll(x.cb, d));
      CbOk(c) && HeldOk(c.rcv, y.log) && c.snd.nxt == |x.log| && c.cfg == x.cb.cfg
  {
    if |d| > 0 {
      hide CbOk, HeldOk, Legible, InputPacket, PushOk, Unheard;
      var n := |d| - 1;
      LegiblePrefix(x, y, d[..n]);
      var front := HeardAll(x.cb, d[..n]);
      var c, p := InputPackets(Unbounded, x.cb, front), d[n];
      assert p in d;
      BlankedPushOk(p, y.log);
      InputPacketKeeps(c, Heard(c, p));
      InputReceiver(c, Heard(c, p), y.log);
      ShortLegible(c, y.log, p, |x.log|);
      assert HeardAll(x.cb, d)[..n] == front;
    }
  }

  lemma BlankedPushOk(p: Packet, log: seq<Frag>)
    requires PushOk(log, p)
    ensures PushOk(log, Blank(p))
  {
  }

  lemma ShortLegible(c: Cb, log: seq<Frag>, p: Packet, nxt: nat)
    requires CbOk(c) && HeldOk(c.rcv, log) && c.snd.nxt == nxt <= TWO31 && |log| <= TWO31
    requires p.una <= nxt && (p.cmd == CMD_ACK ==> p.sn < nxt) && (p.cmd == CMD_PUSH ==> p.sn < |log|)
    ensures Legible(c, p)
  {
    AcceptUnaKeeps(c, p.una);
    if p.una <= c.snd.una {
      UnaAge(c.snd, c.cfg.sndWnd, p.una);
    }
    if p.cmd == CMD_PUSH && p.sn < c.rcv.nxt {
      PushAge(c.cfg.rcvWnd, c.rcv, p.sn);
    }
  }

  // ---- the theorem about the program ----

  /** End-to-end safety of the program itself, for every run in which the messages accepted in
      each direction need at most 2^31 segments: over a network that drops, duplicates and
      reorders, what ikcp_recv returns at one end is a prefix of what ikcp_send accepted at the
      other. */
  lemma ProgramDelivers(checksum: bool, ca: Config, cb: Config, steps: seq<Step>)
    requires ConfigOk(ca) && ConfigOk(cb) && ca.conv == cb.conv && !ca.stream && !cb.stream
    requires Segments(ca.mss, steps, true) <= TWO31 && Segments(cb.mss, steps, false) <= TWO31
    ensures var h := RunHosts(checksum, ca, cb, steps);
      h.b.delivered <= h.a.accepted && h.a.delivered <= h.b.accepted
  {
    hide PeerOk, Direction, Stream;
    ShortRunRecent(ca, cb, steps);
    HostsFollow(checksum, ca, cb, steps);
    DeliveredIsPrefix(ca, cb, IdealSteps(ca, cb, steps));
  }

  /** The same for runs of any length, stream mode included, as long as every delivered datagram
      is legible. */
  lemma ProgramDeliversRecent(checksum: bool, ca: Config, cb: Config, steps: seq<Step>)
    requires ConfigOk(ca) && ConfigOk(cb) && ca.conv == cb.conv && Recent(ca, cb, steps)
    ensures var h := RunHosts(checksum, ca, cb, steps);
      && (!ca.stream ==> h.b.delivered <= h.a.accepted)
      && (!cb.stream ==> h.a.delivered <= h.b.accepted)
      && Joined(h.b.delivered) <= h.a.absorbed && Joined(h.a.delivered) <= h.b.absorbed
  {
    HostsFollow(checksum, ca, cb, steps);
    DeliveredIsPrefix(ca, cb, IdealSteps(ca, cb, steps));
    DeliveredBytesArePrefix(ca, cb, IdealSteps(ca, cb, steps));
  }

  lemma {:induction false} ShortRunRecent(ca: Config, cb: Config, steps: seq<Step>)
    requires ConfigOk(ca) && ConfigOk(cb) && !ca.stream && !cb.stream
    requires Segments(ca.mss, steps, true) <= TWO31 && Segments(cb.mss, steps, false) <= TWO31
    ensures Recent(ca, cb, steps)
    ensures var s := IdealRun(ca, cb, steps); |s.a.log| <= TWO31 && |s.b.log| <= TWO31
  {
    hide CbOk, PeerStep, Direction, PeerOk, Stream, LegibleAll, FragmentCount, IdealEvent;
    ShortLogs(ca, cb, steps);
    if |steps| > 0 {
      var n := |steps| - 1;
      ShortRunRecent(ca, cb, steps[..n]);
      RunOk(ca, cb, IdealSteps(ca, cb, steps[..n]));
      var s, e := IdealRun(ca, cb, steps[..n]), steps[n].event;
      if steps[n].onA {
        ShortEvent(s.a, s.b, e);
      } else {
        ShortEvent(s.b, s.a, e);
      }
    }
  }

  lemma ShortEvent(x: Peer, y: Peer, e: Event)
    requires PeerOk(x) && PeerOk(y) && Direction(x, y) && Direction(y, x)
    requires |x.log| <= TWO31 && |y.log| <= TWO31
    ensures RecentEvent(x.cb, y.out, e)
  {
    hide CbOk, PeerOk, Direction, LegibleAll;
    if (e.DeliverEvent? || e.DeliverBlanked?) && e.k < |y.out| {
      ShortIsLegible(x, y, y.out[e.k]);
    }
  }

  lemma ShortLogs(ca: Config, cb: Config, steps: seq<Step>)
    requires ConfigOk(ca) && ConfigOk(cb) && !ca.stream && !cb.stream
    ensures var s := IdealRun(ca, cb, steps);
      |s.a.log| <= Segments(ca.mss, steps, true) && |s.b.log| <= Segments(cb.mss, steps, false)
  {
    hide Stream, PeerStep, FragmentCount, IdealEvent;
    var ideal := IdealSteps(ca, cb, steps);
    RunEndsOk(ca, cb, ideal);
    AcceptedSegments(ca, cb, ideal);
    IdealSends(ca, cb, steps, ca.mss, true);
    IdealSends(ca, cb, steps, cb.mss, false);
    var s := IdealRun(ca, cb, steps);
    LogWithinAccepted(s.a, s.b);
    LogWithinAccepted(s.b, s.a);
  }

  lemma LogWithinAccepted(x: Peer, y: Peer)
    requires Stream(x, y)
    ensures !x.cb.cfg.stream ==> |x.log| <= |AllFrags(x.cb.cfg.mss, x.accepted)|
  {
  }

  // ---- why age matters ----

  /** For each free place of the window, the duplicate 2^32 numbers older than that place is
      taken for new data by the program, while the ideal receiver only acknowledges it again. */
  lemma LateDuplicateAccepted(wnd: nat, r: Receiver, j: nat, ts: nat, stale: Frag)
    requires ReceiverOk(r, wnd) && j < wnd < TWO31 && r.nxt + j >= TWO32 && !Waiting(r.buf, r.nxt + j)
    ensures var sn := r.nxt + j - TWO32;
      && Received(r, sn)
      && AcceptPush(Unbounded, wnd, r, sn, ts, stale) == r.(acks := r.acks + [Ack(sn, ts)])
      && !Harmless(wnd, r, sn)
      && AcceptPush(Wrapped, wnd, WrapReceiver(r), U32(sn), ts, stale)
         == WrapReceiver(AcceptPush(Unbounded, wnd, r, r.nxt + j, ts, stale))
  {
    var sn := r.nxt + j - TWO32;
    ModShift(sn - r.nxt, 1);
    Small(j);
    assert Apparent(r, sn) == r.nxt + j;
    StalePushHarmless(wnd, r, sn, ts, stale);
  }
}
