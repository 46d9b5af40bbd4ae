/** What the proofs about the unbounded connection say of the program as it runs: 32-bit numbers
    and bytes on the wire. */
module Program {
  import opened Numbers
  import opened Wire
  import opened MiscUtils
  import opened SendWindow
  import opened ReceiveWindow
  import opened Fragments
  import opened Timers
  import opened Packing
  import opened Transmission
  import opened Kcp
  import opened Invariants
  import opened Robustness
  import opened Staleness
  import opened Wraparound
  import opened Delivery
  import opened Connection
  import opened EndToEnd
  import opened RttSamples
  import opened Progress
  import opened WireRun

  // ---- no segment is lost ----

  /** Each number between snd_una and snd_nxt is still in snd_buf, or the peer has it below its
      rcv_nxt or in its rcv_buf. */
  predicate Kept(s: Sender, r: Receiver) {
    forall n: nat :: n < TWO32 && InFlightRange(Wrapped, s, n) ==>
      HasSn(s.buf, n) || Diff(Wrapped, n, r.nxt) < 0 || Waiting(r.buf, n)
  }

  /** The true number behind one in flight. */
  lemma InFlightNumber(s: Sender, wnd: nat, n: nat) returns (sn: nat)
    requires SenderOk(s, wnd) && wnd < TWO31 && n < TWO32 && InFlightRange(Wrapped, WrapSender(s), n)
    ensures s.una <= sn < s.nxt && U32(sn) == n
  {
    hide U32, TimeDiff, SenderOk;
    Small(n);
    TimeDiffExact(n, s.una);
    SameResidue(n, s.una);
    sn := s.una + TimeDiff(n, s.una);
    RangeWraps(s, wnd, sn);
  }

  lemma KeptWraps(x: Peer, y: Peer)
    requires PeerOk(x) && PeerOk(y) && Direction(x, y)
    ensures Kept(WrapSender(x.cb.snd), WrapReceiver(y.cb.rcv))
  {
    hide ForthOk, BackOk, PlausibleNet, U32, TimeDiff;
    var s, r := x.cb.snd, y.cb.rcv;
    forall n: nat | n < TWO32 && InFlightRange(Wrapped, WrapSender(s), n)
      ensures HasSn(WrapBuf(s.buf), n) || Diff(Wrapped, n, U32(r.nxt)) < 0 || Waiting(WrapIns(r.buf), n)
    {
      var sn := InFlightNumber(s, x.cb.cfg.sndWnd, n);
      assert HasSn(s.buf, sn) || Received(r, sn);
      if HasSn(s.buf, sn) {
        var i :| 0 <= i < |s.buf| && s.buf[i].sn == sn;
        assert WrapBuf(s.buf)[i].sn == n;
      } else if sn < r.nxt {
        DiffWraps(sn, r.nxt);
      } else {
        var i :| 0 <= i < |r.buf| && r.buf[i].sn == sn;
        assert WrapIns(r.buf)[i].sn == n;
      }
    }
  }

  /** No segment of the program is lost, in runs of any length in which each delivered datagram is
      legible. */
  lemma ProgramKeeps(checksum: bool, ca: Config, cb: Config, steps: seq<Step>)
    requires ConfigOk(ca) && ConfigOk(cb) && ca.conv == cb.conv && Recent(ca, cb, steps)
    ensures var h := RunHosts(checksum, ca, cb, steps);
      Kept(h.a.cb.snd, h.b.cb.rcv) && Kept(h.b.cb.snd, h.a.cb.rcv)
  {
    hide PeerOk, Direction, Kept;
    HostsFollow(checksum, ca, cb, steps);
    RunOk(ca, cb, IdealSteps(ca, cb, steps));
    var s := IdealRun(ca, cb, steps);
    KeptWraps(s.a, s.b);
    KeptWraps(s.b, s.a);
  }

  /** Read without wrap-around for short runs: each number ever used is kept. */
  lemma ShortKeeps(checksum: bool, ca: Config, cb: Config, steps: seq<Step>, sn: nat)
    requires ConfigOk(ca) && ConfigOk(cb) && ca.conv == cb.conv && !ca.stream && !cb.stream
    requires Segments(ca.mss, steps, true) <= TWO31 && Segments(cb.mss, steps, false) <= TWO31
    requires sn < RunHosts(checksum, ca, cb, steps).a.cb.snd.nxt
    ensures var h := RunHosts(checksum, ca, cb, steps);
      HasSn(h.a.cb.snd.buf, sn) || sn < h.b.cb.rcv.nxt || Waiting(h.b.cb.rcv.buf, sn)
  {
    hide PeerOk, PlausibleNet, ForthOk, BackOk, U32, RunHosts;
    ShortRunRecent(ca, cb, steps);
    HostsFollow(checksum, ca, cb, steps);
    RunOk(ca, cb, IdealSteps(ca, cb, steps));
    var s := IdealRun(ca, cb, steps);
    var x, r := s.a.cb.snd, s.b.cb.rcv;
    Small(x.nxt);
    Small(r.nxt);
    Small(sn);
    assert HasSn(x.buf, sn) || Received(r, sn);
    if HasSn(x.buf, sn) {
      var i :| 0 <= i < |x.buf| && x.buf[i].sn == sn;
      assert WrapBuf(x.buf)[i].sn == sn;
    } else if sn >= r.nxt {
      var i :| 0 <= i < |r.buf| && r.buf[i].sn == sn;
      assert WrapIns(r.buf)[i].sn == sn;
    }
  }

  // ---- reassembly ----

  lemma PeekWraps(q: seq<InSeg>)
    ensures PeekSize(WrapIns(q)) == PeekSize(q)
  {
    MessageWraps(q);
  }

  /** In the program too a full rcv_queue can always be read. */
  lemma ProgramReadable(checksum: bool, ca: Config, cb: Config, steps: seq<Step>)
    requires ConfigOk(ca) && ConfigOk(cb) && ca.conv == cb.conv && Recent(ca, cb, steps) && !ca.stream && !cb.stream
    ensures var h := RunHosts(checksum, ca, cb, steps);
      && (|h.b.cb.rcv.queue| >= cb.rcvWnd ==> PeekSize(h.b.cb.rcv.queue) >= 0)
      && (|h.a.cb.rcv.queue| >= ca.rcvWnd ==> PeekSize(h.a.cb.rcv.queue) >= 0)
  {
    hide PeerOk, PeekSize, RunHosts;
    var ideal := IdealSteps(ca, cb, steps);
    HostsFollow(checksum, ca, cb, steps);
    RunEndsOk(ca, cb, ideal);
    var s := IdealRun(ca, cb, steps);
    PeekWraps(s.b.cb.rcv.queue);
    PeekWraps(s.a.cb.rcv.queue);
    FullReadable(s.a, s.b);
    FullReadable(s.b, s.a);
  }

  lemma FullReadable(x: Peer, y: Peer)
    requires PeerOk(y) && Direction(x, y) && Stream(x, y) && !x.cb.cfg.stream
    ensures |y.cb.rcv.queue| >= y.cb.cfg.rcvWnd ==> PeekSize(y.cb.rcv.queue) >= 0
  {
    if |y.cb.rcv.queue| >= y.cb.cfg.rcvWnd {
      FullQueueReadable(x, y);
    }
  }

  // ---- round-trip samples ----

  /** The segments in a datagram as it travels. */
  function Carried(checksum: bool, conv: nat, w: Bytes): seq<Packet> {
    match Open(checksum, w)
    case None => []
    case Some(d) => Parse(conv, d).packets
  }

  lemma CarriedSealed(checksum: bool, conv: nat, d: seq<Packet>)
    requires conv < TWO32 && |d| > 0 && forall p :: p in d ==> Encodable(WrapPacket(p))
    ensures Carried(checksum, conv, Seal(checksum, EncodeAll(conv, WrapPackets(d)))) == WrapPackets(d)
  {
    hide Encodable, Seal, Open, EncodeAll, Parse;
    var ps := WrapPackets(d);
    forall p | p in ps ensures Encodable(p) {
      var i :| 0 <= i < |ps| && ps[i] == p;
      assert d[i] in d;
    }
    EncodedNonempty(conv, ps);
    OpenSeal(checksum, EncodeAll(conv, ps));
    ParseRoundTrip(conv, ps);
  }

  /** The k-th datagram x has sent carries what the ideal one does. */
  lemma CarriedStands(checksum: bool, h: Host, x: Peer, k: nat)
    requires Stands(checksum, h, x) && EncodableNet(x.out) && x.cb.cfg.conv < TWO32 && k < |x.out|
    ensures |h.out| == |x.out| && Carried(checksum, x.cb.cfg.conv, h.out[k]) == WrapPackets(x.out[k])
  {
    hide Encodable, Seal, EncodeAll, WrapPackets, Carried, WrapCb;
    assert x.out[k] in x.out;
    CarriedSealed(checksum, x.cb.cfg.conv, x.out[k]);
  }

  /** Some datagram h sent when its clock read ts carries segment n. */
  predicate SentAt(checksum: bool, conv: nat, h: Host, n: nat, ts: nat) {
    exists k, p :: 0 <= k < |h.out| && k < |h.sentAt| && h.sentAt[k] == ts
      && p in Carried(checksum, conv, h.out[k]) && p.cmd == CMD_PUSH && p.sn == n
  }

  lemma EmittedStands(checksum: bool, h: Host, x: Peer, sn: nat, ts: nat)
    requires Stands(checksum, h, x) && EncodableNet(x.out) && x.cb.cfg.conv < TWO32 && Emitted(x, sn, ts)
    ensures SentAt(checksum, x.cb.cfg.conv, h, U32(sn), ts)
  {
    hide EncodableNet, Carried, WrapCb, SealAll, WrapAll;
    var k :| 0 <= k < |x.out| && k < |x.sentAt| && x.sentAt[k] == ts && CarriesPush(x.out[k], sn);
    CarriedStands(checksum, h, x, k);
    var p :| p in x.out[k] && p.cmd == CMD_PUSH && p.sn == sn;
    var i :| 0 <= i < |x.out[k]| && x.out[k][i] == p;
    assert WrapPackets(x.out[k])[i] == WrapPacket(p);
  }

  /** Every acknowledgement the program sends echoes the clock at which its peer sent a copy of
      that segment, so the sample taken from it is that copy's age. */
  lemma ProgramSamples(checksum: bool, ca: Config, cb: Config, steps: seq<Step>, k: nat, p: Packet)
    requires ConfigOk(ca) && ConfigOk(cb) && ca.conv == cb.conv && Recent(ca, cb, steps)
    requires var h := RunHosts(checksum, ca, cb, steps);
      k < |h.b.out| && p in Carried(checksum, ca.conv, h.b.out[k]) && p.cmd == CMD_ACK
    ensures SentAt(checksum, ca.conv, RunHosts(checksum, ca, cb, steps).a, p.sn, p.ts)
  {
    hide PeerOk, Direction, Stands, EncodableNet, Carried, Emitted, RunHosts, Connection.Run, ConfigOk;
    ConvOk(ca);
    ConvOk(cb);
    var ideal := IdealSteps(ca, cb, steps);
    var h, s := RunHosts(checksum, ca, cb, steps), IdealRun(ca, cb, steps);
    HostsFollow(checksum, ca, cb, steps);
    RunEncodable(ca, cb, ideal);
    RunHonest(ca, cb, ideal);
    assert |h.b.out| == |s.b.out| by { OutLength(checksum, h.b, s.b); }
    CarriedStands(checksum, h.b, s.b, k);
    var d := s.b.out[k];
    var i :| 0 <= i < |d| && WrapPackets(d)[i] == p;
    assert d in s.b.out && d[i] in d;
    assert Emitted(s.a, d[i].sn, d[i].ts);
    EmittedStands(checksum, h.a, s.a, d[i].sn, d[i].ts);
  }

  lemma ConvOk(c: Config)
    requires ConfigOk(c)
    ensures c.conv < TWO32 && c.mss > 0
  {
  }

  lemma OutLength(checksum: bool, h: Host, x: Peer)
    requires Stands(checksum, h, x)
    ensures |h.out| == |x.out|
  {
  }

  // ---- progress ----

  function FeedWire(checksum: bool, cb: Cb, w: Bytes): (r: Cb)
    requires cb.cfg.mss > 0
    ensures r.cfg == cb.cfg
  {
    match Open(checksum, w)
    case None => cb
    case Some(d) =>
      InputKeepsConfig(Wrapped, cb, Parse(cb.cfg.conv, d).packets);
      InputBytes(cb, d).cb
  }

  function FeedWires(checksum: bool, cb: Cb, ws: seq<Bytes>): (r: Cb)
    requires cb.cfg.mss > 0
    ensures r.cfg == cb.cfg
  {
    if |ws| == 0 then cb else FeedWire(checksum, FeedWires(checksum, cb, ws[..|ws| - 1]), ws[|ws| - 1])
  }

  /** The bytes a flush of the program sends. */
  function Wires(checksum: bool, cb: Cb): seq<Bytes> { SealAll(checksum, cb.cfg.conv, Flush(Wrapped, cb).out) }

  /** The sender after a loss-free exchange on the wire. */
  function Exchanged(checksum: bool, x: Cb, y: Cb): Cb
    requires x.cfg.mss > 0 && y.cfg.mss > 0
  {
    FeedWires(checksum, Flush(Wrapped, x).cb, Wires(checksum, FeedWires(checksum, y, Wires(checksum, x))))
  }

  /** Data segments of y within its last snd_wnd numbers. */
  predicate Young(y: Peer, d: seq<Packet>) {
    forall p :: p in d && p.cmd == CMD_PUSH ==> p.sn + y.cb.cfg.sndWnd >= |y.log|
  }

  /** All data segments of a flush are young, so none of them goes unheard. */
  lemma FlushYoung(x: Peer)
    requires PeerOk(x) && SentOk(x.cb.snd, x.log) && x.cb.clk.updated
    ensures forall d :: d in Flush(Unbounded, x.cb).out ==> Young(AfterFlushing(x), d)
  {
    var x', s := AfterFlushing(x), Numbered(Unbounded, x.cb);
    hide PlausibleNet, FlushPackets, SweptBuf, Choose, Resend, Datagrams, Logged;
    NumberedKeeps(x.cb);
    forall d, p | d in Flush(Unbounded, x.cb).out && p in d && p.cmd == CMD_PUSH ensures p.sn + x.cb.cfg.sndWnd >= |x'.log| {
      EmittedPackets(x.cb, d, p);
      PushBuffered(x.cb, p);
    }
  }

  lemma PushBuffered(x: Cb, p: Packet)
    requires CbOk(x) && p in FlushPackets(Unbounded, x) && p.cmd == CMD_PUSH
    ensures HasSn(Numbered(Unbounded, x).buf, p.sn)
  {
    hide CbOk, Numbered, ProbeStep, Choose;
    assert SenderOk(Numbered(Unbounded, x), x.cfg.sndWnd) by { NumberedKeeps(x); }
    assert p in SweptPackets(SendingOf(x), Numbered(Unbounded, x).buf);
    SweptInOrder(SendingOf(x), Numbered(Unbounded, x).buf);
  }

  lemma {:induction false} YoungHeard(x: Peer, y: Peer, d: seq<Packet>)
    requires CbOk(x.cb) && HeldOk(x.cb.rcv, y.log)
    requires |x.log| <= TWO31 && |y.log| <= TWO31 && x.cb.snd.nxt == |x.log|
    requires forall p :: p in d ==> PacketWithin(x, y, p)
    requires Young(y, d) && y.cb.cfg.sndWnd + x.cb.cfg.rcvWnd <= TWO31
    ensures HeardAll(x.cb, d) == d
  {
    hide CbOk, HeldOk, PacketWithin, InputPackets, HeardAll, Heard, Young, LegibleEach;
    if |d| > 0 {
      var n := |d| - 1;
      YoungParts(y, d);
      YoungHeard(x, y, d[..n]);
      LegiblePrefix(x, y, d[..n]);
      var c := InputPackets(Unbounded, x.cb, d[..n]);
      HeldBound(c.rcv, y.log);
      HeardOne(c, d[n], |y.log|, y.cb.cfg.sndWnd);
      HeardLast(x.cb, d);
      assert d == d[..n] + [d[n]];
    } else {
      NoneHeard(x.cb);
    }
  }

  lemma NoneHeard(x: Cb)
    ensures HeardAll(x, []) == []
  {
  }

  lemma YoungParts(y: Peer, d: seq<Packet>)
    requires Young(y, d) && |d| > 0
    ensures Young(y, d[..|d| - 1])
    ensures d[|d| - 1].cmd == CMD_PUSH ==> d[|d| - 1].sn + y.cb.cfg.sndWnd >= |y.log|
  {
    assert d[|d| - 1] in d;
  }

  lemma HeardOne(c: Cb, p: Packet, end: nat, wnd: nat)
    requires c.rcv.nxt <= end && wnd + c.cfg.rcvWnd <= TWO31
    requires p.cmd == CMD_PUSH ==> p.sn + wnd >= end
    ensures Heard(c, p) == p
  {
    if p.cmd == CMD_PUSH && p.sn < c.rcv.nxt {
      TimeDiffExact(p.sn, c.rcv.nxt + c.cfg.rcvWnd);
    }
  }

  lemma HeldBound(r: Receiver, log: seq<Frag>)
    requires HeldOk(r, log)
    ensures r.nxt <= |log|
  {
  }

  /** Both directions, all datagrams that can travel, and the room that short logs leave. */
  predicate Short(x: Peer, y: Peer) {
    && PeerOk(x) && PeerOk(y) && Direction(x, y) && Direction(y, x)
    && EncodableNet(y.out) && x.cb.cfg.conv == y.cb.cfg.conv && x.cb.cfg.mss > 0
    && |x.log| <= TWO31 && |y.log| <= TWO31
  }

  /** One fresh datagram of y on the wire does to x what it should. */
  lemma FeedOne(checksum: bool, x: Peer, y: Peer, d: seq<Packet>)
    requires Short(x, y) && d in y.out && Young(y, d) && y.cb.cfg.sndWnd + x.cb.cfg.rcvWnd <= TWO31
    ensures FeedWire(checksum, WrapCb(x.cb), Seal(checksum, EncodeAll(y.cb.cfg.conv, WrapPackets(d)))) == WrapCb(Input(Unbounded, x.cb, d, 0))
    ensures Short(AfterDeliver(x, d), y)
  {
    hide CbOk, HeldOk, LegibleAll, HeardAll, Young, Encodable, Seal, EncodeAll, WrapPackets, Input, InputBytes, SealAll, WrapAll;
    ShortIsLegible(x, y, d);
    NetWithin(x, y, d);
    NextIsLog(x);
    YoungHeard(x, y, d);
    var h := Host(WrapCb(x.cb), x.accepted, x.absorbed, x.delivered, SealAll(checksum, x.cb.cfg.conv, WrapAll(x.out)), x.sentAt);
    FeedFollows(checksum, h, x, d);
    NetTrusted(x, y, d, {});
    DeliverStep(x, y, d);
    InputKeepsConfig(Unbounded, x.cb, d);
    DeliverConfig(x, d);
  }

  lemma DeliverConfig(x: Peer, d: seq<Packet>)
    requires x.cb.cfg.mss > 0
    ensures AfterDeliver(x, d).cb.cfg == x.cb.cfg && AfterDeliver(x, d).log == x.log
  {
    InputKeepsConfig(Unbounded, x.cb, d);
  }

  lemma {:induction false} FeedWraps(checksum: bool, x: Peer, y: Peer, ds: Network)
    requires Short(x, y) && y.cb.cfg.sndWnd + x.cb.cfg.rcvWnd <= TWO31
    requires forall d :: d in ds ==> d in y.out && Young(y, d)
    ensures FeedWires(checksum, WrapCb(x.cb), SealAll(checksum, y.cb.cfg.conv, WrapAll(ds))) == WrapCb(FeedAll(x.cb, ds))
    ensures Short(x.(cb := FeedAll(x.cb, ds)), y)
  {
    hide PeerOk, Direction, EncodableNet, Young, FeedWire, Input, Seal, EncodeAll, WrapPackets, WrapCb;
    WrapConfig(x.cb);
    if |ds| > 0 {
      var n := |ds| - 1;
      FeedWraps(checksum, x, y, ds[..n]);
      var z := x.(cb := FeedAll(x.cb, ds[..n]));
      assert ds[n] in ds;
      FeedOne(checksum, z, y, ds[n]);
      var ws := SealAll(checksum, y.cb.cfg.conv, WrapAll(ds));
      assert ws[..n] == SealAll(checksum, y.cb.cfg.conv, WrapAll(ds[..n]));
    }
  }

  /** A flush of x on the wire, and what is known of x afterwards. */
  lemma FlushOut(checksum: bool, x: Peer, y: Peer)
    requires Short(x, y) && EncodableNet(x.out) && x.cb.clk.updated && |AfterFlushing(x).log| <= TWO31
    ensures var x' := AfterFlushing(x); var ds := Flush(Unbounded, x.cb).out;
      && Short(y, x') && Short(x', y) && EncodableNet(x'.out) && x'.cb.cfg == x.cb.cfg
      && Flush(Wrapped, WrapCb(x.cb)).cb == WrapCb(x'.cb)
      && Wires(checksum, WrapCb(x.cb)) == SealAll(checksum, x.cb.cfg.conv, WrapAll(ds))
      && (forall d :: d in ds ==> d in x'.out && Young(x', d))
    requires y.cb.cfg.mss > 0
  {
    hide CbOk, SentOk, HeldOk, NothingLost, ForthOk, BackOk, PlausibleNet, FlushState, FlushPackets, Datagrams, Young, ToNumber, Encodable, SealAll, WrapAll;
    FlushStep(x, y);
    FlushEncodable(x.cb);
    FlushConfig(x.cb);
    FlushYoung(x);
    FlushWraps(x.cb);
    DatagramsWrap(x.cb.cfg.mtu, FlushPackets(Unbounded, x.cb));
  }

  /** On the wire and in 32 bits, the exchange is the one of the unbounded connection. */
  lemma ExchangeFollows(checksum: bool, x: Peer, y: Peer)
    requires Short(x, y) && Short(y, x) && x.cb.clk.updated && y.cb.clk.updated
    requires x.cb.cfg.sndWnd + y.cb.cfg.rcvWnd <= TWO31 && y.cb.cfg.sndWnd + x.cb.cfg.rcvWnd <= TWO31
    requires |AfterFlushing(x).log| <= TWO31
    requires |y.log + ToNumber(FeedAll(y.cb, Flush(Unbounded, x.cb).out))| <= TWO31
    ensures Exchanged(checksum, WrapCb(x.cb), WrapCb(y.cb)) == WrapCb(AfterExchange(x.cb, y.cb))
    ensures Flush(Wrapped, WrapCb(x.cb)).cb == WrapCb(Flushing(x.cb))
  {
    hide PeerOk, Direction, EncodableNet, Young, FeedWires, Wires, Flush, ToNumber, WrapCb;
    WrapConfig(x.cb);
    WrapConfig(y.cb);
    FlushOut(checksum, x, y);
    var x1, ds := AfterFlushing(x), Flush(Unbounded, x.cb).out;
    FeedWraps(checksum, y, x1, ds);
    var y1 := y.(cb := FeedAll(y.cb, ds));
    FlushOut(checksum, y1, x1);
    FeedWraps(checksum, x1, AfterFlushing(y1), Flush(Unbounded, y1.cb).out);
  }

  lemma OutstandingWraps(x: Cb)
    requires CbOk(x)
    ensures Outstanding(WrapCb(x)) == x.snd.nxt - x.snd.una
  {
    hide CbOk, Offset;
    WrapOk(x);
  }

  lemma DueWraps(x: Cb)
    ensures AllDue(WrapCb(x)) <==> AllDue(x)
  {
    hide TimeDiff;
    forall g | g in x.snd.buf ensures WrapSeg(g) in WrapBuf(x.snd.buf) {
      var i :| 0 <= i < |x.snd.buf| && x.snd.buf[i] == g;
      assert WrapBuf(x.snd.buf)[i] == WrapSeg(g);
    }
    forall g | g in WrapBuf(x.snd.buf) ensures exists f :: f in x.snd.buf && WrapSeg(f) == g {
      var i :| 0 <= i < |x.snd.buf| && WrapBuf(x.snd.buf)[i] == g;
      assert x.snd.buf[i] in x.snd.buf;
    }
  }

  lemma PairProgress(checksum: bool, x: Peer, y: Peer)
    requires Short(x, y) && Short(y, x) && x.cb.clk.updated && y.cb.clk.updated && AllDue(x.cb)
    requires x.cb.cfg.sndWnd + y.cb.cfg.rcvWnd <= TWO31 && y.cb.cfg.sndWnd + x.cb.cfg.rcvWnd <= TWO31
    requires |x.log| + |x.cb.snd.queue| <= TWO31 && |y.log| + |y.cb.snd.queue| <= TWO31
    requires |y.cb.rcv.queue| < y.cb.cfg.rcvWnd && Outstanding(Flush(Wrapped, WrapCb(x.cb)).cb) > 0
    ensures Outstanding(Exchanged(checksum, WrapCb(x.cb), WrapCb(y.cb))) < Outstanding(Flush(Wrapped, WrapCb(x.cb)).cb)
  {
    hide EncodableNet, Exchanged, FlushState, FlushPackets, Datagrams, WrapCb, AllDue, Outstanding, AfterExchange, FeedAll, ToNumber,
      CbOk, ForthOk, BackOk, HeldOk, SentOk, NothingLost, PlausibleNet;
    ExchangeShort(x, y);
    ExchangeFollows(checksum, x, y);
    ExchangeOk(x, y);
    OutstandingWraps(Flushing(x.cb));
    OutstandingWraps(AfterExchange(x.cb, y.cb));
    FlushSender(x.cb, x.log, y.cb.rcv);
    ExchangeProgress(x.cb, y.cb);
  }

  /** Progress of the program: in every state that a short run reaches, when all unacknowledged
      segments are due and the peer's queue has room, one exchange of the actual bytes without
      loss strictly reduces what is outstanding. */
  lemma ProgramProgress(checksum: bool, ca: Config, cb: Config, steps: seq<Step>)
    requires ConfigOk(ca) && ConfigOk(cb) && ca.conv == cb.conv && !ca.stream && !cb.stream
    requires Segments(ca.mss, steps, true) <= TWO31 && Segments(cb.mss, steps, false) <= TWO31
    requires ca.sndWnd + cb.rcvWnd <= TWO31 && cb.sndWnd + ca.rcvWnd <= TWO31
    ensures var h := RunHosts(checksum, ca, cb, steps); var x, y := h.a.cb, h.b.cb;
      x.clk.updated && y.clk.updated && AllDue(x) && |y.rcv.queue| < cb.rcvWnd && Outstanding(Flush(Wrapped, x).cb) > 0
      ==> Outstanding(Exchanged(checksum, x, y)) < Outstanding(Flush(Wrapped, x).cb)
  {
    hide PeerOk, Direction, Exchanged, Flush, RunHosts, WrapCb, AllDue, Outstanding, Segments, Recent, IdealRun, Short;
    ShortRunRecent(ca, cb, steps);
    HostsFollow(checksum, ca, cb, steps);
    ShortQueues(ca, cb, steps);
    ShortPeers(ca, cb, steps);
    var x, y := IdealRun(ca, cb, steps).a, IdealRun(ca, cb, steps).b;
    WrapParts(x.cb);
    WrapParts(y.cb);
    DueWraps(x.cb);
    var a, b := WrapCb(x.cb), WrapCb(y.cb);
    if a.clk.updated && b.clk.updated && AllDue(a) && |b.rcv.queue| < cb.rcvWnd && Outstanding(Flush(Wrapped, a).cb) > 0 {
      PairProgress(checksum, x, y);
    }
  }

  lemma ShortPeers(ca: Config, cb: Config, steps: seq<Step>)
    requires ConfigOk(ca) && ConfigOk(cb) && ca.conv == cb.conv && !ca.stream && !cb.stream
    requires Segments(ca.mss, steps, true) <= TWO31 && Segments(cb.mss, steps, false) <= TWO31
    ensures var s := IdealRun(ca, cb, steps); Short(s.a, s.b) && Short(s.b, s.a) && s.a.cb.cfg == ca && s.b.cb.cfg == cb
  {
    hide PeerOk, Direction, EncodableNet, Segments, Recent;
    var ideal := IdealSteps(ca, cb, steps);
    ShortRunRecent(ca, cb, steps);
    RunOk(ca, cb, ideal);
    RunEncodable(ca, cb, ideal);
  }

  lemma WrapParts(x: Cb)
    ensures WrapCb(x).clk == x.clk && WrapCb(x).cfg == x.cfg && |WrapCb(x).rcv.queue| == |x.rcv.queue|
  {
  }

  lemma ExchangeOk(x: Peer, y: Peer)
    requires PeerOk(x) && PeerOk(y) && x.cb.clk.updated && y.cb.clk.updated && AllDue(x.cb) && x.cb.cfg.mss > 0 && y.cb.cfg.mss > 0
    ensures CbOk(Flushing(x.cb)) && CbOk(AfterExchange(x.cb, y.cb))
  {
    hide CbOk, AllDue, FlushState, AfterExchange;
    FlushKeeps(x.cb);
    ExchangeClears(x.cb, y.cb);
  }

  /** What is queued counts towards the accepted segments. */
  lemma QueueShort(x: Peer, y: Peer)
    requires Stream(x, y) && !x.cb.cfg.stream
    ensures |x.log| + |x.cb.snd.queue| == |AllFrags(x.cb.cfg.mss, x.accepted)|
  {
    hide AllFrags;
    assert |x.log + x.cb.snd.queue| == |x.log| + |x.cb.snd.queue|;
  }

  lemma ShortQueues(ca: Config, cb: Config, steps: seq<Step>)
    requires ConfigOk(ca) && ConfigOk(cb) && !ca.stream && !cb.stream
    ensures var s := IdealRun(ca, cb, steps);
      && |s.a.log| + |s.a.cb.snd.queue| == Segments(ca.mss, steps, true)
      && |s.b.log| + |s.b.cb.snd.queue| == Segments(cb.mss, steps, false)
  {
    hide PeerStep, FragmentCount, IdealEvent, Stream, Segments, AllFrags;
    var ideal := IdealSteps(ca, cb, steps);
    RunEndsOk(ca, cb, ideal);
    AcceptedSegments(ca, cb, ideal);
    IdealSends(ca, cb, steps, ca.mss, true);
    IdealSends(ca, cb, steps, cb.mss, false);
    var s := IdealRun(ca, cb, steps);
    QueueShort(s.a, s.b);
    QueueShort(s.b, s.a);
  }

  lemma NumberedLength(x: Cb)
    ensures |ToNumber(x)| <= |x.snd.queue|
  {
  }

  /** An exchange cannot make the receiver's own log outgrow what it accepted. */
  lemma {:induction false} FeedQueue(y: Cb, ds: Network)
    requires CbOk(y) && y.cfg.mss > 0 && forall d :: d in ds ==> PlausibleAll(d)
    ensures CbOk(FeedAll(y, ds)) && FeedAll(y, ds).snd.queue == y.snd.queue
  {
    hide CbOk, Input, Plausible;
    if |ds| > 0 {
      var n := |ds| - 1;
      FeedQueue(y, ds[..n]);
      assert ds[n] in ds;
      InputTaken(FeedAll(y, ds[..n]), ds[n]);
      InputKeeps(FeedAll(y, ds[..n]), ds[n], 0);
    }
  }

  lemma ExchangeShort(x: Peer, y: Peer)
    requires PeerOk(x) && PeerOk(y) && x.cb.clk.updated && y.cb.cfg.mss > 0
    requires |x.log| + |x.cb.snd.queue| <= TWO31 && |y.log| + |y.cb.snd.queue| <= TWO31
    ensures |AfterFlushing(x).log| <= TWO31
    ensures |y.log + ToNumber(FeedAll(y.cb, Flush(Unbounded, x.cb).out))| <= TWO31
  {
    hide CbOk, FlushState, FlushPackets, Datagrams, ToNumber, FeedAll;
    FlushedPlausible(x.cb);
    FeedQueue(y.cb, Flush(Unbounded, x.cb).out);
    NumberedLength(x.cb);
    NumberedLength(FeedAll(y.cb, Flush(Unbounded, x.cb).out));
  }
}
