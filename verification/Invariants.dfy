/** What every entry point keeps, whatever arrives from the network: the machine with
    unbounded numbers. */
module Invariants {
  import opened Numbers
  import opened Wire
  import opened SendWindow
  import opened ReceiveWindow
  import opened Fragments
  import opened RttEstimation
  import opened Congestion
  import opened Timers
  import opened Packing
  import opened Transmission
  import opened Kcp

  const MAX_WND: nat := 65535

  /** An upper bound for the congestion window. */
  function WindowLimit(c: Config): nat { Max(MAX_WND, c.sndWnd / 2 + THRESH_MIN + Max(c.fastresend, 0)) }

  predicate ConfigOk(c: Config) {
    && c.conv < TWO32 && c.mss > 0 && c.mtu == c.mss + OVERHEAD && c.mtu < TWO31
    && 0 < c.sndWnd < TWO31 && WND_RCV <= c.rcvWnd < TWO31
    && 10 <= c.interval <= 5000 && c.minrto <= RTO_DEF
    && c.fastresend < TWO31
    && Fits(c.mss, WindowLimit(c))
  }

  predicate FragOk(mss: nat, f: Frag) { |f.data| <= mss && f.frg < WND_RCV }

  predicate FragsOk(mss: nat, s: Sender) {
    && (forall i :: 0 <= i < |s.queue| ==> FragOk(mss, s.queue[i]))
    && (forall i :: 0 <= i < |s.buf| ==> FragOk(mss, s.buf[i].frag))
  }

  predicate TimesOk(cb: Cb) {
    && cb.clk.current < TWO32 && cb.clk.tsFlush < TWO32
    && cb.cfg.minrto <= cb.rtt.rto <= RTO_MAX
    && (forall i :: 0 <= i < |cb.rcv.acks| ==> cb.rcv.acks[i].ts < TWO32)
  }

  predicate CongestionOk(cb: Cb) {
    WindowOk(cb.cfg.mss, cb.win) && cb.win.cwnd <= WindowLimit(cb.cfg) && cb.rmtWnd <= MAX_WND
  }

  predicate CbOk(cb: Cb) {
    && ConfigOk(cb.cfg)
    && SenderOk(cb.snd, cb.cfg.sndWnd)
    && FragsOk(cb.cfg.mss, cb.snd)
    && ReceiverOk(cb.rcv, cb.cfg.rcvWnd)
    && CongestionOk(cb)
    && TimesOk(cb)
    && !cb.probe.ask
  }

  /** A segment as any parsed datagram can hold it. */
  predicate Plausible(p: Packet) { p.wnd <= MAX_WND && p.ts < TWO32 }

  // ---- configuration ----

  lemma ForwarderConfigOk()
    ensures ConfigOk(ForwarderConfig())
    ensures ForwarderConfig().sndWnd == 1024 && ForwarderConfig().rcvWnd == 1024
    ensures ForwarderConfig().mss == 1376 && ForwarderConfig().interval == 10
    ensures ForwarderConfig().fastresend == 2 && ForwarderConfig().nocwnd && !ForwarderConfig().stream
    ensures ForwarderConfig().nodelay == 2 && ForwarderConfig().minrto == 30 && ForwarderConfig().fastlimit == 5
    ensures ForwarderConfig().mtu == 1400 && ForwarderConfig().conv == 0x5a3331fd && ForwarderConfig().deadLink == 20
  {
  }

  /** The setters never leave the range the engine relies on: in particular the receive window
      always holds a whole message. */
  lemma SettersKeep(c: Config, a: int, b: int, nodelay: int, interval: int, resend: int, nc: int)
    requires ConfigOk(c) && a < TWO31 && b < TWO31
    ensures WndSize(c, a, b).rcvWnd >= WND_RCV
    ensures var d := NoDelay(WndSize(c, a, b), nodelay, interval, resend, nc);
      && 0 < d.sndWnd < TWO31 && WND_RCV <= d.rcvWnd < TWO31 && 10 <= d.interval <= 5000 && d.minrto <= RTO_DEF
      && d.mss == c.mss
  {
  }

  /** Each setter argument decides its own field, and a negative one leaves it as it was; the mode
      also picks the least timeout. */
  lemma NoDelaySets(c: Config, nodelay: int, interval: int, resend: int, nc: int)
    ensures var d := NoDelay(c, nodelay, interval, resend, nc);
      && d.nodelay == (if nodelay >= 0 then nodelay else c.nodelay)
      && d.minrto == (if nodelay < 0 then c.minrto else if nodelay == 0 then 100 else 30)
      && d.interval == (if interval < 0 then c.interval else if interval < 10 then 10 else if interval > 5000 then 5000 else interval)
      && d.fastresend == (if resend >= 0 then resend else c.fastresend)
      && d.nocwnd == (if nc >= 0 then nc != 0 else c.nocwnd)
      && d == c.(nodelay := d.nodelay, minrto := d.minrto, interval := d.interval, fastresend := d.fastresend, nocwnd := d.nocwnd)
  {
  }

  /** A window of zero or less leaves the field as it was, and a receive window is at least 128. */
  lemma WndSizeSets(c: Config, a: int, b: int)
    ensures var d := WndSize(c, a, b);
      && d.sndWnd == (if a > 0 then a else c.sndWnd)
      && d.rcvWnd == (if b <= 0 then c.rcvWnd else if b < 128 then 128 else b)
      && d == c.(sndWnd := d.sndWnd, rcvWnd := d.rcvWnd)
  {
  }

  lemma CreateOk(c: Config)
    requires ConfigOk(c)
    ensures CbOk(Create(c))
  {
    Exact(c.mss, 1);
  }

  // ---- ikcp_send ----

  lemma SplitFragsOk(mss: nat, data: Bytes, count: nat, stream: bool)
    requires count < WND_RCV
    ensures forall i :: 0 <= i < count ==> FragOk(mss, Split(mss, data, count, stream)[i])
  {
    SplitSizes(mss, data, count, stream);
    SplitFrg(mss, data, count, stream);
  }

  lemma SendKeeps(cb: Cb, data: Bytes)
    requires CbOk(cb)
    ensures CbOk(SendOn(cb, data).cb)
    ensures var cb' := SendOn(cb, data).cb; cb' == cb.(snd := cb.snd.(queue := cb'.snd.queue))
  {
    var mss, q := cb.cfg.mss, cb.snd.queue;
    var q' := if cb.cfg.stream then Extend(mss, q, data) else q;
    assert forall i :: 0 <= i < |q'| ==> FragOk(mss, q'[i]);
    var rest := if cb.cfg.stream then data[Min(|data|, Room(mss, q))..] else data;
    var count := FragmentCount(mss, |rest|);
    if count < WND_RCV {
      SplitFragsOk(mss, rest, count, cb.cfg.stream);
    }
  }

  // ---- ikcp_recv ----

  lemma RecvKeeps(cb: Cb, len: int)
    requires CbOk(cb)
    ensures CbOk(RecvOn(Unbounded, cb, len).cb)
  {
    hide Fits, WindowOk;
    TakeKeeps(cb.cfg.rcvWnd, cb.rcv, MessageEnd(cb.rcv.queue));
    TakeKeeps(cb.cfg.rcvWnd, cb.rcv, 0);
  }

  /** A peek (negative len) changes nothing, although it runs the loop that moves waiting segments
      up and the test that requests a window update. */
  lemma PeekChangesNothing(cb: Cb, len: int)
    requires CbOk(cb) && len < 0
    ensures RecvOn(Unbounded, cb, len).cb == cb
  {
    hide Fits, WindowOk;
    assert cb.rcv.queue[0..] == cb.rcv.queue;
    assert MoveReady(Unbounded, cb.cfg.rcvWnd, cb.rcv) == cb.rcv;
  }

  // ---- ikcp_input ----

  lemma SampleKeeps(cb: Cb, ts: nat)
    requires CbOk(cb)
    ensures cb.cfg.minrto <= SampleRtt(cb.cfg, cb.clk.current, cb.rtt, ts).rto <= RTO_MAX
  {
  }

  lemma AcceptUnaKeeps(cb: Cb, una: nat)
    requires CbOk(cb)
    ensures var s := AcceptUna(Unbounded, cb.snd, una);
      && SenderOk(s, cb.cfg.sndWnd) && FragsOk(cb.cfg.mss, s)
      && cb.snd.una <= s.una && s.nxt == cb.snd.nxt && s.queue == cb.snd.queue
      && (forall g :: g in s.buf <==> g in cb.snd.buf && g.sn >= una)
  {
    UnaKeeps(cb.snd, cb.cfg.sndWnd, una);
    var s := AcceptUna(Unbounded, cb.snd, una);
    forall i | 0 <= i < |s.buf| ensures FragOk(cb.cfg.mss, s.buf[i].frag) {
      assert s.buf[i] in cb.snd.buf;
    }
  }

  lemma AcceptAckKeeps(mss: nat, s: Sender, wnd: nat, sn: nat)
    requires SenderOk(s, wnd) && FragsOk(mss, s)
    ensures var s' := AcceptAck(Unbounded, s, sn);
      && SenderOk(s', wnd) && FragsOk(mss, s')
      && s.una <= s'.una && s'.nxt == s.nxt && s'.queue == s.queue
      && (forall g :: g in s'.buf <==> g in s.buf && g.sn != sn)
  {
    AckKeeps(s, wnd, sn);
    var s' := AcceptAck(Unbounded, s, sn);
    forall i | 0 <= i < |s'.buf| ensures FragOk(mss, s'.buf[i].frag) {
      assert s'.buf[i] in s.buf;
    }
  }

  /** One segment, whatever it claims: una never moves back, nothing enters snd_buf. */
  lemma InputPacketKeeps(cb: Cb, p: Packet)
    requires CbOk(cb) && Plausible(p)
    ensures var cb' := InputPacket(Unbounded, cb, p);
      && CbOk(cb') && cb'.cfg == cb.cfg && cb'.clk == cb.clk && cb'.win == cb.win && cb'.rmtWnd == p.wnd
      && cb.snd.una <= cb'.snd.una && cb'.snd.nxt == cb.snd.nxt && cb'.snd.queue == cb.snd.queue
      && (forall g :: g in cb'.snd.buf <==> g in cb.snd.buf && g.sn >= p.una && !(p.cmd == CMD_ACK && g.sn == p.sn))
  {
    hide Fits, WindowOk, AcceptUna, AcceptAck, AcceptPush, UpdateAck;
    AcceptUnaKeeps(cb, p.una);
    var s := AcceptUna(Unbounded, cb.snd, p.una);
    if p.cmd == CMD_ACK {
      AcceptAckKeeps(cb.cfg.mss, s, cb.cfg.sndWnd, p.sn);
      SampleKeeps(cb, p.ts);
    } else if p.cmd == CMD_PUSH {
      AcceptPushKeeps(cb.cfg.rcvWnd, cb.rcv, p.sn, p.ts, Frag(p.frg, p.data));
    }
  }

  lemma {:induction false} InputPacketsKeep(cb: Cb, ps: seq<Packet>)
    requires CbOk(cb) && forall p :: p in ps ==> Plausible(p)
    ensures var cb' := InputPackets(Unbounded, cb, ps);
      && CbOk(cb') && cb'.cfg == cb.cfg && cb'.clk == cb.clk && cb'.win == cb.win
      && cb.snd.una <= cb'.snd.una && cb'.snd.nxt == cb.snd.nxt && cb'.snd.queue == cb.snd.queue
      && (forall g :: g in cb'.snd.buf ==> g in cb.snd.buf)
  {
    if |ps| > 0 {
      hide CbOk, InputPacket;
      var n := |ps| - 1;
      InputPacketsKeep(cb, ps[..n]);
      InputPacketKeeps(InputPackets(Unbounded, cb, ps[..n]), ps[n]);
    }
  }

  /** The closing part of ikcp_input keeps the invariant for any number passed as the largest
      acknowledgement, and opens the congestion window as GrowKeeps says. */
  lemma FinishKeeps(cb: Cb, prevUna: nat, a: MaxAck)
    requires CbOk(cb)
    ensures var cb' := FinishInput(Unbounded, cb, prevUna, a);
      && CbOk(cb')
      && cb'.snd == cb.snd.(buf := cb'.snd.buf) && |cb'.snd.buf| == |cb.snd.buf|
      && (forall i :: 0 <= i < |cb.snd.buf| ==> cb'.snd.buf[i] == cb.snd.buf[i].(fastack := cb'.snd.buf[i].fastack))
      && cb.win.cwnd <= cb'.win.cwnd <= cb.win.cwnd + (if cb.win.cwnd < cb.win.ssthresh then 1 else 2)
      && cb'.win.cwnd <= Max(cb.win.cwnd, cb.rmtWnd)
  {
    GrowKeeps(cb.cfg.mss, WindowLimit(cb.cfg), cb.rmtWnd, cb.win);
    if a.MaxAck? {
      FastackKeeps(cb.snd, cb.cfg.sndWnd, a.sn);
    }
  }

  /** A whole datagram, accepted or cut short by an error. */
  lemma InputKeeps(cb: Cb, ps: seq<Packet>, code: int)
    requires CbOk(cb) && forall p :: p in ps ==> Plausible(p)
    ensures var cb' := Input(Unbounded, cb, ps, code);
      && CbOk(cb') && cb'.cfg == cb.cfg && cb'.clk == cb.clk
      && cb.snd.una <= cb'.snd.una && cb'.snd.nxt == cb.snd.nxt && cb'.snd.queue == cb.snd.queue
      && cb.win.cwnd <= cb'.win.cwnd <= cb.win.cwnd + (if cb.win.cwnd < cb.win.ssthresh then 1 else 2)
      && cb'.win.cwnd <= Max(cb.win.cwnd, cb'.rmtWnd)
  {
    hide CbOk, InputPackets, FinishInput, LargestAck;
    InputPacketsKeep(cb, ps);
    var c := InputPackets(Unbounded, cb, ps);
    if code == 0 {
      var a := LargestAck(Unbounded, ps);
      MssPositive(c);
      FinishKeeps(c, cb.snd.una, a);
      FinishFrame(c, cb.snd.una, a);
    }
  }

  lemma MssPositive(cb: Cb)
    requires CbOk(cb)
    ensures cb.cfg.mss > 0
  {
  }

  lemma FinishFrame(cb: Cb, prevUna: nat, a: MaxAck)
    requires cb.cfg.mss > 0
    ensures var cb' := FinishInput(Unbounded, cb, prevUna, a);
      cb'.rmtWnd == cb.rmtWnd && cb'.cfg == cb.cfg && cb'.clk == cb.clk && cb'.rcv == cb.rcv && cb'.probe == cb.probe
  {
  }

  // ---- ikcp_flush and ikcp_update ----

  lemma NumberedKeeps(cb: Cb)
    requires CbOk(cb)
    ensures var s := Numbered(Unbounded, cb); var k := MoveCount(cb.snd, SendLimit(cb));
      && SenderOk(s, cb.cfg.sndWnd) && FragsOk(cb.cfg.mss, s)
      && s.una == cb.snd.una && s.nxt == cb.snd.nxt + k && s.queue == cb.snd.queue[k..]
      && s.buf == cb.snd.buf + NewSegments(cb.snd.nxt, cb.snd.queue[..k], cb.rtt.rto, cb.clk.current)
  {
    hide MoveToBuf;
    MoveKeeps(cb.snd, cb.cfg.sndWnd, SendLimit(cb), cb.rtt.rto, cb.clk.current);
    MoveToBufSpec(cb.snd, SendLimit(cb), cb.rtt.rto, cb.clk.current);
  }

  lemma ResentFits(c: Config, inflight: nat)
    requires ConfigOk(c) && inflight <= c.sndWnd
    ensures U32(Max(inflight / 2, THRESH_MIN) + Resent(c)) <= WindowLimit(c)
  {
    hide Fits;
    var t := Max(inflight / 2, THRESH_MIN);
    if c.fastresend > 0 {
      Small(c.fastresend);
    } else {
      ModShift(t - 1, 1);
      Small(t - 1);
    }
  }

  lemma SweepKeeps(mss: nat, wnd: nat, s: Sender, p: Sending)
    requires SenderOk(s, wnd) && FragsOk(mss, s)
    ensures var s' := s.(buf := SweptBuf(p, s.buf)); SenderOk(s', wnd) && FragsOk(mss, s')
  {
    hide Resend;
    ResendFrame(p, s.buf);
  }

  lemma FlushKeeps(cb: Cb)
    requires CbOk(cb) && cb.clk.updated
    ensures CbOk(FlushState(Unbounded, cb))
  {
    hide Fits, WindowOk, MoveToBuf, Choose, Resend, AfterFlush, SenderOk, FragsOk, ReceiverOk;
    NumberedKeeps(cb);
    var s, p := Numbered(Unbounded, cb), SendingOf(cb);
    SweepKeeps(cb.cfg.mss, cb.cfg.sndWnd, s, p);
    InflightBound(s, cb.cfg.sndWnd);
    ResentFits(cb.cfg, s.nxt - s.una);
    AfterFlushKeeps(cb.cfg.mss, WindowLimit(cb.cfg), Chosen(p, s.buf, Fast), s.nxt - s.una, p.resent,
                    Chosen(p, s.buf, Timeout), SendLimit(cb), cb.win);
    ClearAcksKeeps(cb.rcv, cb.cfg.rcvWnd);
  }

  lemma InflightBound(s: Sender, wnd: nat)
    requires SenderOk(s, wnd) && wnd < TWO31
    ensures 0 <= s.nxt - s.una <= wnd && U32(s.nxt - s.una) == s.nxt - s.una
  {
  }

  lemma ClearAcksKeeps(r: Receiver, wnd: nat)
    requires ReceiverOk(r, wnd)
    ensures ReceiverOk(r.(acks := []), wnd)
  {
  }

  lemma ResendFrame(p: Sending, buf: seq<OutSeg>)
    ensures forall i :: 0 <= i < |buf| ==> Resend(p, buf[i]).sn == buf[i].sn && Resend(p, buf[i]).frag == buf[i].frag
  {
  }

  lemma TickOk(x: Cb, now: nat)
    requires CbOk(x)
    ensures CbOk(x.(clk := Advance(x.cfg.interval, x.clk, U32(now)).clk))
    ensures Advance(x.cfg.interval, x.clk, U32(now)).clk.updated
  {
    hide TimeDiff;
  }

  lemma UpdateKeeps(cb: Cb, now: nat)
    requires CbOk(cb) && now < TWO32
    ensures CbOk(Update(Unbounded, cb, now).cb)
  {
    hide Fits, WindowOk, FlushState, TimeDiff;
    var t := Advance(cb.cfg.interval, cb.clk, now);
    var c := cb.(clk := t.clk);
    assert CbOk(c);
    FlushKeeps(c);
  }

  lemma BufferFits(cb: Cb)
    requires CbOk(cb)
    ensures forall i :: 0 <= i < |Numbered(Unbounded, cb).buf| ==> FragOk(cb.cfg.mss, Numbered(Unbounded, cb).buf[i].frag)
    ensures cb.clk.current < TWO32 && cb.cfg.mtu == cb.cfg.mss + OVERHEAD
    ensures forall i :: 0 <= i < |cb.rcv.acks| ==> cb.rcv.acks[i].ts < TWO32
  {
    hide Fits, WindowOk, Numbered;
    NumberedKeeps(cb);
  }

  /** Every segment a flush sends fits a datagram, so the packing theorem applies to it. */
  lemma FlushPacketsFit(cb: Cb)
    requires CbOk(cb)
    ensures forall i :: 0 <= i < |FlushPackets(Unbounded, cb)| ==> PacketSize(FlushPackets(Unbounded, cb)[i]) <= cb.cfg.mtu
    ensures forall p :: p in FlushPackets(Unbounded, cb) ==>
      KnownCommand(p.cmd) && p.frg < 256 && p.wnd <= MAX_WND && p.ts < TWO32 && |p.data| <= cb.cfg.mss && p.una == cb.rcv.nxt
  {
    hide CbOk, Numbered, Choose, ProbeStep;
    BufferFits(cb);
    var s, sp := Numbered(Unbounded, cb), SendingOf(cb);
    var ps := FlushPackets(Unbounded, cb);
    forall p | p in ps
      ensures KnownCommand(p.cmd) && p.frg < 256 && p.wnd <= MAX_WND && p.ts < TWO32 && |p.data| <= cb.cfg.mss && p.una == cb.rcv.nxt
    {
      SweptMembers(sp, s.buf, p);
    }
    forall i | 0 <= i < |ps| ensures PacketSize(ps[i]) <= cb.cfg.mtu {
      assert ps[i] in ps;
    }
  }

  /** The segments of a flush: acknowledgements in arrival order, then WASK and WINS when asked
      for, then the due data segments by number. */
  lemma FlushOrder(cb: Cb)
    requires CbOk(cb)
    ensures var n := |cb.rcv.acks|; var ps := FlushPackets(Unbounded, cb);
      var p := ProbeStep(cb.probe, cb.rmtWnd, cb.clk.current);
      var k := n + (if p.ask then 1 else 0) + (if p.tell then 1 else 0);
      && k <= |ps|
      && (forall i :: 0 <= i < n ==> ps[i].cmd == CMD_ACK && ps[i].sn == cb.rcv.acks[i].sn && ps[i].ts == cb.rcv.acks[i].ts)
      && (p.ask ==> ps[n].cmd == CMD_WASK)
      && (p.tell ==> ps[k - 1].cmd == CMD_WINS)
      && (forall i :: n <= i < k ==> if n > 0 then ps[i].sn == ps[n - 1].sn && ps[i].ts == ps[n - 1].ts else ps[i].sn == 0 == ps[i].ts)
      && (forall i :: k <= i < |ps| ==> ps[i].cmd == CMD_PUSH)
      && (forall i, j :: k <= i < j < |ps| ==> ps[i].sn < ps[j].sn)
  {
    hide Fits, WindowOk, MoveToBuf, Choose, ProbeStep, Numbered;
    NumberedKeeps(cb);
    var s, sp := Numbered(Unbounded, cb), SendingOf(cb);
    SweptInOrder(sp, s.buf);
    var d := SweptPackets(sp, s.buf);
    forall i | 0 <= i < |d| ensures d[i].cmd == CMD_PUSH {
      SweptMembers(sp, s.buf, d[i]);
    }
  }

  /** Whatever its command, each of them carries the cumulative acknowledgement and the free space
      of the moment; only data segments have contents, stamped with the clock. */
  lemma FlushHeaders(m: Numbering, cb: Cb, p: Packet)
    requires p in FlushPackets(m, cb)
    ensures p.una == cb.rcv.nxt && p.wnd == (if |cb.rcv.queue| < cb.cfg.rcvWnd then cb.cfg.rcvWnd - |cb.rcv.queue| else 0) % 65536
    ensures if p.cmd == CMD_PUSH then p.ts == cb.clk.current else p.frg == 0 && p.data == []
  {
    hide Numbered, Choose, ProbeStep;
    SweptMembers(SendingOf(cb), Numbered(m, cb).buf, p);
  }

  /** A flush as a whole: those segments, none missing, in datagrams of 24 to mtu bytes. */
  lemma FlushShape(cb: Cb)
    requires CbOk(cb) && cb.clk.updated
    ensures var ds := Flush(Unbounded, cb).out;
      Concat(ds) == FlushPackets(Unbounded, cb) && Chained(cb.cfg.mtu, ds)
  {
    hide Fits, WindowOk, MoveToBuf, Choose, ProbeStep, Numbered, FlushPackets;
    FlushPacketsFit(cb);
    DatagramsConcat(cb.cfg.mtu, FlushPackets(Unbounded, cb));
    DatagramsSized(cb.cfg.mtu, FlushPackets(Unbounded, cb));
  }

  // ---- how much a flush sends ----

  /** A flush numbers as many queued fragments as all the windows leave room for: its own, the one
      the peer announced, and the congestion window unless that is off. */
  lemma FlushFillsWindow(cb: Cb)
    requires CbOk(cb)
    ensures var s, t := cb.snd, FlushState(Unbounded, cb).snd;
      var open := if cb.cfg.nocwnd then Min(cb.cfg.sndWnd, cb.rmtWnd) else Min(cb.win.cwnd, Min(cb.cfg.sndWnd, cb.rmtWnd));
      var n := Min(|s.queue|, Max(0, open - (s.nxt - s.una)));
      t.una == s.una && t.nxt == s.nxt + n && t.queue == s.queue[n..] && |t.buf| == |s.buf| + n
  {
    hide Numbered, ProbeStep, Choose, Resend, Fits, WindowOk;
    NumberedKeeps(cb);
  }

  /** So a flush that numbers anything leaves no more outstanding than the peer announced; and one
      that leaves something queued has used the room up. */
  lemma FlushRespectsWindow(cb: Cb)
    requires CbOk(cb)
    ensures var s, t := cb.snd, FlushState(Unbounded, cb).snd; var out := t.nxt - t.una;
      && (t.nxt > s.nxt ==> out <= cb.rmtWnd && out <= cb.cfg.sndWnd && (cb.cfg.nocwnd || out <= cb.win.cwnd))
      && (|t.queue| > 0 ==> out >= cb.rmtWnd || out >= cb.cfg.sndWnd || (!cb.cfg.nocwnd && out >= cb.win.cwnd))
  {
    hide FlushState, CbOk;
    FlushFillsWindow(cb);
  }

  // ---- how a flush reacts to losses ----

  predicate Overdue(cb: Cb, g: OutSeg) {
    g.xmit > 0 && TimeDiff(cb.clk.current, g.resendts) >= 0
  }

  predicate SkippedOften(cb: Cb, g: OutSeg) {
    && g.xmit > 0 && !Overdue(cb, g)
    && g.fastack >= Resent(cb.cfg) && (S32(g.xmit) <= cb.cfg.fastlimit || cb.cfg.fastlimit <= 0)
  }

  lemma ChosenAmong(p: Sending, buf: seq<OutSeg>, before: seq<OutSeg>, c: Choice)
    requires |before| <= |buf| && buf[..|before|] == before && !c.First?
    requires forall i :: |before| <= i < |buf| ==> buf[i].xmit == 0
    ensures Chosen(p, buf, c) <==> exists g :: g in before && Choose(p, g) == c
  {
    hide TimeDiff, S32;
    if Chosen(p, buf, c) {
      var i :| 0 <= i < |buf| && Choose(p, buf[i]) == c;
      assert i < |before| && buf[i] == before[i];
    }
    if g :| g in before && Choose(p, g) == c {
      var i :| 0 <= i < |before| && before[i] == g;
      assert buf[i] == g;
    }
  }

  lemma ChoiceMeans(cb: Cb, g: OutSeg)
    ensures Choose(SendingOf(cb), g) == Timeout <==> Overdue(cb, g)
    ensures Choose(SendingOf(cb), g) == Fast <==> SkippedOften(cb, g)
  {
    hide TimeDiff, S32, Resent, AnnouncedWnd;
  }

  lemma BufferGrows(cb: Cb)
    requires CbOk(cb)
    ensures var n, buf := |cb.snd.buf|, Numbered(Unbounded, cb).buf;
      n <= |buf| && buf[..n] == cb.snd.buf && forall i :: n <= i < |buf| ==> buf[i].xmit == 0
  {
    hide Numbered;
    NumberedKeeps(cb);
  }

  /** Only segments that were in snd_buf before the flush can count as lost or skipped; those it
      numbers cannot. */
  lemma ChosenWasBuffered(cb: Cb)
    requires CbOk(cb)
    ensures Chosen(SendingOf(cb), Numbered(Unbounded, cb).buf, Timeout) <==> exists g :: g in cb.snd.buf && Overdue(cb, g)
    ensures Chosen(SendingOf(cb), Numbered(Unbounded, cb).buf, Fast) <==> exists g :: g in cb.snd.buf && SkippedOften(cb, g)
  {
    hide CbOk, Numbered, Choose, Overdue, SkippedOften, Chosen, SendingOf;
    BufferGrows(cb);
    var p, buf := SendingOf(cb), Numbered(Unbounded, cb).buf;
    ChosenAmong(p, buf, cb.snd.buf, Timeout);
    ChosenAmong(p, buf, cb.snd.buf, Fast);
    forall g | g in cb.snd.buf
      ensures Choose(p, g) == Timeout <==> Overdue(cb, g)
      ensures Choose(p, g) == Fast <==> SkippedOften(cb, g)
    {
      ChoiceMeans(cb, g);
    }
  }

  /** A flush that finds an overdue segment falls back to one segment and half its sending limit;
      one that only finds skipped segments halves what is in flight; otherwise the window stays. */
  lemma LossReaction(cb: Cb)
    requires CbOk(cb) && cb.win.cwnd >= 1
    ensures var f := FlushState(Unbounded, cb);
      var lost, skipped := (exists g :: g in cb.snd.buf && Overdue(cb, g)), (exists g :: g in cb.snd.buf && SkippedOften(cb, g));
      var open := if cb.cfg.nocwnd then Min(cb.cfg.sndWnd, cb.rmtWnd) else Min(cb.win.cwnd, Min(cb.cfg.sndWnd, cb.rmtWnd));
      && (lost ==> f.win == Window(1, cb.cfg.mss, Max(open / 2, 2)))
      && (!lost && skipped ==> f.win.ssthresh == Max((f.snd.nxt - f.snd.una) / 2, 2) && f.win.cwnd >= 1 && f.win.incr == f.win.cwnd * cb.cfg.mss)
      && (!lost && skipped && cb.cfg.fastresend > 0 && f.win.ssthresh + cb.cfg.fastresend < TWO32 ==>
            f.win.cwnd == f.win.ssthresh + cb.cfg.fastresend)
      && (!lost && !skipped ==> f.win == cb.win)
  {
    hide CbOk, Numbered, Chosen, SweptBuf, ProbeStep, Overdue, SkippedOften, AfterFlush, U32, Resent, Fits;
    ChosenWasBuffered(cb);
    InflightNumbered(cb);
    var s, p := Numbered(Unbounded, cb), SendingOf(cb);
    WindowReaction(cb.cfg.mss, Chosen(p, s.buf, Fast), U32(s.nxt - s.una), cb.cfg, Chosen(p, s.buf, Timeout), SendLimit(cb), cb.win);
  }

  lemma InflightNumbered(cb: Cb)
    requires CbOk(cb)
    ensures cb.cfg.fastresend < TWO31 && Fits(cb.cfg.mss, WindowLimit(cb.cfg))
    ensures var s := Numbered(Unbounded, cb);
      && s.nxt >= s.una && U32(s.nxt - s.una) == s.nxt - s.una
      && U32(Max(U32(s.nxt - s.una) / 2, THRESH_MIN) + Resent(cb.cfg)) <= WindowLimit(cb.cfg)
  {
    NumberedKeeps(cb);
    var s := Numbered(Unbounded, cb);
    InflightBound(s, cb.cfg.sndWnd);
    ResentFits(cb.cfg, s.nxt - s.una);
  }

  lemma WindowReaction(mss: nat, skipped: bool, inflight: nat, c: Config, lost: bool, limit: nat, w: Window)
    requires w.cwnd >= 1 && c.fastresend < TWO31 && Fits(mss, WindowLimit(c))
    requires U32(Max(inflight / 2, THRESH_MIN) + Resent(c)) <= WindowLimit(c)
    ensures var w' := AfterFlush(mss, skipped, inflight, Resent(c), lost, limit, w);
      && (lost ==> w' == Window(1, mss, Max(limit / 2, THRESH_MIN)))
      && (!lost && skipped ==> w'.ssthresh == Max(inflight / 2, THRESH_MIN) && w'.cwnd >= 1 && w'.incr == w'.cwnd * mss)
      && (!lost && skipped && c.fastresend > 0 && w'.ssthresh + c.fastresend < TWO32 ==> w'.cwnd == w'.ssthresh + c.fastresend)
      && (!lost && !skipped ==> w' == w)
  {
    hide Fits;
    if skipped {
      assert c.fastresend > 0 ==> Resent(c) == c.fastresend;
      Product(mss, WindowLimit(c), U32(Max(inflight / 2, THRESH_MIN) + Resent(c)));
      hide U32;
      assert 1 * mss == mss;
    }
  }

  // ---- how an acknowledgement opens the window ----

  /** The congestion window changes only when snd_una advanced and the datagram was accepted to its
      end; then it opens below the peer's window as announced by the datagram: by one in slow start,
      and as said in Opened in congestion avoidance. */
  lemma AckOpensWindow(cb: Cb, ps: seq<Packet>, code: int)
    requires CbOk(cb) && forall p :: p in ps ==> Plausible(p)
    ensures var x := Input(Unbounded, cb, ps, code); var w, w' := cb.win, x.win;
      if code != 0 || x.snd.una == cb.snd.una || w.cwnd >= x.rmtWnd then w' == w
      else if w.cwnd < w.ssthresh then w' == Window(w.cwnd + 1, w.incr + cb.cfg.mss, w.ssthresh)
      else w.incr > 0 && Opened(cb.cfg.mss, x.rmtWnd, w, w')
  {
    hide CbOk, InputPackets, ParseFastack, LargestAck, Grow, Opened, Fits, WindowOk;
    InputPacketsKeep(cb, ps);
    var c := InputPackets(Unbounded, cb, ps);
    WindowParts(c);
    GrowOpens(cb.cfg.mss, WindowLimit(cb.cfg), c.rmtWnd, cb.win);
    if code == 0 {
      FinishKeeps(c, cb.snd.una, LargestAck(Unbounded, ps));
      FinishFrame(c, cb.snd.una, LargestAck(Unbounded, ps));
    }
  }

  lemma WindowParts(cb: Cb)
    requires CbOk(cb)
    ensures var limit := WindowLimit(cb.cfg);
      Fits(cb.cfg.mss, limit) && WindowOk(cb.cfg.mss, cb.win) && cb.win.cwnd <= limit && cb.rmtWnd <= limit
    ensures cb.cfg.mss > 0
  {
  }

  // ---- results of ikcp_recv, and the dead link ----

  /** The codes of ikcp_recv: -1 for an empty queue, -2 while the next message is incomplete, -3 when
      it is longer than the buffer, else its length and the message itself; a refused call changes
      nothing. */
  lemma RecvCodes(m: Numbering, cb: Cb, len: int)
    ensures var r := RecvOn(m, cb, len); var q := cb.rcv.queue; var space := if len < 0 then -len else len;
      && (r.code == -1 <==> |q| == 0)
      && (r.code == -2 <==> |q| > 0 && q[0].frag.frg != 0 && |q| < q[0].frag.frg + 1)
      && (r.code == -3 <==> |q| > 0 && PeekSize(q) > space)
      && (r.code >= 0 ==> r.data == Merge(q) && r.code == |r.data| <= space)
      && r.code >= -3 && (r.code < 0 ==> r.cb == cb && r.data == [])
  {
    hide Take, MessageEnd, Merge;
    MergeLength(cb.rcv.queue);
  }

  /** A flush declares the link dead exactly when it sends some segment for the deadLink-th time or
      a later one; nothing revives it. */
  lemma DeadExactly(cb: Cb)
    requires CbOk(cb) && forall g :: g in cb.snd.buf ==> g.xmit < TWO32 - 1
    ensures var f, n := FlushState(Unbounded, cb), Numbered(Unbounded, cb);
      && |f.snd.buf| == |n.buf|
      && (f.dead <==> cb.dead || exists i :: 0 <= i < |n.buf| && f.snd.buf[i].xmit == n.buf[i].xmit + 1 && f.snd.buf[i].xmit >= cb.cfg.deadLink)
  {
    hide CbOk, Numbered, ProbeStep, AfterFlush, SendLimit, Choose, Resend;
    var p, n := SendingOf(cb), Numbered(Unbounded, cb);
    BufferGrows(cb);
    forall i | 0 <= i < |n.buf| ensures Resend(p, n.buf[i]).xmit == n.buf[i].xmit + 1 <==> !Choose(p, n.buf[i]).Keep? {
      assert n.buf[i].xmit < TWO32 - 1 by {
        if i < |cb.snd.buf| {
          assert n.buf[..|cb.snd.buf|][i] == cb.snd.buf[i] && cb.snd.buf[i] in cb.snd.buf;
        }
      }
      SentCounts(p, n.buf[i]);
    }
  }

  lemma SentCounts(p: Sending, g: OutSeg)
    requires g.xmit < TWO32 - 1
    ensures Resend(p, g).xmit == if Choose(p, g).Keep? then g.xmit else g.xmit + 1
  {
    hide TimeDiff, BackedOff;
  }

  /** What a fresh block starts from. */
  lemma FreshBlock(c: Config)
    ensures var b := Create(c);
      && b.snd.una == b.snd.nxt == b.rcv.nxt == 0 && b.snd.queue == [] && b.snd.buf == [] && b.rcv.queue == b.rcv.buf == [] && b.rcv.acks == []
      && b.rmtWnd == 128 && b.win == Window(0, 0, 2) && b.rtt == Rtt(0, 0, 200)
      && b.clk == Clock(0, 100, false) && !b.probe.ask && !b.probe.tell && b.probe.wait == 0 && !b.dead && b.cfg == c
    ensures var d := DefaultConfig(c.conv);
      && d.conv == c.conv && d.mtu == 1400 && d.mss == 1376 && d.sndWnd == 32 && d.rcvWnd == 128 && d.interval == 100
      && d.nodelay == 0 && d.minrto == 100 && d.fastresend == 0 && d.fastlimit == 5 && !d.nocwnd && !d.stream && d.deadLink == 20
  {
  }
}
