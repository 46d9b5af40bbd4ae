/** The invariants of the 32-bit machine, kept by every entry point for arbitrary input bytes.
    A 32-bit state that meets them is lifted to an unbounded one, and each packet to the
    representative nearest to what it is compared with. */
module Robustness {
  import opened Numbers
  import opened Wire
  import opened SendWindow
  import opened ReceiveWindow
  import opened Fragments
  import opened Congestion
  import opened Timers
  import opened Transmission
  import opened Kcp
  import opened Invariants
  import opened Staleness
  import opened Wraparound

  /** The distance from base forward to x, modulo 2^32. */
  function Offset(base: nat, x: nat): (r: nat)
    ensures r < TWO32
  {
    U32(x - base)
  }

  /** snd_buf is strictly sorted within [snd_una, snd_nxt), seen from snd_una; snd_una is its
      first number, or snd_nxt; at most snd_wnd numbers are outstanding. */
  predicate SenderOk32(s: Sender, wnd: nat) {
    && s.una < TWO32 && s.nxt < TWO32
    && Offset(s.una, s.nxt) <= wnd
    && (forall i :: 0 <= i < |s.buf| ==> s.buf[i].sn < TWO32 && Offset(s.una, s.buf[i].sn) < Offset(s.una, s.nxt))
    && (forall i, j :: 0 <= i < j < |s.buf| ==> Offset(s.una, s.buf[i].sn) < Offset(s.una, s.buf[j].sn))
    && s.una == (if |s.buf| > 0 then s.buf[0].sn else s.nxt)
  }

  /** rcv_buf is strictly sorted within [rcv_nxt, rcv_nxt + rcv_wnd), seen from rcv_nxt;
      rcv_queue holds the consecutive numbers ending before rcv_nxt; both fit the window, and
      rcv_nxt heads rcv_buf only if rcv_queue is full. */
  predicate ReceiverOk32(r: Receiver, wnd: nat) {
    && r.nxt < TWO32
    && (forall i :: 0 <= i < |r.buf| ==> r.buf[i].sn < TWO32 && Offset(r.nxt, r.buf[i].sn) < wnd)
    && (forall i, j :: 0 <= i < j < |r.buf| ==> Offset(r.nxt, r.buf[i].sn) < Offset(r.nxt, r.buf[j].sn))
    && |r.buf| <= wnd && |r.queue| <= wnd
    && (forall i :: 0 <= i < |r.queue| ==> r.queue[i].sn == U32(r.nxt - |r.queue| + i))
    && (forall i :: 0 <= i < |r.acks| ==> r.acks[i].sn < TWO32)
    && (|r.buf| > 0 && r.buf[0].sn == r.nxt ==> |r.queue| >= wnd)
  }

  predicate CbOk32(cb: Cb) {
    && ConfigOk(cb.cfg)
    && SenderOk32(cb.snd, cb.cfg.sndWnd)
    && FragsOk(cb.cfg.mss, cb.snd)
    && ReceiverOk32(cb.rcv, cb.cfg.rcvWnd)
    && CongestionOk(cb)
    && TimesOk(cb)
    && !cb.probe.ask
  }

  // ---- lifting ----

  function LiftBuf(una: nat, buf: seq<OutSeg>): (r: seq<OutSeg>)
    ensures |r| == |buf|
  {
    seq(|buf|, i requires 0 <= i < |buf| => buf[i].(sn := TWO32 + una + Offset(una, buf[i].sn)))
  }

  function LiftSender(s: Sender): Sender {
    Sender(TWO32 + s.una, TWO32 + s.una + Offset(s.una, s.nxt), s.queue, LiftBuf(s.una, s.buf))
  }

  function LiftIns(nxt: nat, buf: seq<InSeg>): (r: seq<InSeg>)
    ensures |r| == |buf|
  {
    seq(|buf|, i requires 0 <= i < |buf| => buf[i].(sn := TWO32 + nxt + Offset(nxt, buf[i].sn)))
  }

  function LiftQueue(nxt: nat, q: seq<InSeg>): (r: seq<InSeg>)
    requires |q| <= TWO32
    ensures |r| == |q|
  {
    seq(|q|, i requires 0 <= i < |q| => q[i].(sn := TWO32 + nxt - |q| + i))
  }

  function LiftReceiver(r: Receiver): Receiver
    requires |r.queue| <= TWO32
  {
    Receiver(TWO32 + r.nxt, LiftIns(r.nxt, r.buf), LiftQueue(r.nxt, r.queue), r.acks)
  }

  function LiftCb(cb: Cb): Cb
    requires |cb.rcv.queue| <= TWO32
  {
    cb.(snd := LiftSender(cb.snd), rcv := LiftReceiver(cb.rcv))
  }

  lemma OffsetWraps(base: nat, x: nat)
    requires base < TWO32 && x < TWO32
    ensures U32(TWO32 + base + Offset(base, x)) == x
  {
    U32Shift(x - base, base);
    ModShift(base + Offset(base, x), 1);
    Small(x);
  }

  lemma LiftSenderOk(s: Sender, wnd: nat)
    requires SenderOk32(s, wnd)
    ensures SenderOk(LiftSender(s), wnd) && WrapSender(LiftSender(s)) == s
    ensures LiftSender(s).una >= TWO32
  {
    hide U32;
    ModShift(s.una, 1);
    Small(s.una);
    Small(0);
    OffsetWraps(s.una, s.nxt);
    var l := LiftSender(s);
    forall i | 0 <= i < |s.buf| ensures WrapSeg(l.buf[i]) == s.buf[i] {
      OffsetWraps(s.una, s.buf[i].sn);
    }
    assert WrapBuf(l.buf) == s.buf;
  }

  lemma LiftReceiverOk(r: Receiver, wnd: nat)
    requires ReceiverOk32(r, wnd) && wnd < TWO31
    ensures ReceiverOk(LiftReceiver(r), wnd) && WrapReceiver(LiftReceiver(r)) == r
  {
    hide U32;
    ModShift(r.nxt, 1);
    Small(r.nxt);
    Small(0);
    var l := LiftReceiver(r);
    forall i | 0 <= i < |r.buf| ensures WrapIn(l.buf[i]) == r.buf[i] {
      OffsetWraps(r.nxt, r.buf[i].sn);
    }
    forall i | 0 <= i < |r.queue| ensures WrapIn(l.queue[i]) == r.queue[i] {
      ModShift(r.nxt - |r.queue| + i, 1);
    }
    forall i | 0 <= i < |r.acks| ensures r.acks[i].(sn := U32(r.acks[i].sn)) == r.acks[i] {
      Small(r.acks[i].sn);
    }
    assert WrapIns(l.buf) == r.buf && WrapIns(l.queue) == r.queue && WrapAcks(l.acks) == r.acks;
    if |r.buf| > 0 && l.buf[0].sn == l.nxt {
      assert WrapIn(l.buf[0]) == r.buf[0];
    }
  }

  lemma LiftOk(cb: Cb)
    requires CbOk32(cb)
    ensures CbOk(LiftCb(cb)) && WrapCb(LiftCb(cb)) == cb && LiftCb(cb).snd.una >= TWO32
  {
    hide Fits, WindowOk, U32;
    LiftSenderOk(cb.snd, cb.cfg.sndWnd);
    LiftReceiverOk(cb.rcv, cb.cfg.rcvWnd);
  }

  lemma OffsetExact(base: nat, x: nat)
    requires base <= x < base + TWO32
    ensures Offset(U32(base), U32(x)) == x - base
  {
    U32Shift(x, base);
    Small(x - base);
  }

  lemma WrapSenderOk(s: Sender, wnd: nat)
    requires SenderOk(s, wnd) && wnd < TWO31
    ensures SenderOk32(WrapSender(s), wnd)
    ensures Offset(WrapSender(s).una, WrapSender(s).nxt) == s.nxt - s.una
  {
    hide U32, Offset;
    OffsetExact(s.una, s.nxt);
    forall i | 0 <= i < |s.buf| ensures Offset(U32(s.una), U32(s.buf[i].sn)) == s.buf[i].sn - s.una {
      OffsetExact(s.una, s.buf[i].sn);
    }
  }

  lemma WrapReceiverOk(r: Receiver, wnd: nat)
    requires ReceiverOk(r, wnd) && wnd < TWO31
    ensures ReceiverOk32(WrapReceiver(r), wnd)
  {
    hide U32, Offset;
    BufFits(r.buf, r.nxt, wnd);
    forall i | 0 <= i < |r.buf| ensures Offset(U32(r.nxt), U32(r.buf[i].sn)) == r.buf[i].sn - r.nxt {
      OffsetExact(r.nxt, r.buf[i].sn);
    }
    forall i | 0 <= i < |r.queue| ensures U32(r.queue[i].sn) == U32(U32(r.nxt) - |r.queue| + i) {
      U32Shift(r.nxt, -|r.queue| + i);
    }
    if |r.buf| > 0 && U32(r.buf[0].sn) == U32(r.nxt) {
      EqWraps(r.buf[0].sn, r.nxt);
    }
  }

  lemma WrapOk(cb: Cb)
    requires CbOk(cb)
    ensures CbOk32(WrapCb(cb))
    ensures Offset(U32(cb.snd.una), U32(cb.snd.nxt)) == cb.snd.nxt - cb.snd.una
  {
    hide Fits, WindowOk, U32, Offset, SenderOk32, ReceiverOk32;
    WrapSenderOk(cb.snd, cb.cfg.sndWnd);
    WrapReceiverOk(cb.rcv, cb.cfg.rcvWnd);
  }

  // ---- arbitrary packets ----

  /** The representative of x nearest to base. */
  function LiftNumber(base: nat, x: nat): (y: nat)
    requires base >= TWO31 && x < TWO32
    ensures Near(y, base) && U32(y) == x
  {
    var y := base + TimeDiff(x, base);
    assert U32(y) == x by {
      SameResidue(x, base);
      Small(x);
    }
    y
  }

  function LiftPacket(cb: Cb, p: Packet): (q: Packet)
    requires CbOk(cb) && cb.snd.una >= TWO32 && cb.rcv.nxt + cb.cfg.rcvWnd >= TWO31 && p.sn < TWO32 && p.una < TWO32
    ensures WrapPacket(q) == p && Legible(cb, q) && Heard(cb, q) == q && q == p.(sn := q.sn, una := q.una)
  {
    var una := LiftNumber(cb.snd.una, p.una);
    UnaKeeps(cb.snd, cb.cfg.sndWnd, una);
    TimeDiffExact(una, cb.snd.una);
    var base := if p.cmd == CMD_ACK then AcceptUna(Unbounded, cb.snd, una).una else cb.rcv.nxt + cb.cfg.rcvWnd;
    var sn := LiftNumber(base, p.sn);
    if p.cmd == CMD_PUSH then
      NearFits(cb.cfg.rcvWnd, cb.rcv, sn);
      p.(una := una, sn := sn)
    else p.(una := una, sn := sn)
  }

  /** The number of outstanding segments. */
  function Outstanding(cb: Cb): nat { Offset(cb.snd.una, cb.snd.nxt) }

  /** What one call may do to the sender's numbers: snd_nxt stays and snd_una only moves
      towards it. */
  predicate UnaAdvances(cb: Cb, cb': Cb) {
    cb'.snd.nxt == cb.snd.nxt && cb'.snd.queue == cb.snd.queue && Outstanding(cb') <= Outstanding(cb)
  }

  lemma InputPacketKeeps32(cb: Cb, p: Packet)
    requires CbOk32(cb) && Encodable(p)
    ensures var cb' := InputPacket(Wrapped, cb, p);
      CbOk32(cb') && UnaAdvances(cb, cb') && cb'.cfg == cb.cfg && cb'.win == cb.win
  {
    hide Fits, WindowOk, U32, Offset, CbOk32, CbOk, InputPacket, Legible, Heard;
    assert |cb.rcv.queue| <= TWO32 by { LiftOk2(cb); }
    LiftOk(cb);
    var e := LiftCb(cb);
    LiftBase(cb);
    var q := LiftPacket(e, p);
    InputPacketWraps(e, q);
    InputPacketKeeps(e, q);
    WrapOk(e);
    WrapOk(InputPacket(Unbounded, e, q));
  }

  lemma LiftOk2(cb: Cb)
    requires CbOk32(cb)
    ensures |cb.rcv.queue| <= TWO32
  {
  }

  lemma LiftBase(cb: Cb)
    requires CbOk32(cb)
    ensures |cb.rcv.queue| <= TWO32
    ensures LiftCb(cb).rcv.nxt >= TWO32 && LiftCb(cb).cfg == cb.cfg
  {
  }

  lemma {:induction false} InputPacketsKeep32(cb: Cb, ps: seq<Packet>)
    requires CbOk32(cb) && forall p :: p in ps ==> Encodable(p)
    ensures var cb' := InputPackets(Wrapped, cb, ps);
      CbOk32(cb') && UnaAdvances(cb, cb') && cb'.cfg == cb.cfg && cb'.win == cb.win
  {
    if |ps| > 0 {
      hide CbOk32, InputPacket, Encodable, Offset;
      var n := |ps| - 1;
      InputPacketsKeep32(cb, ps[..n]);
      InputPacketKeeps32(InputPackets(Wrapped, cb, ps[..n]), ps[n]);
    }
  }

  lemma FastackKeeps32(cb: Cb, sn: nat)
    requires CbOk32(cb) && sn < TWO32
    ensures var s := ParseFastack(Wrapped, cb.snd, sn);
      SenderOk32(s, cb.cfg.sndWnd) && FragsOk(cb.cfg.mss, s) && s == cb.snd.(buf := s.buf)
  {
    hide Fits, WindowOk, U32, Offset, SenderOk32, ReceiverOk32, ParseFastack;
    LiftOk(cb);
    var e := LiftSender(cb.snd);
    assert WrapSender(e) == cb.snd && e == LiftCb(cb).snd;
    var y := LiftNumber(e.una, sn);
    FastackWraps(e, cb.cfg.sndWnd, y);
    FastackKeeps(e, cb.cfg.sndWnd, y);
    WrapSenderOk(ParseFastack(Unbounded, e, y), cb.cfg.sndWnd);
    var s' := ParseFastack(Unbounded, e, y);
    assert forall i :: 0 <= i < |s'.buf| ==> WrapBuf(s'.buf)[i].frag == e.buf[i].frag;
  }

  lemma {:induction false} LargestAckBound(m: Numbering, ps: seq<Packet>)
    requires forall p :: p in ps ==> Encodable(p)
    ensures LargestAck(m, ps).MaxAck? ==> LargestAck(m, ps).sn < TWO32
  {
    if |ps| > 0 {
      hide Diff;
      LargestAckBound(m, ps[..|ps| - 1]);
      assert ps[|ps| - 1] in ps;
    }
  }

  lemma FinishKeeps32(cb: Cb, prevUna: nat, a: MaxAck)
    requires CbOk32(cb) && (a.MaxAck? ==> a.sn < TWO32)
    ensures var cb' := FinishInput(Wrapped, cb, prevUna, a);
      && CbOk32(cb') && UnaAdvances(cb, cb') && cb'.cfg == cb.cfg && cb'.rmtWnd == cb.rmtWnd
      && cb.win.cwnd <= cb'.win.cwnd <= cb.win.cwnd + (if cb.win.cwnd < cb.win.ssthresh then 1 else 2)
      && cb'.win.cwnd <= Max(cb.win.cwnd, cb.rmtWnd)
  {
    hide Fits, WindowOk, U32, Offset, SenderOk32, ReceiverOk32, ParseFastack, Grow, Diff;
    GrowKeeps(cb.cfg.mss, WindowLimit(cb.cfg), cb.rmtWnd, cb.win);
    if a.MaxAck? {
      FastackKeeps32(cb, a.sn);
    }
  }

  /** ikcp_input on arbitrary bytes keeps the invariant, never moves snd_una back, and opens the
      congestion window by at most one segment in slow start, two in avoidance, and never
      beyond the peer's window. */
  lemma InputBytesKeep(cb: Cb, d: Bytes)
    requires CbOk32(cb)
    ensures var cb' := InputBytes(cb, d).cb;
      && CbOk32(cb') && UnaAdvances(cb, cb') && cb'.cfg == cb.cfg
      && cb.win.cwnd <= cb'.win.cwnd <= cb.win.cwnd + (if cb.win.cwnd < cb.win.ssthresh then 1 else 2)
      && cb'.win.cwnd <= Max(cb.win.cwnd, cb'.rmtWnd)
  {
    hide Offset, InputPackets, FinishInput, LargestAck, Parse, CbOk32, Encodable;
    if |d| >= OVERHEAD {
      var r := Parse(cb.cfg.conv, d);
      ParsedEncodable(cb.cfg.conv, d);
      InputPacketsKeep32(cb, r.packets);
      LargestAckBound(Wrapped, r.packets);
      var c := InputPackets(Wrapped, cb, r.packets);
      if r.code == 0 {
        MssPositive32(c);
        FinishKeeps32(c, cb.snd.una, LargestAck(Wrapped, r.packets));
      }
    }
  }

  /** What ikcp_input returns, read off the bytes: -1 with nothing changed for less than a header;
      otherwise the code of the first refused segment, all before it processed, and 0 when there
      is none. */
  lemma InputReturns(cb: Cb, ps: seq<Packet>, bad: Bytes)
    requires cb.cfg.mss > 0 && cb.cfg.conv < TWO32 && forall p :: p in ps ==> Encodable(p)
    requires |bad| < 24 || HeaderCode(cb.cfg.conv, bad) != 0
    ensures var r := InputBytes(cb, EncodeAll(cb.cfg.conv, ps) + bad);
      if |ps| == 0 && |bad| < 24 then r.code == -1 && r.cb == cb
      else
        && r.code == (if |bad| < 24 then 0 else HeaderCode(cb.cfg.conv, bad))
        && r.cb == if r.code == 0 then Input(Wrapped, cb, ps, 0) else InputPackets(Wrapped, cb, ps)
  {
    hide HeaderCode, Encodable, InputPackets, FinishInput, LargestAck;
    ParseStops(cb.cfg.conv, ps, bad);
    InputKeepsConfig(Wrapped, cb, ps);
    hide Parse;
    if |ps| == 0 {
      assert EncodeAll(cb.cfg.conv, ps) + bad == bad;
    }
  }

  lemma MssPositive32(cb: Cb)
    requires CbOk32(cb)
    ensures cb.cfg.mss > 0
  {
  }

  // ---- the other entry points ----

  lemma SendKeeps32(cb: Cb, data: Bytes)
    requires CbOk32(cb)
    ensures CbOk32(SendOn(cb, data).cb) && SendOn(cb, data).cb.cfg == cb.cfg
  {
    hide Fits, WindowOk, U32, Offset, SenderOk32, ReceiverOk32, Send;
    LiftOk(cb);
    SendKeeps(LiftCb(cb), data);
    SendWraps(LiftCb(cb), data);
    WrapOk(SendOn(LiftCb(cb), data).cb);
  }

  lemma RecvKeeps32(cb: Cb, len: int)
    requires CbOk32(cb)
    ensures CbOk32(RecvOn(Wrapped, cb, len).cb) && RecvOn(Wrapped, cb, len).cb.cfg == cb.cfg
  {
    hide Fits, WindowOk, U32, Offset, SenderOk32, ReceiverOk32, Recv;
    LiftOk(cb);
    RecvKeeps(LiftCb(cb), len);
    RecvWraps(LiftCb(cb), len);
    WrapOk(RecvOn(Unbounded, LiftCb(cb), len).cb);
  }

  lemma UpdateKeeps32(cb: Cb, now: nat)
    requires CbOk32(cb) && now < TWO32
    ensures CbOk32(Update(Wrapped, cb, now).cb) && Update(Wrapped, cb, now).cb.cfg == cb.cfg
  {
    hide Fits, WindowOk, U32, Offset, SenderOk32, ReceiverOk32, FlushState, FlushPackets, Advance;
    LiftOk(cb);
    UpdateKeeps(LiftCb(cb), now);
    UpdateWraps(LiftCb(cb), now);
    WrapOk(Update(Unbounded, LiftCb(cb), now).cb);
    UpdateConfig(cb, now);
  }

  lemma TickKeeps32(cb: Cb, now: nat)
    requires CbOk32(cb) && now < TWO32
    ensures CbOk32(cb.(clk := Advance(cb.cfg.interval, cb.clk, now).clk))
    ensures Advance(cb.cfg.interval, cb.clk, now).clk.updated
  {
    hide TimeDiff, Offset;
  }

  /** Every segment the program sends fits one datagram. */
  lemma FlushPacketsFit32(cb: Cb)
    requires CbOk32(cb)
    ensures forall p :: p in FlushPackets(Wrapped, cb) ==> PacketSize(p) <= cb.cfg.mtu
  {
    hide Fits, WindowOk, U32, Offset, SenderOk32, ReceiverOk32, FlushPackets;
    LiftOk(cb);
    var e := LiftCb(cb);
    FlushPacketsFit(e);
    FlushWraps(e);
    var ps := FlushPackets(Unbounded, e);
    forall p | p in WrapPackets(ps) ensures PacketSize(p) <= cb.cfg.mtu {
      var i :| 0 <= i < |ps| && WrapPackets(ps)[i] == p;
    }
  }

  /** And can be encoded. */
  lemma FlushEncodable32(cb: Cb)
    requires CbOk32(cb)
    ensures forall p :: p in FlushPackets(Wrapped, cb) ==> Encodable(p)
  {
    hide Fits, WindowOk, U32, Offset, SenderOk32, ReceiverOk32, FlushPackets;
    LiftOk(cb);
    var e := LiftCb(cb);
    FlushPacketsFit(e);
    FlushWraps(e);
    var ps := FlushPackets(Unbounded, e);
    forall p | p in WrapPackets(ps) ensures Encodable(p) {
      var i :| 0 <= i < |ps| && WrapPackets(ps)[i] == p;
      assert ps[i] in ps;
    }
  }

  lemma FlushKeeps32(cb: Cb)
    requires CbOk32(cb)
    ensures CbOk32(Flush(Wrapped, cb).cb)
  {
    if cb.clk.updated {
      hide Fits, WindowOk, U32, Offset, SenderOk32, ReceiverOk32, FlushState, FlushPackets;
      LiftOk(cb);
      FlushKeeps(LiftCb(cb));
      FlushWraps(LiftCb(cb));
      WrapOk(FlushState(Unbounded, LiftCb(cb)));
    }
  }

  lemma UpdateConfig(cb: Cb, now: nat)
    ensures Update(Wrapped, cb, now).cb.cfg == cb.cfg
  {
  }

  // ---- whole runs ----

  /** A call of the engine's interface; datagrams are arbitrary bytes. */
  datatype Call = CallSend(data: Bytes) | CallRecv(len: int) | CallInput(datagram: Bytes) | CallUpdate(now: nat)

  function Apply(cb: Cb, call: Call): (r: Cb)
    requires cb.cfg.mss > 0
    ensures r.cfg == cb.cfg
  {
    match call
    case CallSend(data) => SendOn(cb, data).cb
    case CallRecv(len) => RecvOn(Wrapped, cb, len).cb
    case CallInput(d) =>
      InputKeepsConfig(Wrapped, cb, Parse(cb.cfg.conv, d).packets);
      InputBytes(cb, d).cb
    case CallUpdate(now) => Update(Wrapped, cb, U32(now)).cb
  }

  lemma ApplyKeeps(cb: Cb, call: Call)
    requires CbOk32(cb)
    ensures CbOk32(Apply(cb, call))
  {
    hide CbOk32, InputBytes, Update, RecvOn, SendOn, Offset;
    MssPositive32(cb);
    match call
    case CallSend(data) => SendKeeps32(cb, data);
    case CallRecv(len) => RecvKeeps32(cb, len);
    case CallInput(d) => InputBytesKeep(cb, d);
    case CallUpdate(now) => UpdateKeeps32(cb, U32(now));
  }

  /** The state after a run of calls on a fresh control block. */
  function Run(c: Config, calls: seq<Call>): (r: Cb)
    requires c.mss > 0
    ensures r.cfg == c
  {
    if |calls| == 0 then Create(c) else Apply(Run(c, calls[..|calls| - 1]), calls[|calls| - 1])
  }

  /** Every reachable state, whatever the peer sent, meets the sender, receiver and congestion
      invariants. */
  lemma {:induction false} ReachableOk(c: Config, calls: seq<Call>)
    requires ConfigOk(c)
    ensures CbOk32(Run(c, calls))
  {
    hide CbOk32, Apply;
    if |calls| == 0 {
      CreateOk(c);
      WrapOk(Create(c));
      WrapCreate(c);
    } else {
      var n := |calls| - 1;
      ReachableOk(c, calls[..n]);
      ApplyKeeps(Run(c, calls[..n]), calls[n]);
    }
  }

  lemma WrapCreate(c: Config)
    ensures WrapCb(Create(c)) == Create(c)
  {
  }
}
