/** The machine with 32-bit sequence numbers refines the one with unbounded numbers, entry
    point by entry point. */
module Wraparound {
  import opened Numbers
  import opened Wire
  import opened SendWindow
  import opened ReceiveWindow
  import opened Fragments
  import opened Congestion
  import opened Timers
  import opened Packing
  import opened Transmission
  import opened Kcp
  import opened Invariants
  import opened Staleness

  /** The 32-bit state that stands for an unbounded one. */
  function WrapCb(cb: Cb): Cb { cb.(snd := WrapSender(cb.snd), rcv := WrapReceiver(cb.rcv)) }

  // ---- ikcp_send ----

  lemma SendWraps(cb: Cb, data: Bytes)
    requires cb.cfg.mss > 0
    ensures SendOn(WrapCb(cb), data) == SendOutcome(SendOn(cb, data).code, WrapCb(SendOn(cb, data).cb))
  {
    hide Send;
  }

  // ---- ikcp_recv ----

  lemma {:induction false} MessageWraps(q: seq<InSeg>)
    ensures MessageEnd(WrapIns(q)) == MessageEnd(q)
    ensures Merge(WrapIns(q)) == Merge(q)
    ensures PeekLength(WrapIns(q)) == PeekLength(q)
  {
    if |q| > 0 {
      MessageWraps(q[1..]);
      assert WrapIns(q)[1..] == WrapIns(q[1..]);
    }
  }

  lemma RecvWraps(cb: Cb, len: int)
    requires CbOk(cb)
    ensures var r, w := RecvOn(Unbounded, cb, len), RecvOn(Wrapped, WrapCb(cb), len);
      w.code == r.code && w.data == r.data && w.cb == WrapCb(r.cb)
  {
    hide Fits, WindowOk, MessageEnd, Merge, PeekLength, Take;
    var wnd, r := cb.cfg.rcvWnd, cb.rcv;
    MessageWraps(r.queue);
    TakeWraps(wnd, r, MessageEnd(r.queue));
    TakeWraps(wnd, r, 0);
  }

  // ---- ikcp_input ----

  /** The 32-bit program reads the numbers of a packet as they are meant: an acknowledged number is
      in reach of its comparisons, and una and the number of a data segment are, or are old in a
      way that does no harm. */
  predicate Legible(cb: Cb, p: Packet) {
    && UnaFits(cb.snd, p.una)
    && (p.cmd == CMD_ACK ==> Near(p.sn, AcceptUna(Unbounded, cb.snd, p.una).una))
    && (p.cmd == CMD_PUSH ==> PushFits(cb.cfg.rcvWnd, cb.rcv, p.sn))
  }

  /** A data segment too old to be acknowledged again counts for its header only. */
  function Blank(p: Packet): Packet { if p.cmd == CMD_PUSH then p.(cmd := CMD_WINS) else p }

  /** What the 32-bit program makes of a packet. */
  function Heard(cb: Cb, p: Packet): Packet {
    if Unheard(cb.cfg.rcvWnd, cb.rcv, p.sn) then Blank(p) else p
  }

  lemma InputPacketWraps(cb: Cb, p: Packet)
    requires CbOk(cb) && Legible(cb, p)
    ensures InputPacket(Wrapped, WrapCb(cb), WrapPacket(p)) == WrapCb(InputPacket(Unbounded, cb, Heard(cb, p)))
  {
    hide Fits, WindowOk, ParseUna, ParseAck, AcceptPush, SampleRtt, FragsOk, UnaFits, PushFits, Unheard;
    UnaWrapsAny(cb.snd, cb.cfg.sndWnd, p.una);
    UnaKeeps(cb.snd, cb.cfg.sndWnd, p.una);
    if p.cmd == CMD_ACK {
      AckWraps(AcceptUna(Unbounded, cb.snd, p.una), cb.cfg.sndWnd, p.sn);
    } else if p.cmd == CMD_PUSH {
      PushWrapsAny(cb.cfg.rcvWnd, cb.rcv, p.sn, p.ts, Frag(p.frg, p.data));
    }
  }

  /** The segments of a datagram as the 32-bit program hears them, each when its turn comes. */
  function HeardAll(cb: Cb, ps: seq<Packet>): (r: seq<Packet>)
    ensures |r| == |ps|
  {
    if |ps| == 0 then []
    else
      var front := HeardAll(cb, ps[..|ps| - 1]);
      front + [Heard(InputPackets(Unbounded, cb, front), ps[|ps| - 1])]
  }

  /** Every segment of a datagram is legible when its turn comes. */
  predicate LegibleEach(cb: Cb, ps: seq<Packet>) {
    |ps| > 0 ==>
      var n := |ps| - 1;
      LegibleEach(cb, ps[..n]) && Legible(InputPackets(Unbounded, cb, HeardAll(cb, ps[..n])), ps[n])
  }

  /** Moreover all acknowledged numbers are among the 2^31 before snd_nxt. */
  predicate LegibleAll(cb: Cb, ps: seq<Packet>) {
    && LegibleEach(cb, ps)
    && (forall p :: p in ps && p.cmd == CMD_ACK ==> cb.snd.nxt - TWO31 <= p.sn < cb.snd.nxt)
  }

  /** qs is ps with some data segments blanked. */
  predicate SomeBlanked(ps: seq<Packet>, qs: seq<Packet>) {
    |qs| == |ps| && forall i :: 0 <= i < |ps| ==> qs[i] == ps[i] || qs[i] == Blank(ps[i])
  }

  lemma {:induction false} HeardIsBlanked(cb: Cb, ps: seq<Packet>)
    ensures SomeBlanked(ps, HeardAll(cb, ps))
  {
    if |ps| > 0 {
      hide InputPackets, Unheard;
      HeardIsBlanked(cb, ps[..|ps| - 1]);
    }
  }

  lemma {:induction false} BlankedLargestAck(ps: seq<Packet>, qs: seq<Packet>)
    requires SomeBlanked(ps, qs)
    ensures LargestAck(Unbounded, qs) == LargestAck(Unbounded, ps)
  {
    if |ps| > 0 {
      BlankedLargestAck(ps[..|ps| - 1], qs[..|ps| - 1]);
    }
  }

  lemma BlankedPlausible(ps: seq<Packet>, qs: seq<Packet>)
    requires SomeBlanked(ps, qs) && forall p :: p in ps ==> Plausible(p)
    ensures forall q :: q in qs ==> Plausible(q)
  {
    forall q | q in qs ensures Plausible(q) {
      var i :| 0 <= i < |qs| && qs[i] == q;
      assert ps[i] in ps;
    }
  }

  lemma HeardLast(cb: Cb, ps: seq<Packet>)
    requires |ps| > 0
    ensures var front := HeardAll(cb, ps[..|ps| - 1]);
      HeardAll(cb, ps) == front + [Heard(InputPackets(Unbounded, cb, front), ps[|ps| - 1])]
  {
    hide Heard, InputPackets;
  }

  lemma HeardKeeps(cb: Cb, ps: seq<Packet>)
    requires CbOk(cb) && forall p :: p in ps ==> Plausible(p)
    ensures CbOk(InputPackets(Unbounded, cb, HeardAll(cb, ps)))
  {
    hide CbOk, InputPackets, HeardAll, Plausible, SomeBlanked;
    HeardIsBlanked(cb, ps);
    BlankedPlausible(ps, HeardAll(cb, ps));
    InputPacketsKeep(cb, HeardAll(cb, ps));
  }

  lemma {:induction false} InputPacketsWrap(cb: Cb, ps: seq<Packet>)
    requires CbOk(cb) && (forall p :: p in ps ==> Plausible(p)) && LegibleEach(cb, ps)
    ensures InputPackets(Wrapped, WrapCb(cb), WrapPackets(ps)) == WrapCb(InputPackets(Unbounded, cb, HeardAll(cb, ps)))
  {
    if |ps| > 0 {
      hide CbOk, InputPacket, Legible, WrapCb, WrapPacket, Plausible, Heard, HeardAll;
      var n := |ps| - 1;
      var front := HeardAll(cb, ps[..n]);
      HeardLast(cb, ps);
      InputPacketsWrap(cb, ps[..n]);
      HeardKeeps(cb, ps[..n]);
      assert ps[n] in ps;
      InputPacketWraps(InputPackets(Unbounded, cb, front), ps[n]);
      assert WrapPackets(ps)[..n] == WrapPackets(ps[..n]);
      assert HeardAll(cb, ps)[..n] == front;
    }
  }

  function WrapMax(a: MaxAck): MaxAck { if a.NoAck? then a else MaxAck(U32(a.sn)) }

  lemma {:induction false} LargestAckWraps(ps: seq<Packet>, lo: int)
    requires forall p :: p in ps && p.cmd == CMD_ACK ==> lo <= p.sn < lo + TWO31
    ensures LargestAck(Wrapped, WrapPackets(ps)) == WrapMax(LargestAck(Unbounded, ps))
    ensures LargestAck(Unbounded, ps).MaxAck? ==> lo <= LargestAck(Unbounded, ps).sn < lo + TWO31
  {
    hide U32;
    if |ps| > 0 {
      var n := |ps| - 1;
      LargestAckWraps(ps[..n], lo);
      assert WrapPackets(ps)[..n] == WrapPackets(ps[..n]);
      var acc := LargestAck(Unbounded, ps[..n]);
      assert ps[n] in ps;
      if ps[n].cmd == CMD_ACK && acc.MaxAck? {
        DiffWraps(ps[n].sn, acc.sn);
      }
    }
  }

  lemma FinishWraps(cb: Cb, prevUna: nat, a: MaxAck)
    requires CbOk(cb) && prevUna <= cb.snd.una <= prevUna + cb.cfg.sndWnd
    requires a.MaxAck? ==> Near(a.sn, cb.snd.una)
    ensures FinishInput(Wrapped, WrapCb(cb), U32(prevUna), WrapMax(a)) == WrapCb(FinishInput(Unbounded, cb, prevUna, a))
  {
    hide Fits, WindowOk, Grow, ParseFastack, U32, FragsOk;
    DiffWraps(cb.snd.una, prevUna);
    if a.MaxAck? {
      FastackWraps(cb.snd, cb.cfg.sndWnd, a.sn);
    }
  }

  lemma InputWraps(cb: Cb, ps: seq<Packet>, code: int)
    requires CbOk(cb) && (forall p :: p in ps ==> Plausible(p)) && LegibleAll(cb, ps)
    ensures Input(Wrapped, WrapCb(cb), WrapPackets(ps), code) == WrapCb(Input(Unbounded, cb, HeardAll(cb, ps), code))
  {
    hide Fits, WindowOk, InputPackets, FinishInput, LargestAck, U32, FragsOk, LegibleEach, HeardAll, SomeBlanked;
    InputPacketsWrap(cb, ps);
    HeardIsBlanked(cb, ps);
    BlankedPlausible(ps, HeardAll(cb, ps));
    BlankedLargestAck(ps, HeardAll(cb, ps));
    InputPacketsKeep(cb, HeardAll(cb, ps));
    var c := InputPackets(Unbounded, cb, HeardAll(cb, ps));
    if code == 0 {
      LargestAckWraps(ps, cb.snd.nxt - TWO31);
      FinishWraps(c, cb.snd.una, LargestAck(Unbounded, ps));
    }
  }

  // ---- ikcp_flush and ikcp_update ----

  lemma NumberedWraps(cb: Cb)
    requires CbOk(cb)
    ensures Numbered(Wrapped, WrapCb(cb)) == WrapSender(Numbered(Unbounded, cb))
  {
    hide Fits, WindowOk;
    MoveWraps(cb.snd, cb.cfg.sndWnd, SendLimit(cb), cb.rtt.rto, cb.clk.current);
  }

  lemma ControlWraps(r: Receiver, wnd: nat, p: Probe)
    ensures ControlPackets(WrapReceiver(r), wnd, p) == WrapPackets(ControlPackets(r, wnd, p))
  {
    hide U32;
    Small(0);
    assert AckPackets(WrapReceiver(r), wnd) == WrapPackets(AckPackets(r, wnd));
  }

  lemma WrapPacketsConcat(a: seq<Packet>, b: seq<Packet>)
    ensures WrapPackets(a + b) == WrapPackets(a) + WrapPackets(b)
  {
  }

  lemma FlushWraps(cb: Cb)
    requires CbOk(cb)
    ensures FlushPackets(Wrapped, WrapCb(cb)) == WrapPackets(FlushPackets(Unbounded, cb))
    ensures FlushState(Wrapped, WrapCb(cb)) == WrapCb(FlushState(Unbounded, cb))
  {
    hide Fits, WindowOk, MoveToBuf, ProbeStep, Choose, Resend, AfterFlush, U32, ControlPackets, Numbered, WindowLimit;
    NumberedWraps(cb);
    var s, p := Numbered(Unbounded, cb), SendingOf(cb);
    var wnd, probe := AnnouncedWnd(cb), ProbeStep(cb.probe, cb.rmtWnd, cb.clk.current);
    SweptPacketsWrap(p, s.buf);
    SweptBufWraps(p, s.buf);
    ControlWraps(cb.rcv, wnd, probe);
    WrapPacketsConcat(ControlPackets(cb.rcv, wnd, probe), SweptPackets(p, s.buf));
    U32Shift(s.nxt, s.una);
    assert U32(U32(s.nxt) - U32(s.una)) == U32(s.nxt - s.una);
    assert WrapReceiver(cb.rcv.(acks := [])) == WrapReceiver(cb.rcv).(acks := []);
  }

  function WrapAll(ds: seq<seq<Packet>>): (r: seq<seq<Packet>>)
    ensures |r| == |ds|
  {
    seq(|ds|, i requires 0 <= i < |ds| => WrapPackets(ds[i]))
  }

  lemma {:induction false} TotalSizeWraps(ps: seq<Packet>)
    ensures TotalSize(WrapPackets(ps)) == TotalSize(ps)
  {
    if |ps| > 0 {
      var n := |ps| - 1;
      TotalSizeWraps(ps[..n]);
      assert WrapPackets(ps)[..n] == WrapPackets(ps[..n]);
    }
  }

  function WrapPack(k: Pack): Pack { Pack(WrapAll(k.done), WrapPackets(k.cur)) }

  lemma PutWraps(mtu: nat, k: Pack, p: Packet)
    ensures Put(mtu, WrapPack(k), WrapPacket(p)) == WrapPack(Put(mtu, k, p))
    ensures Emit(WrapPack(k)) == WrapAll(Emit(k))
  {
    hide TotalSize, U32;
    TotalSizeWraps(k.cur);
    assert WrapAll(k.done + [k.cur]) == WrapAll(k.done) + [WrapPackets(k.cur)];
    assert WrapPackets(k.cur + [p]) == WrapPackets(k.cur) + [WrapPacket(p)];
    assert WrapPackets([p]) == [WrapPacket(p)];
  }

  lemma {:induction false} PutAllWraps(mtu: nat, ps: seq<Packet>)
    ensures PutAll(mtu, WrapPackets(ps)) == WrapPack(PutAll(mtu, ps))
  {
    hide Put, U32;
    if |ps| > 0 {
      var n := |ps| - 1;
      PutAllWraps(mtu, ps[..n]);
      PutWraps(mtu, PutAll(mtu, ps[..n]), ps[n]);
      assert WrapPackets(ps)[..n] == WrapPackets(ps[..n]);
    }
  }

  /** Truncating numbers does not change how segments are packed. */
  lemma DatagramsWrap(mtu: nat, ps: seq<Packet>)
    ensures Datagrams(mtu, WrapPackets(ps)) == WrapAll(Datagrams(mtu, ps))
  {
    hide Put, Emit, PutAll, U32;
    PutAllWraps(mtu, ps);
    PutWraps(mtu, PutAll(mtu, ps), Packet(0, 0, 0, 0, 0, 0, []));
  }

  lemma UpdateWraps(cb: Cb, now: nat)
    requires CbOk(cb) && now < TWO32
    ensures var r, w := Update(Unbounded, cb, now), Update(Wrapped, WrapCb(cb), now);
      w.cb == WrapCb(r.cb) && w.out == WrapAll(r.out)
  {
    hide Fits, WindowOk, FlushState, FlushPackets, TimeDiff, Datagrams, U32;
    var c := cb.(clk := Advance(cb.cfg.interval, cb.clk, now).clk);
    assert CbOk(c);
    FlushWraps(c);
    DatagramsWrap(c.cfg.mtu, FlushPackets(Unbounded, c));
  }
}
