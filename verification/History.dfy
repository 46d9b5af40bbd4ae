/** The sender's log under arbitrary input bytes: what was numbered so far, followed by
    snd_queue, is always exactly what the application handed over, and snd_buf holds nothing
    else. */
module History {
  import opened Numbers
  import opened Wire
  import opened SendWindow
  import opened ReceiveWindow
  import opened Fragments
  import opened Congestion
  import opened Timers
  import opened Transmission
  import opened Kcp
  import opened Invariants
  import opened Wraparound
  import opened Robustness
  import opened EndToEnd

  /** The control block with the fragments numbered so far, the messages accepted, and all bytes
      taken in. */
  datatype Trace = Trace(cb: Cb, log: seq<Frag>, accepted: seq<Message>, absorbed: Bytes)

  /** The fragments that left the queue. */
  function Left(before: seq<Frag>, after: seq<Frag>): seq<Frag> {
    if |after| <= |before| then before[..|before| - |after|] else []
  }

  function Record(t: Trace, call: Call): (r: Trace)
    requires t.cb.cfg.mss > 0
    ensures r.cb == Apply(t.cb, call)
  {
    var cb := Apply(t.cb, call);
    match call
    case CallSend(data) =>
      var code := SendOn(t.cb, data).code;
      var taken := if code == 0 then |data|
                   else if t.cb.cfg.stream then Min(|data|, Room(t.cb.cfg.mss, t.cb.snd.queue)) else 0;
      Trace(cb, t.log, t.accepted + if code == 0 then [data] else [], t.absorbed + data[..taken])
    case CallUpdate(_) => t.(cb := cb, log := t.log + Left(t.cb.snd.queue, cb.snd.queue))
    case CallInput(_) => t.(cb := cb)
    case CallRecv(_) => t.(cb := cb)
  }

  function RecordAll(c: Config, calls: seq<Call>): (r: Trace)
    requires c.mss > 0
    ensures r.cb == Robustness.Run(c, calls)
  {
    if |calls| == 0 then Trace(Create(c), [], [], [])
    else Record(RecordAll(c, calls[..|calls| - 1]), calls[|calls| - 1])
  }

  /** The fragment numbered age before snd_nxt. */
  predicate Carries(log: seq<Frag>, age: nat, f: Frag) {
    0 < age <= |log| && log[|log| - age] == f
  }

  predicate LogOk(s: Sender, log: seq<Frag>) {
    && s.nxt == U32(|log|)
    && (forall g :: g in s.buf ==> Carries(log, Offset(g.sn, s.nxt), g.frag))
  }

  predicate QueuedOk(t: Trace)
    requires t.cb.cfg.mss > 0
  {
    && t.absorbed == Flat(t.log + t.cb.snd.queue)
    && (t.cb.cfg.stream ==> Packed(t.cb.cfg.mss, t.cb.snd.queue))
    && (!t.cb.cfg.stream ==> t.log + t.cb.snd.queue == AllFrags(t.cb.cfg.mss, t.accepted))
  }

  // ---- ikcp_input only removes segments ----

  predicate From(buf: seq<OutSeg>, g: OutSeg) {
    exists g0 :: g0 in buf && g0.sn == g.sn && g0.frag == g.frag
  }

  /** Numbers and contents of what is left were there before. */
  predicate Fewer(buf: seq<OutSeg>, buf': seq<OutSeg>) {
    forall g :: g in buf' ==> From(buf, g)
  }

  lemma {:induction false} UnaFewer(m: Numbering, buf: seq<OutSeg>, una: nat)
    ensures forall g :: g in ParseUna(m, buf, una) ==> g in buf
  {
    hide Diff;
    if |buf| > 0 {
      UnaFewer(m, buf[1..], una);
    }
  }

  lemma {:induction false} RemoveFewer(m: Numbering, buf: seq<OutSeg>, sn: nat)
    ensures forall g :: g in RemoveSn(m, buf, sn) ==> g in buf
  {
    hide Diff;
    if |buf| > 0 {
      RemoveFewer(m, buf[1..], sn);
    }
  }

  lemma {:induction false} BumpFewer(m: Numbering, buf: seq<OutSeg>, sn: nat)
    ensures Fewer(buf, BumpFastack(m, buf, sn))
  {
    hide Diff, U32;
    if |buf| > 0 {
      BumpFewer(m, buf[1..], sn);
      var r := BumpFastack(m, buf, sn);
      forall g | g in r ensures From(buf, g) {
        assert buf[0] in buf;
        if g in BumpFastack(m, buf[1..], sn) {
          var g0 :| g0 in buf[1..] && g0.sn == g.sn && g0.frag == g.frag;
          assert g0 in buf;
        }
      }
    }
  }

  lemma FewerTwice(a: seq<OutSeg>, b: seq<OutSeg>, c: seq<OutSeg>)
    requires Fewer(a, b) && Fewer(b, c)
    ensures Fewer(a, c)
  {
    forall g | g in c ensures From(a, g) {
      var g0 :| g0 in b && g0.sn == g.sn && g0.frag == g.frag;
      assert From(a, g0);
    }
  }

  lemma PacketFewer(m: Numbering, cb: Cb, p: Packet)
    ensures var s := InputPacket(m, cb, p).snd;
      s.nxt == cb.snd.nxt && s.queue == cb.snd.queue && forall g :: g in s.buf ==> g in cb.snd.buf
  {
    hide Diff, AcceptPush, SampleRtt;
    UnaFewer(m, cb.snd.buf, p.una);
    RemoveFewer(m, AcceptUna(m, cb.snd, p.una).buf, p.sn);
  }

  lemma {:induction false} PacketsFewer(m: Numbering, cb: Cb, ps: seq<Packet>)
    ensures var s := InputPackets(m, cb, ps).snd;
      s.nxt == cb.snd.nxt && s.queue == cb.snd.queue && forall g :: g in s.buf ==> g in cb.snd.buf
  {
    if |ps| > 0 {
      hide InputPacket;
      PacketsFewer(m, cb, ps[..|ps| - 1]);
      PacketFewer(m, InputPackets(m, cb, ps[..|ps| - 1]), ps[|ps| - 1]);
    }
  }

  lemma InputFewer(cb: Cb, d: Bytes)
    requires cb.cfg.mss > 0
    ensures var s := InputBytes(cb, d).cb.snd;
      s.nxt == cb.snd.nxt && s.queue == cb.snd.queue && Fewer(cb.snd.buf, s.buf)
  {
    hide InputPackets, LargestAck, Parse, Grow, BumpFastack, Diff;
    SameFewer(cb.snd.buf);
    if |d| >= OVERHEAD {
      var r := Parse(cb.cfg.conv, d);
      PacketsFewer(Wrapped, cb, r.packets);
      InputKeepsConfig(Wrapped, cb, r.packets);
      var c, a := InputPackets(Wrapped, cb, r.packets), LargestAck(Wrapped, r.packets);
      assert Fewer(cb.snd.buf, c.snd.buf);
      if a.MaxAck? {
        BumpFewer(Wrapped, c.snd.buf, a.sn);
        FewerTwice(cb.snd.buf, c.snd.buf, BumpFastack(Wrapped, c.snd.buf, a.sn));
      }
    }
  }

  lemma SameFewer(buf: seq<OutSeg>)
    ensures Fewer(buf, buf)
  {
  }

  lemma FewerLogged(s: Sender, s': Sender, log: seq<Frag>)
    requires LogOk(s, log) && s'.nxt == s.nxt && Fewer(s.buf, s'.buf)
    ensures LogOk(s', log)
  {
    hide Carries, Offset;
    forall g | g in s'.buf ensures Carries(log, Offset(g.sn, s'.nxt), g.frag) {
      assert From(s.buf, g);
    }
  }

  // ---- ikcp_flush moves fragments from the queue to the log ----

  /** What the numbering loop does to a 32-bit sender. */
  lemma Numbers32(cb: Cb)
    requires CbOk32(cb)
    ensures var s := Numbered(Wrapped, cb); var k := |cb.snd.queue| - |s.queue|;
      && 0 <= k <= cb.cfg.sndWnd && s.queue == cb.snd.queue[k..] && s.nxt == U32(cb.snd.nxt + k)
      && |s.buf| == |cb.snd.buf| + k
      && (forall i :: 0 <= i < |cb.snd.buf| ==> s.buf[i] == cb.snd.buf[i])
      && (forall j :: 0 <= j < k ==> s.buf[|cb.snd.buf| + j].sn == U32(cb.snd.nxt + j) && s.buf[|cb.snd.buf| + j].frag == cb.snd.queue[j])
  {
    hide CbOk, CbOk32, U32, Offset, Numbered;
    LiftOk(cb);
    LiftBase(cb);
    var e := LiftCb(cb);
    NumberedKeeps(e);
    NumberedWraps(e);
    LimitBound(e);
    var k := MoveCount(e.snd, SendLimit(e));
    var s := Numbered(Unbounded, e);
    U32Shift(e.snd.nxt, k);
    forall i | 0 <= i < |cb.snd.buf| ensures WrapSeg(s.buf[i]) == cb.snd.buf[i] {
      assert WrapBuf(e.snd.buf)[i] == cb.snd.buf[i] && s.buf[i] == e.snd.buf[i];
    }
    forall j | 0 <= j < k
      ensures var g := WrapSeg(s.buf[|cb.snd.buf| + j]); g.sn == U32(cb.snd.nxt + j) && g.frag == cb.snd.queue[j]
    {
      U32Shift(e.snd.nxt, j);
    }
  }

  lemma LimitBound(e: Cb)
    requires CbOk(e)
    ensures MoveCount(e.snd, SendLimit(e)) <= e.cfg.sndWnd && e.snd.una <= e.snd.nxt
  {
  }

  lemma OffsetShift(base: nat, x: nat, k: nat)
    requires Offset(base, x) + k < TWO32
    ensures Offset(base, U32(x + k)) == Offset(base, x) + k
  {
    hide U32;
    var back: int := 0 - base;
    U32Shift(x + k, back);
    U32Shift(x - base, k);
    Small(Offset(base, x) + k);
    assert x + k + back == x - base + k && U32(x + k) + back == U32(x + k) - base;
  }

  /** Distances from a common base. */
  lemma OffsetBetween(base: nat, x: nat, y: nat)
    requires Offset(base, x) <= Offset(base, y)
    ensures Offset(x, y) == Offset(base, y) - Offset(base, x)
  {
    hide U32;
    U32Shift(y - base, x - base);
    Small(Offset(base, y) - Offset(base, x));
    assert (y - base) - (x - base) == y - x;
  }

  lemma AgeGrows(log: seq<Frag>, more: seq<Frag>, sn: nat, nxt: nat, f: Frag)
    requires nxt == U32(|log|) && sn < TWO32 && Carries(log, Offset(sn, nxt), f) && Offset(sn, nxt) + |more| < TWO32
    ensures Carries(log + more, Offset(sn, U32(nxt + |more|)), f)
  {
    hide U32;
    OffsetShift(sn, nxt, |more|);
  }

  lemma NewAge(log: seq<Frag>, more: seq<Frag>, j: nat)
    requires j < |more| < TWO32
    ensures 0 < |more| - j <= |log + more|
    ensures Carries(log + more, Offset(U32(U32(|log|) + j), U32(|log| + |more|)), more[j])
  {
    U32Shift(|log|, j);
    U32Shift(|log| + |more|, |log| + j);
    Small(|more| - j);
  }

  /** Ages of unacknowledged segments are bounded by the window. */
  lemma AgeBound(cb: Cb, i: nat)
    requires CbOk32(cb) && i < |cb.snd.buf|
    ensures cb.snd.buf[i].sn < TWO32 && 0 < Offset(cb.snd.buf[i].sn, cb.snd.nxt) <= cb.cfg.sndWnd < TWO31
  {
    hide U32, Offset;
    var s := cb.snd;
    assert Offset(s.una, s.buf[i].sn) < Offset(s.una, s.nxt) <= cb.cfg.sndWnd;
    OffsetBetween(s.una, s.buf[i].sn, s.nxt);
  }

  lemma FlushLogged(cb: Cb, log: seq<Frag>)
    requires CbOk32(cb) && LogOk(cb.snd, log)
    ensures var s := FlushState(Wrapped, cb).snd; var moved := Left(cb.snd.queue, s.queue);
      LogOk(s, log + moved) && moved + s.queue == cb.snd.queue
  {
    hide CbOk32, U32, Offset, Carries, Numbered, ProbeStep, Choose, Resend, AfterFlush, SendLimit;
    Numbers32(cb);
    var n, p := Numbered(Wrapped, cb), SendingOf(cb);
    var s := FlushState(Wrapped, cb).snd;
    var k := |cb.snd.queue| - |n.queue|;
    var moved := cb.snd.queue[..k];
    WindowBound(cb);
    ResendFrame(p, n.buf);
    U32Shift(|log|, k);
    forall i | 0 <= i < |s.buf| ensures Carries(log + moved, Offset(s.buf[i].sn, s.nxt), s.buf[i].frag) {
      assert s.buf[i] == Resend(p, n.buf[i]);
      if i < |cb.snd.buf| {
        AgeBound(cb, i);
        assert n.buf[i] == cb.snd.buf[i] && cb.snd.buf[i] in cb.snd.buf;
        AgeGrows(log, moved, cb.snd.buf[i].sn, cb.snd.nxt, cb.snd.buf[i].frag);
      } else {
        var j := i - |cb.snd.buf|;
        assert n.buf[|cb.snd.buf| + j].frag == moved[j];
        NewAge(log, moved, j);
      }
    }
  }

  lemma WindowBound(cb: Cb)
    requires CbOk32(cb)
    ensures cb.cfg.sndWnd < TWO31
  {
  }

  // ---- each call ----

  lemma SendTrace(t: Trace, data: Bytes)
    requires t.cb.cfg.mss > 0 && QueuedOk(t)
    ensures QueuedOk(Record(t, CallSend(data)))
  {
    hide Flat, Packed, AllFrags, Send;
    var mss, queue := t.cb.cfg.mss, t.cb.snd.queue;
    var t' := Record(t, CallSend(data));
    var q := t'.cb.snd.queue;
    if t.cb.cfg.stream {
      SendStream(mss, queue, data);
      FlatAppend(t.log, q);
      FlatAppend(t.log, queue);
      var k := |t'.absorbed| - |t.absorbed|;
      assert data[..|data|] == data;
      assert Flat(q) == Flat(queue) + data[..k];
    } else {
      SendMessage(mss, queue, data);
      FlatAppend(t.log, q);
      FlatAppend(t.log, queue);
      AllFragsSnoc(mss, t.accepted, data);
      assert data[..|data|] == data && data[..0] == [];
      assert t.accepted + [] == t.accepted;
      assert t.log + (queue + SplitMessage(mss, data)) == (t.log + queue) + SplitMessage(mss, data);
    }
  }

  lemma UpdateTrace(t: Trace, now: nat)
    requires CbOk32(t.cb) && LogOk(t.cb.snd, t.log) && t.cb.cfg.mss > 0 && QueuedOk(t)
    ensures var t' := Record(t, CallUpdate(now)); LogOk(t'.cb.snd, t'.log) && QueuedOk(t')
  {
    hide CbOk32, Flat, Packed, AllFrags, FlushState, Advance, Carries, Offset, U32;
    var tick := Advance(t.cb.cfg.interval, t.cb.clk, U32(now));
    var c := t.cb.(clk := tick.clk);
    TickKeeps32(t.cb, U32(now));
    var t' := Record(t, CallUpdate(now));
    if tick.flush {
      FlushLogged(c, t.log);
      PackedTail(t.cb.cfg.mss, t.cb.snd.queue, |t.cb.snd.queue| - |t'.cb.snd.queue|);
      assert t'.log + t'.cb.snd.queue == t.log + t.cb.snd.queue;
    } else {
      assert Left(t.cb.snd.queue, t.cb.snd.queue) == [];
      assert t.log + [] == t.log;
    }
  }

  lemma PackedTail(mss: nat, queue: seq<Frag>, k: nat)
    requires k <= |queue|
    ensures Packed(mss, queue) ==> Packed(mss, queue[k..])
  {
    if Packed(mss, queue) {
      PackedSuffix(mss, queue, k);
    }
  }

  lemma RecvSender(cb: Cb, len: int)
    ensures RecvOn(Wrapped, cb, len).cb.snd == cb.snd
  {
  }

  lemma RecordKeeps(t: Trace, call: Call)
    requires CbOk32(t.cb) && t.cb.cfg.mss > 0 && LogOk(t.cb.snd, t.log) && QueuedOk(t)
    ensures var t' := Record(t, call); LogOk(t'.cb.snd, t'.log) && QueuedOk(t')
  {
    hide CbOk32, Flat, Packed, AllFrags, Carries, Offset, U32, InputBytes, RecvOn, Update, Fewer;
    match call
    case CallSend(data) => SendTrace(t, data);
    case CallUpdate(now) => UpdateTrace(t, now);
    case CallRecv(len) => RecvSender(t.cb, len);
    case CallInput(d) =>
      InputFewer(t.cb, d);
      FewerLogged(t.cb.snd, InputBytes(t.cb, d).cb.snd, t.log);
  }

  /** After any calls with any input bytes: the numbered fragments followed by snd_queue are all
      fragments of the accepted messages (in stream mode: carry exactly the bytes taken in, in
      full segments), snd_nxt counts the numbered ones, and each segment of snd_buf carries the
      fragment logged under its number. */
  lemma {:induction false} HistoryKept(c: Config, calls: seq<Call>)
    requires ConfigOk(c)
    ensures var t := RecordAll(c, calls); LogOk(t.cb.snd, t.log) && QueuedOk(t)
  {
    if |calls| > 0 {
      hide CbOk32, LogOk, QueuedOk, Record;
      var n := |calls| - 1;
      HistoryKept(c, calls[..n]);
      ReachableOk(c, calls[..n]);
      RecordKeeps(RecordAll(c, calls[..n]), calls[n]);
    }
  }
}
