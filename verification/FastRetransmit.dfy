/** Fast retransmission over the life of one segment. */
module FastRetransmit {
  import opened Numbers
  import opened Wire
  import opened SendWindow
  import opened Congestion
  import opened Fragments
  import opened Timers
  import opened Transmission
  import opened Kcp
  import opened Invariants

  /** The control block with counts about the segment numbered sn since it was numbered or last
      fast-resent: how many ikcp_input calls acknowledged a later number, and in how many of them
      the greatest acknowledged number was one in flight; moreover how often it was fast-resent,
      and the calls so far. */
  datatype Life = Life(cb: Cb, later: nat, skips: nat, fasts: nat, ticks: nat)

  datatype Move = MoveSend(data: Bytes) | MoveRecv(len: int) | MoveInput(ps: seq<Packet>, code: int) | MoveUpdate(now: nat)

  /** The call acknowledges a number after sn and gets to the end of the datagram. */
  predicate AcksLater(ps: seq<Packet>, code: int, sn: nat) {
    code == 0 && exists p :: p in ps && p.cmd == CMD_ACK && p.sn > sn
  }

  /** Moreover no number it acknowledges is beyond what was sent. */
  predicate Skips(cb: Cb, ps: seq<Packet>, code: int, sn: nat) {
    AcksLater(ps, code, sn) && forall p :: p in ps && p.cmd == CMD_ACK ==> p.sn < cb.snd.nxt
  }

  /** The control block as a flush inside this update finds it. */
  function AtFlush(cb: Cb, now: nat): Cb {
    cb.(clk := Advance(cb.cfg.interval, cb.clk, U32(now)).clk)
  }

  predicate Flushes(cb: Cb, now: nat) {
    Advance(cb.cfg.interval, cb.clk, U32(now)).flush
  }

  /** The update sends segment sn again because of its fastack count. */
  predicate FastResends(cb: Cb, now: nat, sn: nat) {
    && Flushes(cb, now)
    && (var c := AtFlush(cb, now); var buf := Numbered(Unbounded, c).buf;
        exists i :: 0 <= i < |buf| && buf[i].sn == sn && Choose(SendingOf(c), buf[i]) == Fast)
  }

  function Live(l: Life, sn: nat, mv: Move): (l': Life)
    requires l.cb.cfg.mss > 0
    ensures l'.cb.cfg == l.cb.cfg
  {
    match mv
    case MoveSend(data) => l.(cb := SendOn(l.cb, data).cb, ticks := l.ticks + 1)
    case MoveRecv(len) => l.(cb := RecvOn(Unbounded, l.cb, len).cb, ticks := l.ticks + 1)
    case MoveInput(ps, code) =>
      InputKeepsConfig(Unbounded, l.cb, ps);
      Life(Input(Unbounded, l.cb, ps, code), l.later + if AcksLater(ps, code, sn) then 1 else 0,
           l.skips + if Skips(l.cb, ps, code, sn) then 1 else 0, l.fasts, l.ticks + 1)
    case MoveUpdate(now) =>
      var fast := FastResends(l.cb, now, sn);
      var again := fast || l.cb.snd.nxt <= sn;
      Life(Update(Unbounded, l.cb, now).cb, if again then 0 else l.later, if again then 0 else l.skips,
           l.fasts + if fast then 1 else 0, l.ticks + 1)
  }

  function LiveAll(c: Config, sn: nat, moves: seq<Move>): (l: Life)
    requires c.mss > 0
    ensures l.cb.cfg == c
  {
    if |moves| == 0 then Life(Create(c), 0, 0, 0, 0) else Live(LiveAll(c, sn, moves[..|moves| - 1]), sn, moves[|moves| - 1])
  }

  predicate Sensible(mv: Move) {
    match mv
    case MoveInput(ps, code) => forall p :: p in ps ==> Plausible(p)
    case MoveUpdate(now) => now < TWO32
    case _ => true
  }

  /** fastack is the exact count of skips, and never outruns the later acknowledgements. */
  predicate SegOk(l: Life, g: OutSeg) {
    && g.fastack == l.skips <= l.later
    && l.skips <= l.ticks
    && g.xmit <= l.ticks
    && l.fasts <= (if g.xmit == 0 then 0 else g.xmit - 1)
  }

  predicate LifeOk(l: Life, sn: nat) {
    && CbOk(l.cb)
    && (l.cb.cfg.fastlimit > 0 ==> l.fasts <= l.cb.cfg.fastlimit)
    && (l.cb.snd.nxt <= sn ==> l.fasts == 0)
    && (forall g :: g in l.cb.snd.buf && g.sn == sn ==> SegOk(l, g))
  }

  // ---- ikcp_input ----

  /** It is an acknowledged number and none is greater. */
  lemma {:induction false} LargestIsAck(ps: seq<Packet>)
    ensures var a := LargestAck(Unbounded, ps);
      && (a.MaxAck? <==> exists p :: p in ps && p.cmd == CMD_ACK)
      && (a.MaxAck? ==> (exists p :: p in ps && p.cmd == CMD_ACK && p.sn == a.sn)
                        && forall p :: p in ps && p.cmd == CMD_ACK ==> p.sn <= a.sn)
  {
    if |ps| > 0 {
      var n := |ps| - 1;
      LargestIsAck(ps[..n]);
      assert ps == ps[..n] + [ps[n]];
      assert forall p :: p in ps <==> p in ps[..n] || p == ps[n];
      hide LargestAck;
      LargestStep(ps);
    }
  }

  lemma LargestStep(ps: seq<Packet>)
    requires |ps| > 0
    ensures var acc, p := LargestAck(Unbounded, ps[..|ps| - 1]), ps[|ps| - 1];
      LargestAck(Unbounded, ps) == if p.cmd == CMD_ACK && (acc.NoAck? || p.sn > acc.sn) then MaxAck(p.sn) else acc
  {
  }

  /** What one datagram does to the segments it leaves in snd_buf: each was there before, and
      gains exactly one skip when the greatest acknowledged number is above its own and below
      snd_nxt. */
  lemma InputCounts(x: Cb, ps: seq<Packet>, code: int)
    requires CbOk(x) && (forall p :: p in ps ==> Plausible(p)) && x.cfg.mss > 0
    ensures forall g :: g in Input(Unbounded, x, ps, code).snd.buf ==>
      exists o :: (o in x.snd.buf && g == o.(fastack := if Skips(x, ps, code, o.sn) then U32(o.fastack + 1) else o.fastack))
  {
    hide CbOk, InputPackets, LargestAck, ParseFastack, Grow, U32;
    InputPacketsKeep(x, ps);
    InputKeepsConfig(Unbounded, x, ps);
    var c, a := InputPackets(Unbounded, x, ps), LargestAck(Unbounded, ps);
    SenderPart(c);
    LargestIsAck(ps);
    var buf := Input(Unbounded, x, ps, code).snd.buf;
    if a.MaxAck? {
      ParseFastackSpec(c.snd, c.cfg.sndWnd, a.sn);
    }
    forall g | g in buf
      ensures exists o :: (o in x.snd.buf && g == o.(fastack := if Skips(x, ps, code, o.sn) then U32(o.fastack + 1) else o.fastack))
    {
      var i :| 0 <= i < |buf| && buf[i] == g;
      var o := c.snd.buf[i];
      assert o in c.snd.buf;
      FirstLeast(c.snd, c.cfg.sndWnd, i);
      if code == 0 && a.MaxAck? {
        SkipsIs(x, ps, o.sn, a.sn);
      }
    }
  }

  lemma FirstLeast(s: Sender, wnd: nat, i: nat)
    requires SenderOk(s, wnd) && i < |s.buf|
    ensures s.una <= s.buf[i].sn < s.nxt
  {
  }

  lemma SkipsIs(x: Cb, ps: seq<Packet>, sn: nat, a: nat)
    requires exists p :: p in ps && p.cmd == CMD_ACK && p.sn == a
    requires forall p :: p in ps && p.cmd == CMD_ACK ==> p.sn <= a
    ensures Skips(x, ps, 0, sn) <==> sn < a < x.snd.nxt
  {
  }

  lemma InputLife(l: Life, sn: nat, ps: seq<Packet>, code: int)
    requires LifeOk(l, sn) && (forall p :: p in ps ==> Plausible(p)) && l.cb.cfg.mss > 0 && l.ticks + 1 < TWO31
    ensures LifeOk(Live(l, sn, MoveInput(ps, code)), sn)
  {
    hide CbOk, Input, U32;
    InputKeeps(l.cb, ps, code);
    InputCounts(l.cb, ps, code);
    var l' := Live(l, sn, MoveInput(ps, code));
    forall g | g in l'.cb.snd.buf && g.sn == sn ensures SegOk(l', g) {
      var o :| o in l.cb.snd.buf && g == o.(fastack := if Skips(l.cb, ps, code, o.sn) then U32(o.fastack + 1) else o.fastack);
      assert SegOk(l, o);
      Small(o.fastack + 1);
    }
  }

  lemma SenderPart(cb: Cb)
    requires CbOk(cb)
    ensures SenderOk(cb.snd, cb.cfg.sndWnd)
  {
  }

  // ---- ikcp_flush ----

  lemma SentOnce(p: Sending, g: OutSeg)
    requires g.xmit + 1 < TWO31
    ensures var r := Resend(p, g); var c := Choose(p, g);
      && r.xmit == g.xmit + (if c == Keep then 0 else 1)
      && r.fastack == (if c == Fast then 0 else g.fastack)
      && (c == Fast ==> 1 <= g.xmit && (p.fastlimit > 0 ==> g.xmit <= p.fastlimit) && g.fastack >= p.resent)
  {
    hide TimeDiff;
  }

  lemma FlushLife(l: Life, sn: nat, now: nat, g: OutSeg, g': OutSeg, i: nat)
    requires LifeOk(l, sn) && Flushes(l.cb, now) && l.ticks + 1 < TWO31 && CbOk(AtFlush(l.cb, now))
    requires var c := AtFlush(l.cb, now); var n := Numbered(Unbounded, c);
      i < |n.buf| && n.buf[i] == g && g.sn == sn && g' == Resend(SendingOf(c), g)
    ensures var again := FastResends(l.cb, now, sn) || l.cb.snd.nxt <= sn;
      var l' := Life(l.cb, if again then 0 else l.later, if again then 0 else l.skips,
                           l.fasts + (if FastResends(l.cb, now, sn) then 1 else 0), l.ticks + 1);
      SegOk(l', g') && (l.cb.cfg.fastlimit > 0 ==> l'.fasts <= l.cb.cfg.fastlimit)
    ensures FastResends(l.cb, now, sn) <==> Choose(SendingOf(AtFlush(l.cb, now)), g) == Fast
    ensures FastResends(l.cb, now, sn) ==>
      l.later >= Resent(l.cb.cfg) && l.skips >= Resent(l.cb.cfg) && (l.cb.cfg.fastlimit > 0 ==> l.fasts < l.cb.cfg.fastlimit)
  {
    hide Choose, Resend, Advance, MoveToBuf, Numbered, Resent;
    var c := AtFlush(l.cb, now);
    var n, p := Numbered(Unbounded, c), SendingOf(c);
    NumberedKeeps(c);
    forall j | 0 <= j < |n.buf| && n.buf[j].sn == sn ensures j == i {
    }
    if i < |c.snd.buf| {
      assert g == c.snd.buf[i] && g in l.cb.snd.buf;
      assert SegOk(l, g);
      assert sn < l.cb.snd.nxt;
    } else {
      assert g.xmit == 0 && g.fastack == 0;
    }
    SentOnce(p, g);
  }

  lemma UpdateLife(l: Life, sn: nat, now: nat)
    requires LifeOk(l, sn) && now < TWO32 && l.ticks + 1 < TWO31 && l.cb.cfg.mss > 0
    ensures LifeOk(Live(l, sn, MoveUpdate(now)), sn)
    ensures FastResends(l.cb, now, sn) ==>
      l.later >= Resent(l.cb.cfg) && l.skips >= Resent(l.cb.cfg) && (l.cb.cfg.fastlimit > 0 ==> l.fasts < l.cb.cfg.fastlimit)
  {
    hide CbOk, Choose, Resend, Advance, MoveToBuf, Numbered, Resent, TimeDiff;
    UpdateKeeps(l.cb, now);
    AtFlushOk(l.cb, now);
    var c := AtFlush(l.cb, now);
    var n, p := Numbered(Unbounded, c), SendingOf(c);
    var l' := Live(l, sn, MoveUpdate(now));
    NumberedKeeps(c);
    if Flushes(l.cb, now) {
      var buf := FlushState(Unbounded, c).snd.buf;
      assert l'.cb.snd.buf == buf && |buf| == |n.buf|;
      forall g' | g' in buf && g'.sn == sn ensures SegOk(l', g') {
        var i :| 0 <= i < |buf| && buf[i] == g';
        ResendFrame(p, n.buf);
        FlushLife(l, sn, now, n.buf[i], g', i);
      }
      if FastResends(l.cb, now, sn) {
        var i :| 0 <= i < |n.buf| && n.buf[i].sn == sn && Choose(p, n.buf[i]) == Fast;
        FlushLife(l, sn, now, n.buf[i], Resend(p, n.buf[i]), i);
      }
      if l'.cb.snd.nxt <= sn {
        assert !FastResends(l.cb, now, sn);
      }
    } else {
      forall g | g in l'.cb.snd.buf && g.sn == sn ensures SegOk(l', g) {
        assert g in l.cb.snd.buf && SegOk(l, g);
        HasNumber(l.cb, g);
      }
    }
  }

  lemma HasNumber(cb: Cb, g: OutSeg)
    requires CbOk(cb) && g in cb.snd.buf
    ensures g.sn < cb.snd.nxt
  {
  }

  lemma AtFlushOk(cb: Cb, now: nat)
    requires CbOk(cb) && now < TWO32
    ensures CbOk(AtFlush(cb, now))
    ensures Flushes(cb, now) ==> Update(Unbounded, cb, now).cb == FlushState(Unbounded, AtFlush(cb, now))
    ensures !Flushes(cb, now) ==> Update(Unbounded, cb, now).cb == AtFlush(cb, now)
  {
    hide TimeDiff, FlushState, FlushPackets;
    Small(now);
  }

  // ---- whole lives ----

  lemma StepLife(l: Life, sn: nat, mv: Move)
    requires LifeOk(l, sn) && Sensible(mv) && l.ticks + 1 < TWO31 && l.cb.cfg.mss > 0
    ensures LifeOk(Live(l, sn, mv), sn)
  {
    match mv
    case MoveSend(data) =>
      hide CbOk, Send;
      SendKeeps(l.cb, data);
    case MoveRecv(len) =>
      hide CbOk, Recv;
      RecvKeeps(l.cb, len);
    case MoveInput(ps, code) => InputLife(l, sn, ps, code);
    case MoveUpdate(now) => UpdateLife(l, sn, now);
  }

  lemma {:induction false} LifeInvariant(c: Config, sn: nat, moves: seq<Move>)
    requires ConfigOk(c) && |moves| < TWO31 - 1
    requires forall i :: 0 <= i < |moves| ==> Sensible(moves[i])
    ensures LifeOk(LiveAll(c, sn, moves), sn) && LiveAll(c, sn, moves).ticks <= |moves|
  {
    hide Live, Sensible;
    if |moves| == 0 {
      CreateOk(c);
    } else {
      var n := |moves| - 1;
      LifeInvariant(c, sn, moves[..n]);
      StepLife(LiveAll(c, sn, moves[..n]), sn, moves[n]);
      TicksRise(LiveAll(c, sn, moves[..n]), sn, moves[n]);
    }
  }

  lemma TicksRise(l: Life, sn: nat, mv: Move)
    requires l.cb.cfg.mss > 0
    ensures Live(l, sn, mv).ticks <= l.ticks + 1
  {
  }

  /** Over any run of fewer than 2^31 - 2 calls: a segment is fast-resent only after at least
      fastresend calls of ikcp_input acknowledged a later number since its last fast resend, and
      at most fastlimit times in all. */
  lemma FastResendEarned(c: Config, sn: nat, moves: seq<Move>, now: nat)
    requires ConfigOk(c) && c.fastresend > 0 && |moves| < TWO31 - 2 && now < TWO32
    requires forall i :: 0 <= i < |moves| ==> Sensible(moves[i])
    requires FastResends(LiveAll(c, sn, moves).cb, now, sn)
    ensures LiveAll(c, sn, moves).later >= c.fastresend
    ensures c.fastlimit > 0 ==> LiveAll(c, sn, moves + [MoveUpdate(now)]).fasts <= c.fastlimit
  {
    hide LifeOk, FastResends, Live;
    LifeInvariant(c, sn, moves);
    UpdateLife(LiveAll(c, sn, moves), sn, now);
    assert (moves + [MoveUpdate(now)])[..|moves|] == moves;
    LimitPart(LiveAll(c, sn, moves + [MoveUpdate(now)]), sn);
    Small(c.fastresend);
  }

  /** And exactly when: a segment still unacknowledged is fast-resent by a flush if and only if it
      was sent before, is not overdue, was skipped fastresend times since its last fast resend or
      its numbering, and went out at most fastlimit times, if there is such a limit. */
  lemma FastResendExactly(c: Config, sn: nat, moves: seq<Move>, now: nat, g: OutSeg)
    requires ConfigOk(c) && c.fastresend > 0 && |moves| < TWO31 - 2 && now < TWO32
    requires forall i :: 0 <= i < |moves| ==> Sensible(moves[i])
    requires var l := LiveAll(c, sn, moves); Flushes(l.cb, now) && g in l.cb.snd.buf && g.sn == sn
    ensures var l := LiveAll(c, sn, moves);
      FastResends(l.cb, now, sn) <==>
        g.xmit > 0 && TimeDiff(now, g.resendts) < 0 && l.skips >= c.fastresend && (c.fastlimit <= 0 || g.xmit <= c.fastlimit)
  {
    hide Live, CbOk, Numbered, TimeDiff, Resent;
    LifeInvariant(c, sn, moves);
    var l := LiveAll(c, sn, moves);
    AtFlushOk(l.cb, now);
    var x := AtFlush(l.cb, now);
    var i := BufferedAt(x, g);
    FastChoice(l, now, g);
    assert Numbered(Unbounded, x).buf[i].sn == sn;
    OnlyOne(x, sn, i);
  }

  /** With fast resending off, nothing is fast-resent in such a run. */
  lemma FastResendOff(c: Config, sn: nat, moves: seq<Move>, now: nat)
    requires ConfigOk(c) && c.fastresend <= 0 && |moves| < TWO31 - 2 && now < TWO32
    requires forall i :: 0 <= i < |moves| ==> Sensible(moves[i])
    ensures !FastResends(LiveAll(c, sn, moves).cb, now, sn)
  {
    hide LifeOk, FastResends, Live;
    LifeInvariant(c, sn, moves);
    UpdateLife(LiveAll(c, sn, moves), sn, now);
    var l := LiveAll(c, sn, moves);
    if FastResends(l.cb, now, sn) {
      SkipsBounded(l, sn, now);
      assert false;
    }
  }

  lemma SkipsBounded(l: Life, sn: nat, now: nat)
    requires LifeOk(l, sn) && now < TWO32 && FastResends(l.cb, now, sn)
    ensures l.skips <= l.ticks
  {
    hide CbOk, Numbered, Choose, Resent, Advance;
    AtFlushOk(l.cb, now);
    var x := AtFlush(l.cb, now);
    var buf := Numbered(Unbounded, x).buf;
    var i :| 0 <= i < |buf| && buf[i].sn == sn && Choose(SendingOf(x), buf[i]) == Fast;
    FastWasSent(SendingOf(x), buf[i]);
    BufferGrows(x);
    assert i < |x.snd.buf| && buf[..|x.snd.buf|][i] == x.snd.buf[i];
    assert x.snd.buf[i] in l.cb.snd.buf;
    assert SegOk(l, buf[i]);
  }

  lemma FastWasSent(p: Sending, g: OutSeg)
    requires Choose(p, g) == Fast
    ensures g.xmit > 0
  {
  }

  lemma FastChoice(l: Life, now: nat, g: OutSeg)
    requires SegOk(l, g) && l.ticks < TWO31 && now < TWO32 && 0 < l.cb.cfg.fastresend < TWO31
    ensures Choose(SendingOf(AtFlush(l.cb, now)), g) == Fast <==>
      g.xmit > 0 && TimeDiff(now, g.resendts) < 0 && l.skips >= l.cb.cfg.fastresend && (l.cb.cfg.fastlimit <= 0 || g.xmit <= l.cb.cfg.fastlimit)
  {
    hide TimeDiff, U32;
    Small(now);
    Small(l.cb.cfg.fastresend);
    Small(g.xmit);
  }

  lemma BufferedAt(x: Cb, g: OutSeg) returns (i: nat)
    requires CbOk(x) && g in x.snd.buf
    ensures i < |Numbered(Unbounded, x).buf| && Numbered(Unbounded, x).buf[i] == g
  {
    BufferGrows(x);
    i :| 0 <= i < |x.snd.buf| && x.snd.buf[i] == g;
    assert Numbered(Unbounded, x).buf[..|x.snd.buf|][i] == g;
  }

  lemma OnlyOne(x: Cb, sn: nat, i: nat)
    requires CbOk(x) && i < |Numbered(Unbounded, x).buf| && Numbered(Unbounded, x).buf[i].sn == sn
    ensures forall j :: 0 <= j < |Numbered(Unbounded, x).buf| && Numbered(Unbounded, x).buf[j].sn == sn ==> j == i
  {
    NumberedKeeps(x);
  }

  lemma LimitPart(l: Life, sn: nat)
    requires LifeOk(l, sn)
    ensures l.cb.cfg.fastlimit > 0 ==> l.fasts <= l.cb.cfg.fastlimit
  {
  }
}
