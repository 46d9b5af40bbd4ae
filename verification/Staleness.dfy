/** Which outdated numbers the 32-bit program takes for current ones, exactly, for each of the
    three kinds of number a datagram carries; and the younger ones, which act as they should. */
module Staleness {
  import opened Numbers
  import opened SendWindow
  import opened ReceiveWindow

  // ---- cumulative acknowledgements ----

  /** An old una must compare as old, unless nothing is unacknowledged; a new one must be less
      than 2^31 ahead. */
  predicate UnaFits(s: Sender, una: nat) {
    if una <= s.una then |s.buf| == 0 || TimeDiff(una, s.una) <= 0 else una - s.una < TWO31
  }

  /** The 32-bit program reads an old una exactly as the number TimeDiff(una, snd_una) beyond
      snd_una, when that is positive. */
  lemma StaleUnaRead(s: Sender, wnd: nat, una: nat)
    requires SenderOk(s, wnd) && wnd < TWO31
    ensures var d := TimeDiff(una, s.una);
      ParseUna(Wrapped, WrapBuf(s.buf), U32(una)) == if d <= 0 then WrapBuf(s.buf) else WrapBuf(ParseUna(Unbounded, s.buf, s.una + d))
  {
    var d := TimeDiff(una, s.una);
    if |s.buf| > 0 {
      TimeDiffExact(una, s.una);
      if d > 0 {
        SameResidue(una, s.una);
        ParseUnaWraps(s.buf, s.una + d);
      }
    }
  }

  /** The nearest number to base with the same 32 bits as x. */
  lemma SameResidue(x: nat, base: nat)
    ensures U32(base + TimeDiff(x, base)) == U32(x)
  {
    hide U32;
    var u := U32(x - base);
    U32Shift(x - base, base);
    Small(u);
    ModShift(base + u, -1);
  }

  /** An old una does no harm if and only if nothing is unacknowledged or it compares as old. */
  lemma StaleUnaHarmless(s: Sender, wnd: nat, una: nat)
    requires SenderOk(s, wnd) && wnd < TWO31 && una <= s.una
    ensures ParseUna(Wrapped, WrapBuf(s.buf), U32(una)) == WrapBuf(s.buf) <==> |s.buf| == 0 || TimeDiff(una, s.una) <= 0
  {
    StaleUnaRead(s, wnd, una);
    if |s.buf| > 0 && TimeDiff(una, s.una) > 0 {
      var r := ParseUna(Unbounded, s.buf, s.una + TimeDiff(una, s.una));
      ParseUnaKeeps(s.buf, s.una + TimeDiff(una, s.una));
      assert |r| < |s.buf|;
    }
  }

  /** Up to 2^31 numbers old it always does; one number older, it costs the first unacknowledged
      segment. */
  lemma UnaAge(s: Sender, wnd: nat, una: nat)
    requires SenderOk(s, wnd) && wnd < TWO31 && una <= s.una
    ensures s.una - una <= TWO31 ==> UnaFits(s, una)
    ensures s.una - una == TWO31 + 1 && |s.buf| > 0 ==>
      !UnaFits(s, una) && s.buf[0] !in ParseUna(Unbounded, s.buf, s.una + TimeDiff(una, s.una))
  {
    if s.una - una <= TWO31 {
      TimeDiffExact(una, s.una);
    }
    if s.una - una == TWO31 + 1 && |s.buf| > 0 {
      DiffIs(una, s.una, TWO31 - 1, -1);
      ParseUnaKeeps(s.buf, s.una + TWO31 - 1);
    }
  }

  lemma UnaWrapsAny(s: Sender, wnd: nat, una: nat)
    requires SenderOk(s, wnd) && wnd < TWO31 && UnaFits(s, una)
    ensures var w := WrapSender(s);
      ShrinkBuf(w.(buf := ParseUna(Wrapped, w.buf, U32(una))))
      == WrapSender(ShrinkBuf(s.(buf := ParseUna(Unbounded, s.buf, una))))
  {
    if una <= s.una {
      StaleUnaRead(s, wnd, una);
    } else {
      UnaWraps(s, wnd, una);
    }
  }

  // ---- selective acknowledgements ----

  /** An acknowledgement of any age removes a segment if and only if one in flight has the same
      32 bits. */
  lemma StaleAckHarmless(s: Sender, wnd: nat, sn: nat)
    requires SenderOk(s, wnd) && wnd < TWO31
    ensures ParseAck(Wrapped, WrapSender(s), U32(sn)) == WrapSender(s) <==> forall g :: g in s.buf ==> U32(g.sn) != U32(sn)
  {
    var y := s.una + TimeDiff(sn, s.una);
    SameResidue(sn, s.una);
    TimeDiffExact(sn, s.una);
    if y < s.una {
      forall g | g in s.buf ensures U32(g.sn) != U32(sn) {
        if U32(g.sn) == U32(sn) {
          ResidueUnique(g.sn, y);
        }
      }
    } else {
      RangeWraps(s, wnd, y);
      RemoveSnWraps(s.buf, y);
      RemoveSnKeeps(s.buf, y);
      forall g | g in s.buf ensures U32(g.sn) == U32(sn) <==> g.sn == y {
        EqWraps(g.sn, y);
      }
      RemoveCounts(s.buf, y);
    }
  }

  lemma {:induction false} RemoveCounts(buf: seq<OutSeg>, sn: nat)
    requires SendWindow.Sorted(buf)
    ensures (forall g :: g in buf ==> g.sn != sn) ==> RemoveSn(Unbounded, buf, sn) == buf
    ensures (exists g :: g in buf && g.sn == sn) ==> |RemoveSn(Unbounded, buf, sn)| == |buf| - 1
  {
    if |buf| > 0 {
      RemoveCounts(buf[1..], sn);
      assert buf == [buf[0]] + buf[1..];
    }
  }

  // ---- data segments ----

  /** The number at or after rcv_nxt with the same 32 bits. */
  function Apparent(r: Receiver, sn: nat): nat { r.nxt + U32(sn - r.nxt) }

  predicate Harmless(wnd: nat, r: Receiver, sn: nat) {
    Apparent(r, sn) >= r.nxt + wnd || Waiting(r.buf, Apparent(r, sn))
  }

  lemma ApparentResidue(r: Receiver, sn: nat)
    ensures U32(Apparent(r, sn)) == U32(sn)
  {
    U32Shift(sn - r.nxt, r.nxt);
  }

  lemma ApparentDiffs(r: Receiver, wnd: nat, sn: nat)
    ensures TimeDiff(Apparent(r, sn), r.nxt) == TimeDiff(sn, r.nxt)
    ensures TimeDiff(Apparent(r, sn), r.nxt + wnd) == TimeDiff(sn, r.nxt + wnd)
  {
    ApparentResidue(r, sn);
    TimeDiffExact(Apparent(r, sn), r.nxt);
    TimeDiffExact(sn, r.nxt);
    TimeDiffExact(Apparent(r, sn), r.nxt + wnd);
    TimeDiffExact(sn, r.nxt + wnd);
  }

  /** The window test wraps for a number too old: the segment is not even acknowledged. */
  predicate Unheard(wnd: nat, r: Receiver, sn: nat) {
    sn < r.nxt && TimeDiff(sn, r.nxt + wnd) >= 0
  }

  lemma BeyondIsIgnored(wnd: nat, r: Receiver, sn: nat, ts: nat, frag: Frag)
    requires wnd < TWO31 && Apparent(r, sn) >= r.nxt + wnd
    ensures var w := WrapReceiver(r);
      AcceptPush(Wrapped, wnd, w, U32(sn), ts, frag)
      == if TimeDiff(sn, r.nxt + wnd) >= 0 then w else w.(acks := w.acks + [Ack(U32(sn), ts)])
  {
    var d := U32(sn - r.nxt);
    ApparentDiffs(r, wnd, sn);
    PlusWraps(r.nxt, wnd);
    TimeDiffExact(sn, r.nxt + wnd);
    TimeDiffExact(sn, r.nxt);
    if d - wnd < TWO31 {
      DiffIs(Apparent(r, sn), r.nxt + wnd, d - wnd, 0);
    } else {
      DiffIs(Apparent(r, sn), r.nxt + wnd, d - wnd - TWO32, 1);
      DiffIs(Apparent(r, sn), r.nxt, d - TWO32, 1);
    }
  }

  lemma RepeatedIsIgnored(wnd: nat, r: Receiver, sn: nat, ts: nat, frag: Frag)
    requires ReceiverOk(r, wnd) && r.nxt <= sn < r.nxt + wnd
    ensures var r' := AcceptPush(Unbounded, wnd, r, sn, ts, frag);
      && (Waiting(r.buf, sn) ==> r' == r.(acks := r.acks + [Ack(sn, ts)]))
      && (!Waiting(r.buf, sn) ==> |r'.queue| + |r'.buf| == |r.queue| + |r.buf| + 1)
  {
    var seg := InSeg(sn, frag);
    InsertKeeps(r.buf, seg);
    if !Waiting(r.buf, sn) {
      var s := r.(acks := r.acks + [Ack(sn, ts)], buf := InsertSeg(Unbounded, r.buf, seg));
      InsertNew(r.buf, seg);
      InsertShape(wnd, r, seg);
      MoveReadyKeeps(wnd, s);
      var r' := MoveReady(Unbounded, wnd, s);
      assert |r'.queue + r'.buf| == |s.queue + s.buf|;
    }
  }

  lemma WaitingPlace(wnd: nat, r: Receiver, sn: nat, ts: nat, frag: Frag)
    requires ReceiverOk(r, wnd) && wnd < TWO31 && Apparent(r, sn) < r.nxt + wnd
    ensures AcceptPush(Wrapped, wnd, WrapReceiver(r), U32(sn), ts, frag)
      == WrapReceiver(AcceptPush(Unbounded, wnd, r, Apparent(r, sn), ts, frag))
  {
    ApparentResidue(r, sn);
    AcceptPushWraps(wnd, r, Apparent(r, sn), ts, frag);
  }

  /** A data segment of any age leaves rcv_nxt, rcv_buf and rcv_queue alone if and only if its
      number, read in 32 bits from rcv_nxt on, lies beyond the window or is waiting already. Then
      it is at most acknowledged once more; otherwise it is taken for the new segment at that
      place. */
  lemma StalePushHarmless(wnd: nat, r: Receiver, sn: nat, ts: nat, frag: Frag)
    requires ReceiverOk(r, wnd) && wnd < TWO31
    ensures var w := WrapReceiver(r); var w' := AcceptPush(Wrapped, wnd, w, U32(sn), ts, frag);
      && (w'.nxt == w.nxt && w'.buf == w.buf && w'.queue == w.queue <==> Harmless(wnd, r, sn))
      && (!Harmless(wnd, r, sn) ==> w' == WrapReceiver(AcceptPush(Unbounded, wnd, r, Apparent(r, sn), ts, frag)))
  {
    hide AcceptPush, U32, TimeDiff;
    if Apparent(r, sn) >= r.nxt + wnd {
      BeyondIsIgnored(wnd, r, sn, ts, frag);
    } else {
      WaitingPlace(wnd, r, sn, ts, frag);
      RepeatedIsIgnored(wnd, r, Apparent(r, sn), ts, frag);
    }
  }

  /** Up to 2^32 - wnd numbers behind rcv_nxt a duplicate is harmless; one number older, it is
      taken for the last segment of the window, unless that is waiting. */
  lemma PushAge(wnd: nat, r: Receiver, sn: nat)
    requires 0 < wnd < TWO31 && sn < r.nxt
    ensures r.nxt - sn <= TWO32 - wnd ==> Harmless(wnd, r, sn)
    ensures r.nxt - sn == TWO32 - wnd + 1 ==> (Harmless(wnd, r, sn) <==> Waiting(r.buf, r.nxt + wnd - 1))
  {
    if r.nxt - sn <= TWO32 - wnd + 1 {
      ModShift(sn - r.nxt, 1);
      Small(sn - r.nxt + TWO32);
    }
  }

  /** A number the connection can carry without harm. */
  predicate PushFits(wnd: nat, r: Receiver, sn: nat) {
    if sn < r.nxt then Harmless(wnd, r, sn) else sn - (r.nxt + wnd) < TWO31
  }

  /** The 32-bit treatment of such a segment is that of the unbounded one, but for acknowledging
      it again when it is unheard. */
  lemma PushWrapsAny(wnd: nat, r: Receiver, sn: nat, ts: nat, frag: Frag)
    requires ReceiverOk(r, wnd) && wnd < TWO31 && PushFits(wnd, r, sn)
    ensures AcceptPush(Wrapped, wnd, WrapReceiver(r), U32(sn), ts, frag)
      == WrapReceiver(if Unheard(wnd, r, sn) then r else AcceptPush(Unbounded, wnd, r, sn, ts, frag))
  {
    hide U32, TimeDiff, InsertSeg, MoveReady;
    if sn >= r.nxt {
      AcceptPushWraps(wnd, r, sn, ts, frag);
    } else {
      assert WrapAcks(r.acks + [Ack(sn, ts)]) == WrapAcks(r.acks) + [Ack(U32(sn), ts)];
      assert AcceptPush(Unbounded, wnd, r, sn, ts, frag) == r.(acks := r.acks + [Ack(sn, ts)]);
      if Apparent(r, sn) >= r.nxt + wnd {
        BeyondIsIgnored(wnd, r, sn, ts, frag);
      } else {
        WaitingPlace(wnd, r, sn, ts, frag);
        RepeatedIsIgnored(wnd, r, Apparent(r, sn), ts, frag);
        ApparentResidue(r, sn);
        WaitingIsHeard(wnd, r, sn);
        assert WrapAcks(r.acks + [Ack(Apparent(r, sn), ts)]) == WrapAcks(r.acks) + [Ack(U32(sn), ts)];
      }
    }
  }

  lemma WaitingIsHeard(wnd: nat, r: Receiver, sn: nat)
    requires wnd < TWO31 && Apparent(r, sn) < r.nxt + wnd
    ensures TimeDiff(sn, r.nxt + wnd) < 0
  {
    ApparentDiffs(r, wnd, sn);
    TimeDiffExact(Apparent(r, sn), r.nxt + wnd);
  }

  /** Numbers near the end of the window always fit and are heard. */
  lemma NearFits(wnd: nat, r: Receiver, sn: nat)
    requires wnd < TWO31 && Near(sn, r.nxt + wnd)
    ensures PushFits(wnd, r, sn) && !Unheard(wnd, r, sn)
  {
    TimeDiffExact(sn, r.nxt + wnd);
    if sn < r.nxt {
      ModShift(sn - r.nxt, 1);
      Small(sn - r.nxt + TWO32);
    }
  }
}
