/** The sending half of the control block: the queue of fragments not yet numbered and the
    buffer of numbered segments not yet acknowledged. */
module SendWindow {
  import opened Numbers
  import opened Wire

  /** A fragment of a message; frg counts the fragments that follow it. */
  datatype Frag = Frag(frg: nat, data: Bytes)

  datatype OutSeg = OutSeg(sn: nat, frag: Frag, resendts: nat, rto: nat, fastack: nat, xmit: nat)

  datatype Sender = Sender(una: nat, nxt: nat, queue: seq<Frag>, buf: seq<OutSeg>)

  // ---- operations ----

  function ParseUna(m: Numbering, buf: seq<OutSeg>, una: nat): seq<OutSeg> {
    if |buf| > 0 && Diff(m, una, buf[0].sn) > 0 then ParseUna(m, buf[1..], una) else buf
  }

  function ShrinkBuf(s: Sender): Sender {
    s.(una := if |s.buf| > 0 then s.buf[0].sn else s.nxt)
  }

  function RemoveSn(m: Numbering, buf: seq<OutSeg>, sn: nat): seq<OutSeg> {
    if |buf| == 0 then []
    else if buf[0].sn == sn then buf[1..]
    else if Diff(m, sn, buf[0].sn) < 0 then buf
    else [buf[0]] + RemoveSn(m, buf[1..], sn)
  }

  predicate InFlightRange(m: Numbering, s: Sender, sn: nat) {
    Diff(m, sn, s.una) >= 0 && Diff(m, sn, s.nxt) < 0
  }

  function ParseAck(m: Numbering, s: Sender, sn: nat): Sender {
    if InFlightRange(m, s, sn) then s.(buf := RemoveSn(m, s.buf, sn)) else s
  }

  function BumpFastack(m: Numbering, buf: seq<OutSeg>, sn: nat): seq<OutSeg> {
    if |buf| == 0 || Diff(m, sn, buf[0].sn) < 0 then buf
    else
      var seg := if sn != buf[0].sn then buf[0].(fastack := U32(buf[0].fastack + 1)) else buf[0];
      [seg] + BumpFastack(m, buf[1..], sn)
  }

  function ParseFastack(m: Numbering, s: Sender, sn: nat): Sender {
    if InFlightRange(m, s, sn) then s.(buf := BumpFastack(m, s.buf, sn)) else s
  }

  function NewSegment(sn: nat, frag: Frag, rto: nat, now: nat): OutSeg {
    OutSeg(sn, frag, now, rto, 0, 0)
  }

  /** Number queued fragments while the window has room. */
  function MoveToBuf(m: Numbering, s: Sender, cwnd: nat, rto: nat, now: nat): Sender
    decreases |s.queue|
  {
    if Diff(m, s.nxt, Plus(m, s.una, cwnd)) < 0 && |s.queue| > 0 then
      var s' := s.(nxt := Plus(m, s.nxt, 1), queue := s.queue[1..],
                   buf := s.buf + [NewSegment(s.nxt, s.queue[0], rto, now)]);
      MoveToBuf(m, s', cwnd, rto, now)
    else s
  }

  // ---- the invariant, on unbounded numbers ----

  predicate Sorted(buf: seq<OutSeg>) {
    forall i, j :: 0 <= i < j < |buf| ==> buf[i].sn < buf[j].sn
  }

  /** snd_buf is strictly sorted within [una, nxt), una is its first number (nxt when it is
      empty), and at most wnd numbers are outstanding. */
  predicate SenderOk(s: Sender, wnd: nat) {
    && Sorted(s.buf)
    && (forall i :: 0 <= i < |s.buf| ==> s.una <= s.buf[i].sn < s.nxt)
    && s.una == (if |s.buf| > 0 then s.buf[0].sn else s.nxt)
    && s.nxt - s.una <= wnd
  }

  predicate HasSn(buf: seq<OutSeg>, sn: nat) {
    exists i :: 0 <= i < |buf| && buf[i].sn == sn
  }

  /** The number of leading segments that a cumulative acknowledgement covers. */
  function Covered(buf: seq<OutSeg>, una: nat): (k: nat)
    ensures k <= |buf|
    ensures forall i :: 0 <= i < k ==> buf[i].sn < una
    ensures k < |buf| ==> buf[k].sn >= una
  {
    if |buf| > 0 && una > buf[0].sn then 1 + Covered(buf[1..], una) else 0
  }

  /** una removes exactly the segments numbered below it. */
  lemma {:induction false} ParseUnaKeeps(buf: seq<OutSeg>, una: nat)
    requires Sorted(buf)
    ensures var r := ParseUna(Unbounded, buf, una);
      && r == buf[Covered(buf, una)..]
      && (forall seg :: seg in r <==> seg in buf && seg.sn >= una)
  {
    if |buf| > 0 && una > buf[0].sn {
      ParseUnaKeeps(buf[1..], una);
      assert buf == [buf[0]] + buf[1..];
      assert buf[1..][Covered(buf[1..], una)..] == buf[Covered(buf, una)..];
    }
  }

  /** An acknowledgement removes exactly its own segment. */
  lemma {:induction false} RemoveSnKeeps(buf: seq<OutSeg>, sn: nat)
    requires Sorted(buf)
    ensures var r := RemoveSn(Unbounded, buf, sn);
      && Sorted(r) && |r| <= |buf|
      && (forall seg :: seg in r <==> seg in buf && seg.sn != sn)
  {
    if |buf| > 0 {
      assert buf == [buf[0]] + buf[1..];
      if buf[0].sn != sn && sn > buf[0].sn {
        RemoveSnKeeps(buf[1..], sn);
        var t := RemoveSn(Unbounded, buf[1..], sn);
        forall j | 0 <= j < |t| ensures buf[0].sn < t[j].sn {
          assert t[j] in buf[1..];
        }
      }
    }
  }

  /** Only the fastack counters below sn move, each by one. */
  lemma {:induction false} BumpFastackSpec(buf: seq<OutSeg>, sn: nat)
    requires Sorted(buf)
    ensures var r := BumpFastack(Unbounded, buf, sn);
      && |r| == |buf|
      && (forall i :: 0 <= i < |buf| ==>
            r[i] == if buf[i].sn < sn then buf[i].(fastack := U32(buf[i].fastack + 1)) else buf[i])
  {
    if |buf| > 0 && sn >= buf[0].sn {
      BumpFastackSpec(buf[1..], sn);
    }
  }

  /** A number in flight counts one skip for each segment below it and changes nothing else; a
      number outside changes nothing at all. */
  lemma ParseFastackSpec(s: Sender, wnd: nat, sn: nat)
    requires SenderOk(s, wnd)
    ensures var s' := ParseFastack(Unbounded, s, sn);
      && s' == s.(buf := s'.buf) && |s'.buf| == |s.buf|
      && (forall i :: 0 <= i < |s.buf| ==>
            s'.buf[i] == if s.una <= sn < s.nxt && s.buf[i].sn < sn then s.buf[i].(fastack := U32(s.buf[i].fastack + 1)) else s.buf[i])
  {
    hide U32;
    BumpFastackSpec(s.buf, sn);
  }

  /** How many fragments a flush numbers: the queue or the room left, whichever is less. */
  function MoveCount(s: Sender, cwnd: nat): nat {
    if s.nxt < s.una + cwnd then Min(|s.queue|, s.una + cwnd - s.nxt) else 0
  }

  function NewSegments(nxt: nat, frags: seq<Frag>, rto: nat, now: nat): (r: seq<OutSeg>)
    ensures |r| == |frags|
  {
    seq(|frags|, i requires 0 <= i < |frags| => NewSegment(nxt + i, frags[i], rto, now))
  }

  lemma {:induction false} MoveToBufSpec(s: Sender, cwnd: nat, rto: nat, now: nat)
    ensures var k := MoveCount(s, cwnd);
      MoveToBuf(Unbounded, s, cwnd, rto, now)
      == s.(nxt := s.nxt + k, queue := s.queue[k..],
            buf := s.buf + NewSegments(s.nxt, s.queue[..k], rto, now))
    decreases |s.queue|
  {
    var k := MoveCount(s, cwnd);
    if k > 0 {
      var s' := s.(nxt := s.nxt + 1, queue := s.queue[1..],
                   buf := s.buf + [NewSegment(s.nxt, s.queue[0], rto, now)]);
      MoveToBufSpec(s', cwnd, rto, now);
      assert MoveCount(s', cwnd) == k - 1;
      assert s.queue[1..][k - 1..] == s.queue[k..];
      assert s'.buf + NewSegments(s.nxt + 1, s.queue[1..][..k - 1], rto, now)
        == s.buf + NewSegments(s.nxt, s.queue[..k], rto, now);
    } else {
      assert s.buf + NewSegments(s.nxt, s.queue[..0], rto, now) == s.buf;
    }
  }

  // ---- preservation ----

  /** Removing acknowledged segments and recomputing una keeps the invariant and never
      moves una backwards. */
  lemma ShrinkKeeps(s: Sender, wnd: nat, buf: seq<OutSeg>)
    requires SenderOk(s, wnd)
    requires Sorted(buf) && forall seg :: seg in buf ==> seg in s.buf
    ensures var s' := ShrinkBuf(s.(buf := buf));
      SenderOk(s', wnd) && s.una <= s'.una && s'.nxt == s.nxt
  {
    forall i | 0 <= i < |buf| ensures s.una <= buf[i].sn < s.nxt {
      assert buf[i] in s.buf;
    }
  }

  lemma UnaKeeps(s: Sender, wnd: nat, una: nat)
    requires SenderOk(s, wnd)
    ensures var s' := ShrinkBuf(s.(buf := ParseUna(Unbounded, s.buf, una)));
      && SenderOk(s', wnd) && s.una <= s'.una && s'.nxt == s.nxt && s'.queue == s.queue
      && (forall seg :: seg in s'.buf <==> seg in s.buf && seg.sn >= una)
  {
    ParseUnaKeeps(s.buf, una);
    ShrinkKeeps(s, wnd, ParseUna(Unbounded, s.buf, una));
  }

  lemma AckKeeps(s: Sender, wnd: nat, sn: nat)
    requires SenderOk(s, wnd)
    ensures var s' := ShrinkBuf(ParseAck(Unbounded, s, sn));
      && SenderOk(s', wnd) && s.una <= s'.una && s'.nxt == s.nxt && s'.queue == s.queue
      && (forall seg :: seg in s'.buf <==> seg in s.buf && seg.sn != sn)
  {
    RemoveSnKeeps(s.buf, sn);
    ShrinkKeeps(s, wnd, ParseAck(Unbounded, s, sn).buf);
  }

  lemma FastackKeeps(s: Sender, wnd: nat, sn: nat)
    requires SenderOk(s, wnd)
    ensures var s' := ParseFastack(Unbounded, s, sn);
      && SenderOk(s', wnd) && s' == s.(buf := s'.buf) && |s'.buf| == |s.buf|
      && (forall i :: 0 <= i < |s.buf| ==> s'.buf[i] == s.buf[i].(fastack := s'.buf[i].fastack))
  {
    BumpFastackSpec(s.buf, sn);
  }

  lemma MoveKeeps(s: Sender, wnd: nat, cwnd: nat, rto: nat, now: nat)
    requires SenderOk(s, wnd) && cwnd <= wnd
    ensures var s' := MoveToBuf(Unbounded, s, cwnd, rto, now); SenderOk(s', wnd) && s'.una == s.una
  {
    hide MoveToBuf;
    MoveToBufSpec(s, cwnd, rto, now);
    var added := NewSegments(s.nxt, s.queue[..MoveCount(s, cwnd)], rto, now);
    assert forall i :: 0 <= i < |added| ==> added[i].sn == s.nxt + i;
  }

  // ---- the wrapped machine follows the unbounded one ----

  function WrapSeg(g: OutSeg): OutSeg { g.(sn := U32(g.sn)) }

  function WrapBuf(buf: seq<OutSeg>): (r: seq<OutSeg>)
    ensures |r| == |buf|
  {
    seq(|buf|, i requires 0 <= i < |buf| => WrapSeg(buf[i]))
  }

  function WrapSender(s: Sender): Sender {
    Sender(U32(s.una), U32(s.nxt), s.queue, WrapBuf(s.buf))
  }

  /** a - b is representable as an IINT32. */
  predicate Near(a: int, b: int) { -TWO31 <= a - b < TWO31 }

  lemma DiffWraps(a: nat, b: nat)
    requires Near(a, b)
    ensures Diff(Wrapped, U32(a), U32(b)) == Diff(Unbounded, a, b)
  {
    TimeDiffExact(a, b);
  }

  lemma EqWraps(a: nat, b: nat)
    requires -TWO32 < a - b < TWO32
    ensures U32(a) == U32(b) <==> a == b
  {
    if U32(a) == U32(b) {
      ResidueUnique(a, b);
    }
  }

  lemma PlusWraps(a: nat, n: nat)
    ensures Plus(Wrapped, U32(a), n) == U32(Plus(Unbounded, a, n))
  {
    U32Shift(a, n);
  }

  lemma {:induction false} ParseUnaWraps(buf: seq<OutSeg>, una: nat)
    requires Sorted(buf)
    requires |buf| > 0 ==> Near(una, buf[0].sn)
    requires |buf| > 0 && una > buf[0].sn ==> forall i :: 0 <= i < |buf| ==> Near(una, buf[i].sn)
    ensures ParseUna(Wrapped, WrapBuf(buf), U32(una)) == WrapBuf(ParseUna(Unbounded, buf, una))
  {
    if |buf| > 0 {
      DiffWraps(una, buf[0].sn);
      if una > buf[0].sn {
        ParseUnaWraps(buf[1..], una);
        assert WrapBuf(buf)[1..] == WrapBuf(buf[1..]);
      }
    }
  }

  lemma {:induction false} RemoveSnWraps(buf: seq<OutSeg>, sn: nat)
    requires forall i :: 0 <= i < |buf| ==> Near(sn, buf[i].sn)
    ensures RemoveSn(Wrapped, WrapBuf(buf), U32(sn)) == WrapBuf(RemoveSn(Unbounded, buf, sn))
  {
    if |buf| > 0 {
      DiffWraps(sn, buf[0].sn);
      EqWraps(sn, buf[0].sn);
      RemoveSnWraps(buf[1..], sn);
      assert WrapBuf(buf)[1..] == WrapBuf(buf[1..]);
      assert WrapBuf([buf[0]] + RemoveSn(Unbounded, buf[1..], sn))
        == [WrapSeg(buf[0])] + WrapBuf(RemoveSn(Unbounded, buf[1..], sn));
    }
  }

  lemma {:induction false} BumpFastackWraps(buf: seq<OutSeg>, sn: nat)
    requires forall i :: 0 <= i < |buf| ==> Near(sn, buf[i].sn)
    ensures BumpFastack(Wrapped, WrapBuf(buf), U32(sn)) == WrapBuf(BumpFastack(Unbounded, buf, sn))
  {
    if |buf| > 0 {
      DiffWraps(sn, buf[0].sn);
      EqWraps(sn, buf[0].sn);
      BumpFastackWraps(buf[1..], sn);
      assert WrapBuf(buf)[1..] == WrapBuf(buf[1..]);
      if sn >= buf[0].sn {
        var r := BumpFastack(Unbounded, buf, sn);
        assert r == [r[0]] + BumpFastack(Unbounded, buf[1..], sn);
        assert WrapBuf(r) == [WrapSeg(r[0])] + WrapBuf(BumpFastack(Unbounded, buf[1..], sn));
      }
    }
  }

  /** The range test of lines 575 and 613, whatever number the packet carries. */
  lemma RangeWraps(s: Sender, wnd: nat, sn: nat)
    requires SenderOk(s, wnd) && wnd < TWO31 && Near(sn, s.una)
    ensures InFlightRange(Wrapped, WrapSender(s), U32(sn)) <==> InFlightRange(Unbounded, s, sn)
  {
    DiffWraps(sn, s.una);
    if sn >= s.una {
      DiffWraps(sn, s.nxt);
    }
  }

  lemma UnaWraps(s: Sender, wnd: nat, una: nat)
    requires SenderOk(s, wnd) && wnd < TWO31 && Near(una, s.una)
    ensures var w := WrapSender(s);
      ShrinkBuf(w.(buf := ParseUna(Wrapped, w.buf, U32(una))))
      == WrapSender(ShrinkBuf(s.(buf := ParseUna(Unbounded, s.buf, una))))
  {
    ParseUnaWraps(s.buf, una);
  }

  lemma AckWraps(s: Sender, wnd: nat, sn: nat)
    requires SenderOk(s, wnd) && wnd < TWO31 && Near(sn, s.una)
    ensures ShrinkBuf(ParseAck(Wrapped, WrapSender(s), U32(sn))) == WrapSender(ShrinkBuf(ParseAck(Unbounded, s, sn)))
  {
    RangeWraps(s, wnd, sn);
    if InFlightRange(Unbounded, s, sn) {
      RemoveSnWraps(s.buf, sn);
    }
  }

  lemma FastackWraps(s: Sender, wnd: nat, sn: nat)
    requires SenderOk(s, wnd) && wnd < TWO31 && Near(sn, s.una)
    ensures ParseFastack(Wrapped, WrapSender(s), U32(sn)) == WrapSender(ParseFastack(Unbounded, s, sn))
  {
    RangeWraps(s, wnd, sn);
    if InFlightRange(Unbounded, s, sn) {
      BumpFastackWraps(s.buf, sn);
    }
  }

  lemma {:induction false} MoveWraps(s: Sender, wnd: nat, cwnd: nat, rto: nat, now: nat)
    requires s.una <= s.nxt <= s.una + wnd && cwnd <= wnd < TWO31
    ensures MoveToBuf(Wrapped, WrapSender(s), cwnd, rto, now)
      == WrapSender(MoveToBuf(Unbounded, s, cwnd, rto, now))
    decreases |s.queue|
  {
    PlusWraps(s.una, cwnd);
    DiffWraps(s.nxt, s.una + cwnd);
    if s.nxt < s.una + cwnd && |s.queue| > 0 {
      PlusWraps(s.nxt, 1);
      var s' := s.(nxt := s.nxt + 1, queue := s.queue[1..],
                   buf := s.buf + [NewSegment(s.nxt, s.queue[0], rto, now)]);
      assert WrapBuf(s'.buf) == WrapBuf(s.buf) + [NewSegment(U32(s.nxt), s.queue[0], rto, now)];
      MoveWraps(s', wnd, cwnd, rto, now);
    }
  }

  // ---- one pass of the loops that walk snd_buf ----

  lemma RemoveStep(buf: seq<OutSeg>, i: nat, sn: nat)
    requires i < |buf|
    ensures buf[i].sn == sn ==> buf[..i] + RemoveSn(Wrapped, buf[i..], sn) == buf[..i] + buf[i + 1..]
    ensures buf[i].sn != sn && Diff(Wrapped, sn, buf[i].sn) < 0 ==> buf[..i] + RemoveSn(Wrapped, buf[i..], sn) == buf
    ensures buf[i].sn != sn && Diff(Wrapped, sn, buf[i].sn) >= 0 ==>
      buf[..i] + RemoveSn(Wrapped, buf[i..], sn) == buf[..i + 1] + RemoveSn(Wrapped, buf[i + 1..], sn)
  {
    hide Diff;
    var rest := buf[i..];
    assert rest[1..] == buf[i + 1..] && rest[0] == buf[i];
    if buf[i].sn != sn {
      if Diff(Wrapped, sn, buf[i].sn) < 0 {
        assert buf == buf[..i] + rest;
      } else {
        var t := RemoveSn(Wrapped, buf[i + 1..], sn);
        assert buf[..i] + ([buf[i]] + t) == buf[..i + 1] + t;
      }
    }
  }

  lemma RemoveNone(sn: nat)
    ensures RemoveSn(Wrapped, [], sn) == [] && BumpFastack(Wrapped, [], sn) == []
  {
  }

  lemma BumpStep(cur: seq<OutSeg>, buf: seq<OutSeg>, i: nat, sn: nat)
    requires i < |buf| == |cur| && cur[i..] == buf[i..]
    ensures cur[i] == buf[i]
    ensures Diff(Wrapped, sn, cur[i].sn) < 0 ==> cur[..i] + BumpFastack(Wrapped, buf[i..], sn) == cur
    ensures Diff(Wrapped, sn, cur[i].sn) >= 0 ==>
      var g := if sn != cur[i].sn then cur[i].(fastack := U32(cur[i].fastack + 1)) else cur[i];
      && cur[..i] + BumpFastack(Wrapped, buf[i..], sn) == cur[i := g][..i + 1] + BumpFastack(Wrapped, buf[i + 1..], sn)
      && cur[i := g][i + 1..] == buf[i + 1..]
  {
    hide Diff, U32;
    assert cur[i] == cur[i..][0] && buf[i] == buf[i..][0];
    assert buf[i..][1..] == buf[i + 1..] && cur[i + 1..] == cur[i..][1..];
    assert cur == cur[..i] + cur[i..];
    var g := if sn != cur[i].sn then cur[i].(fastack := U32(cur[i].fastack + 1)) else cur[i];
    assert cur[i := g][..i + 1] == cur[..i] + [g];
  }
}
