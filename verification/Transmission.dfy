/** Which unacknowledged segments a flush (re)sends, and how it reschedules them. */
module Transmission {
  import opened Numbers
  import opened Wire
  import opened SendWindow

  datatype Choice = Keep | First | Timeout | Fast

  /** What one flush applies to every segment of snd_buf. */
  datatype Sending = Sending(nodelay: nat, fastlimit: int, resent: nat, rto: nat, now: nat, wnd: nat, una: nat)

  function Choose(s: Sending, g: OutSeg): Choice {
    if g.xmit == 0 then First
    else if TimeDiff(s.now, g.resendts) >= 0 then Timeout
    else if g.fastack >= s.resent && (S32(g.xmit) <= s.fastlimit || s.fastlimit <= 0) then Fast
    else Keep
  }

  function BackedOff(s: Sending, rto: nat): nat {
    if s.nodelay == 0 then U32(rto + Max(rto, s.rto))
    else U32(rto + HalfSigned(if s.nodelay < 2 then S32(rto) else s.rto))
  }

  function Resend(s: Sending, g: OutSeg): OutSeg {
    match Choose(s, g)
    case Keep => g
    case First =>
      g.(xmit := U32(g.xmit + 1), rto := s.rto,
         resendts := U32(s.now + s.rto + if s.nodelay == 0 then s.rto / 8 else 0))
    case Timeout =>
      var rto := BackedOff(s, g.rto);
      g.(xmit := U32(g.xmit + 1), rto := rto, resendts := U32(s.now + rto))
    case Fast =>
      g.(xmit := U32(g.xmit + 1), fastack := 0, resendts := U32(s.now + g.rto))
  }

  function DataPacket(s: Sending, g: OutSeg): Packet {
    Packet(CMD_PUSH, g.frag.frg, s.wnd, s.now, g.sn, s.una, g.frag.data)
  }

  function SweptBuf(s: Sending, buf: seq<OutSeg>): (r: seq<OutSeg>)
    ensures |r| == |buf|
  {
    seq(|buf|, i requires 0 <= i < |buf| => Resend(s, buf[i]))
  }

  function SweptPackets(s: Sending, buf: seq<OutSeg>): seq<Packet> {
    if |buf| == 0 then []
    else
      var g := buf[|buf| - 1];
      SweptPackets(s, buf[..|buf| - 1]) + if Choose(s, g).Keep? then [] else [DataPacket(s, g)]
  }

  predicate Chosen(s: Sending, buf: seq<OutSeg>, c: Choice) {
    exists i :: 0 <= i < |buf| && Choose(s, buf[i]) == c
  }

  /** A segment went out for the deadLink-th time or more. */
  predicate LinkDead(s: Sending, buf: seq<OutSeg>, deadLink: nat) {
    exists i :: 0 <= i < |buf| && !Choose(s, buf[i]).Keep? && Resend(s, buf[i]).xmit >= deadLink
  }

  /** The segments sent are exactly those not kept back, in the order of the buffer. */
  lemma {:induction false} SweptMembers(s: Sending, buf: seq<OutSeg>, p: Packet)
    ensures p in SweptPackets(s, buf) <==>
      exists i :: 0 <= i < |buf| && !Choose(s, buf[i]).Keep? && p == DataPacket(s, buf[i])
  {
    hide Choose, DataPacket;
    if |buf| > 0 {
      var n := |buf| - 1;
      SweptMembers(s, buf[..n], p);
      if p in SweptPackets(s, buf[..n]) {
        var i :| 0 <= i < n && !Choose(s, buf[..n][i]).Keep? && p == DataPacket(s, buf[..n][i]);
        assert buf[i] == buf[..n][i];
      }
      if i :| 0 <= i < |buf| && !Choose(s, buf[i]).Keep? && p == DataPacket(s, buf[i]) {
        if i < n {
          assert buf[..n][i] == buf[i];
        }
      }
    }
  }

  /** Data segments leave in the order of their numbers. */
  lemma {:induction false} SweptInOrder(s: Sending, buf: seq<OutSeg>)
    requires Sorted(buf)
    ensures forall i, j :: 0 <= i < j < |SweptPackets(s, buf)| ==> SweptPackets(s, buf)[i].sn < SweptPackets(s, buf)[j].sn
    ensures forall p :: p in SweptPackets(s, buf) ==> HasSn(buf, p.sn)
  {
    if |buf| > 0 {
      var n := |buf| - 1;
      var rest := buf[..n];
      var front := SweptPackets(s, rest);
      SweptInOrder(s, rest);
      forall p | p in front ensures HasSn(buf, p.sn) && p.sn < buf[n].sn {
        var k :| 0 <= k < n && rest[k].sn == p.sn;
        assert buf[k].sn == p.sn;
      }
      assert HasSn(buf, buf[n].sn);
    }
  }

  function WrapPacket(p: Packet): Packet { p.(sn := U32(p.sn), una := U32(p.una)) }

  function WrapPackets(ps: seq<Packet>): (r: seq<Packet>)
    ensures |r| == |ps|
  {
    seq(|ps|, i requires 0 <= i < |ps| => WrapPacket(ps[i]))
  }

  function WrapSending(s: Sending): Sending { s.(una := U32(s.una)) }

  lemma ChooseWraps(s: Sending, g: OutSeg)
    ensures Choose(WrapSending(s), WrapSeg(g)) == Choose(s, g)
    ensures Resend(WrapSending(s), WrapSeg(g)) == WrapSeg(Resend(s, g))
  {
  }

  lemma SweptBufWraps(s: Sending, buf: seq<OutSeg>)
    ensures SweptBuf(WrapSending(s), WrapBuf(buf)) == WrapBuf(SweptBuf(s, buf))
    ensures forall c :: Chosen(WrapSending(s), WrapBuf(buf), c) <==> Chosen(s, buf, c)
    ensures forall d :: LinkDead(WrapSending(s), WrapBuf(buf), d) <==> LinkDead(s, buf, d)
  {
    hide Choose, Resend;
    var w, b := WrapSending(s), WrapBuf(buf);
    forall i | 0 <= i < |buf|
      ensures Choose(w, b[i]) == Choose(s, buf[i]) && Resend(w, b[i]) == WrapSeg(Resend(s, buf[i]))
    {
      ChooseWraps(s, buf[i]);
    }
  }

  lemma {:induction false} SweptPacketsWrap(s: Sending, buf: seq<OutSeg>)
    ensures SweptPackets(WrapSending(s), WrapBuf(buf)) == WrapPackets(SweptPackets(s, buf))
  {
    hide Choose;
    if |buf| > 0 {
      var n := |buf| - 1;
      SweptPacketsWrap(s, buf[..n]);
      ChooseWraps(s, buf[n]);
      assert WrapBuf(buf)[..n] == WrapBuf(buf[..n]);
    }
  }
}
