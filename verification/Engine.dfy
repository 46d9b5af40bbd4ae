/** The control block as the program keeps it: fields, queues, the growing acknowledgement
    array and the output buffer, updated in place.  Each method is tied to the function of the
    Kcp module that specifies it. */
module Engine {
  import opened Numbers
  import opened Wire
  import opened MiscUtils
  import opened SendWindow
  import opened ReceiveWindow
  import opened Fragments
  import opened RttEstimation
  import opened Congestion
  import opened Timers
  import opened Packing
  import opened Transmission
  import Kcp
  import opened Robustness
  import opened WireRun

  /** The first n pairs of the acknowledgement array. */
  function AckPairs(a: seq<nat>, n: nat): (r: seq<Ack>)
    requires 2 * n <= |a|
    ensures |r| == n
  {
    seq(n, i requires 0 <= i < n => Ack(a[2 * i], a[2 * i + 1]))
  }

  class ControlBlock {
    var cfg: Kcp.Config
    var sndUna: nat
    var sndNxt: nat
    var rcvNxt: nat
    var sndQueue: seq<Frag>
    var sndBuf: seq<OutSeg>
    var rcvQueue: seq<InSeg>
    var rcvBuf: seq<InSeg>
    var nsndQue: nat
    var nsndBuf: nat
    var nrcvQue: nat
    var nrcvBuf: nat
    var acklist: array<nat>
    var ackcount: nat
    var ackblock: nat
    var rmtWnd: nat
    var cwnd: nat
    var incr: nat
    var ssthresh: nat
    var askSend: bool
    var askTell: bool
    var tsProbe: nat
    var probeWait: nat
    var srtt: int
    var rttval: int
    var rto: nat
    var current: nat
    var tsFlush: nat
    var updated: bool
    var dead: bool
    var buffer: array<Byte>
    /** What the output callback has handed to the socket, and whether it adds a checksum. */
    var sent: seq<Bytes>
    const checksum: bool

    // ---- abstraction ----

    /** Counters equal list lengths; the arrays have the sizes the code relies on. */
    ghost predicate Shape()
      reads this
    {
      && nsndQue == |sndQueue| && nsndBuf == |sndBuf| && nrcvQue == |rcvQueue| && nrcvBuf == |rcvBuf|
      && ackcount <= ackblock && acklist.Length == 2 * ackblock
      && buffer.Length == (cfg.mtu + OVERHEAD) * 3
    }

    ghost function Acks(): seq<Ack>
      requires 2 * ackcount <= acklist.Length
      reads this`acklist, this`ackcount, acklist
    {
      AckPairs(acklist[..], ackcount)
    }

    ghost function Snd(): Sender
      reads this`sndUna, this`sndNxt, this`sndQueue, this`sndBuf
    {
      Sender(sndUna, sndNxt, sndQueue, sndBuf)
    }

    ghost function Rcv(): Receiver
      requires 2 * ackcount <= acklist.Length
      reads this`rcvNxt, this`rcvQueue, this`rcvBuf, this`acklist, this`ackcount, acklist
    {
      Receiver(rcvNxt, rcvBuf, rcvQueue, Acks())
    }

    ghost function Win(): Window
      reads this`cwnd, this`incr, this`ssthresh
    {
      Window(cwnd, incr, ssthresh)
    }

    ghost function Estimate(): Rtt
      reads this`srtt, this`rttval, this`rto
    {
      Rtt(srtt, rttval, rto)
    }

    ghost function Probing(): Probe
      reads this`askSend, this`askTell, this`tsProbe, this`probeWait
    {
      Probe(askSend, askTell, tsProbe, probeWait)
    }

    ghost function Clk(): Clock
      reads this`current, this`tsFlush, this`updated
    {
      Clock(current, tsFlush, updated)
    }

    ghost function State(): Kcp.Cb
      requires Shape()
      reads this, acklist
    {
      Kcp.Cb(cfg, Snd(), Rcv(), rmtWnd, Win(), Probing(), Estimate(), Clk(), dead)
    }

    ghost predicate Valid()
      reads this, acklist
    {
      Shape() && CbOk32(State())
    }

    // ---- ikcp_create and the setters ----

    constructor (conv: nat, checksum: bool)
      ensures Shape() && State() == Kcp.Create(Kcp.DefaultConfig(conv)) && sent == []
      ensures fresh(acklist) && fresh(buffer) && this.checksum == checksum
    {
      this.checksum := checksum;
      cfg := Kcp.DefaultConfig(conv);
      sndUna, sndNxt, rcvNxt := 0, 0, 0;
      sndQueue, sndBuf, rcvQueue, rcvBuf := [], [], [], [];
      nsndQue, nsndBuf, nrcvQue, nrcvBuf := 0, 0, 0, 0;
      acklist, ackcount, ackblock := new nat[0], 0, 0;
      rmtWnd, cwnd, incr, ssthresh := WND_RCV, 0, 0, 2;
      askSend, askTell, tsProbe, probeWait := false, false, 0, 0;
      srtt, rttval, rto := 0, 0, 200;
      current, tsFlush, updated, dead := 0, 100, false, false;
      buffer := new Byte[(1400 + OVERHEAD) * 3](_ => 0);
      sent := [];
    }

    method SetWndSize(sndwnd: int, rcvwnd: int)
      requires Shape()
      modifies this`cfg
      ensures Shape() && cfg == Kcp.WndSize(old(cfg), sndwnd, rcvwnd)
    {
      if sndwnd > 0 {
        cfg := cfg.(sndWnd := sndwnd);
      }
      if rcvwnd > 0 {
        cfg := cfg.(rcvWnd := Max(rcvwnd, WND_RCV));
      }
    }

    method SetNoDelay(nodelay: int, interval: int, resend: int, nc: int)
      requires Shape()
      modifies this`cfg
      ensures Shape() && cfg == Kcp.NoDelay(old(cfg), nodelay, interval, resend, nc)
    {
      hide Kcp.ClampInterval;
      if nodelay >= 0 {
        cfg := cfg.(nodelay := nodelay, minrto := if nodelay != 0 then 30 else 100);
      }
      if interval >= 0 {
        var v := ClampedInterval(interval);
        cfg := cfg.(interval := v);
      }
      if resend >= 0 {
        cfg := cfg.(fastresend := resend);
      }
      if nc >= 0 {
        cfg := cfg.(nocwnd := nc != 0);
      }
    }

    static method ClampedInterval(interval: int) returns (v: nat)
      ensures v == Kcp.ClampInterval(interval)
    {
      if interval > 5000 {
        v := 5000;
      } else if interval < 10 {
        v := 10;
      } else {
        v := interval;
      }
    }

    // ---- ikcp_update_ack, ikcp_shrink_buf, ikcp_parse_una, _ack, _fastack ----

    method UpdateAckSample(rtt: int)
      modifies this`srtt, this`rttval, this`rto
      ensures Estimate() == UpdateAck(cfg.interval, cfg.minrto, old(Estimate()), rtt)
    {
      if srtt == 0 {
        srtt := rtt;
        rttval := HalfSigned(rtt);
      } else {
        var delta := rtt - srtt;
        if delta < 0 {
          delta := -delta;
        }
        rttval := TruncDiv(3 * rttval + delta, 4);
        srtt := TruncDiv(7 * srtt + rtt, 8);
        if srtt < 1 {
          srtt := 1;
        }
      }
      rto := Bound(cfg.minrto, U32(srtt + Max(cfg.interval, U32(4 * rttval))), RTO_MAX);
    }

    method ShrinkBuffer()
      modifies this`sndUna
      ensures Snd() == ShrinkBuf(old(Snd()))
    {
      if |sndBuf| > 0 {
        sndUna := sndBuf[0].sn;
      } else {
        sndUna := sndNxt;
      }
    }

    method ParseUnaNumber(una: nat)
      requires nsndBuf == |sndBuf|
      modifies this`sndBuf, this`nsndBuf
      ensures nsndBuf == |sndBuf|
      ensures sndBuf == ParseUna(Wrapped, old(sndBuf), una)
    {
      while |sndBuf| > 0
        invariant nsndBuf == |sndBuf|
        invariant ParseUna(Wrapped, sndBuf, una) == ParseUna(Wrapped, old(sndBuf), una)
        decreases |sndBuf|
      {
        if Diff(Wrapped, una, sndBuf[0].sn) > 0 {
          sndBuf := sndBuf[1..];
          nsndBuf := nsndBuf - 1;
        } else {
          break;
        }
      }
    }

    method ParseAckNumber(sn: nat)
      requires nsndBuf == |sndBuf|
      modifies this`sndBuf, this`nsndBuf
      ensures nsndBuf == |sndBuf|
      ensures Snd() == ParseAck(Wrapped, old(Snd()), sn)
    {
      hide Diff, RemoveSn;
      if Diff(Wrapped, sn, sndUna) < 0 || Diff(Wrapped, sn, sndNxt) >= 0 {
        return;
      }
      ghost var buf := sndBuf;
      var i := 0;
      while i < |sndBuf|
        invariant i <= |buf| && sndBuf == buf && nsndBuf == |buf|
        invariant RemoveSn(Wrapped, buf, sn) == buf[..i] + RemoveSn(Wrapped, buf[i..], sn)
      {
        RemoveStep(buf, i, sn);
        if sndBuf[i].sn == sn {
          sndBuf := sndBuf[..i] + sndBuf[i + 1..];
          nsndBuf := nsndBuf - 1;
          return;
        }
        if Diff(Wrapped, sn, sndBuf[i].sn) < 0 {
          return;
        }
        i := i + 1;
      }
      assert buf[i..] == [];
      RemoveNone(sn);
    }

    method ParseFastackNumber(sn: nat)
      modifies this`sndBuf
      ensures |sndBuf| == |old(sndBuf)|
      ensures Snd() == ParseFastack(Wrapped, old(Snd()), sn)
    {
      hide Diff, U32, BumpFastack;
      if Diff(Wrapped, sn, sndUna) < 0 || Diff(Wrapped, sn, sndNxt) >= 0 {
        return;
      }
      ghost var buf := sndBuf;
      var i := 0;
      while i < |sndBuf|
        invariant i <= |buf| == |sndBuf| && sndBuf[i..] == buf[i..]
        invariant BumpFastack(Wrapped, buf, sn) == sndBuf[..i] + BumpFastack(Wrapped, buf[i..], sn)
      {
        BumpStep(sndBuf, buf, i, sn);
        if Diff(Wrapped, sn, sndBuf[i].sn) < 0 {
          return;
        }
        if sn != sndBuf[i].sn {
          sndBuf := sndBuf[i := sndBuf[i].(fastack := U32(sndBuf[i].fastack + 1))];
        }
        i := i + 1;
      }
      assert buf[i..] == [];
      RemoveNone(sn);
    }

    // ---- ikcp_ack_push ----

    /** Replace the array by one of at least newsize pairs, doubling from 8. */
    method GrowAcks(newsize: nat)
      requires ackcount < newsize && acklist.Length == 2 * ackblock && ackcount <= ackblock
      modifies this`acklist, this`ackblock
      ensures newsize <= ackblock && acklist.Length == 2 * ackblock
      ensures fresh(acklist)
      ensures forall j :: 0 <= j < 2 * ackcount ==> acklist[j] == old(acklist[j])
    {
      var newblock := 8;
      while newblock < newsize
        invariant newblock > 0
        decreases newsize - newblock
      {
        newblock := newblock * 2;
      }
      var list := new nat[newblock * 2];
      var x := 0;
      while x < ackcount
        invariant x <= ackcount
        invariant unchanged(this) && unchanged(acklist)
        invariant forall j :: 0 <= j < 2 * x ==> list[j] == acklist[j]
      {
        list[x * 2] := acklist[x * 2];
        list[x * 2 + 1] := acklist[x * 2 + 1];
        x := x + 1;
      }
      acklist := list;
      ackblock := newblock;
    }

    method AckPush(sn: nat, ts: nat)
      requires ackcount <= ackblock && acklist.Length == 2 * ackblock
      modifies this`acklist, this`ackcount, this`ackblock, acklist
      ensures ackcount <= ackblock && acklist.Length == 2 * ackblock
      ensures acklist == old(acklist) || fresh(acklist)
      ensures Acks() == old(Acks()) + [Ack(sn, ts)]
    {
      ghost var acks := Acks();
      if ackcount + 1 > ackblock {
        GrowAcks(ackcount + 1);
      }
      assert forall j :: 0 <= j < 2 * ackcount ==> acklist[j] == old(acklist[j]);
      acklist[ackcount * 2] := sn;
      acklist[ackcount * 2 + 1] := ts;
      ackcount := ackcount + 1;
      assert forall i :: 0 <= i < |acks| ==> Acks()[i] == acks[i];
    }

    // ---- ikcp_parse_data ----

    /** The loop that ends both ikcp_parse_data and ikcp_recv. */
    method MoveUp()
      requires nrcvQue == |rcvQueue| && nrcvBuf == |rcvBuf| && 2 * ackcount <= acklist.Length
      modifies this`rcvQueue, this`rcvBuf, this`nrcvQue, this`nrcvBuf, this`rcvNxt
      ensures nrcvQue == |rcvQueue| && nrcvBuf == |rcvBuf|
      ensures Rcv() == MoveReady(Wrapped, cfg.rcvWnd, old(Rcv()))
    {
      while |rcvBuf| > 0
        invariant nrcvQue == |rcvQueue| && nrcvBuf == |rcvBuf|
        invariant MoveReady(Wrapped, cfg.rcvWnd, Rcv()) == MoveReady(Wrapped, cfg.rcvWnd, old(Rcv()))
        decreases |rcvBuf|
      {
        var seg := rcvBuf[0];
        if seg.sn == rcvNxt && nrcvQue < cfg.rcvWnd {
          rcvBuf := rcvBuf[1..];
          nrcvBuf := nrcvBuf - 1;
          rcvQueue := rcvQueue + [seg];
          nrcvQue := nrcvQue + 1;
          rcvNxt := Plus(Wrapped, rcvNxt, 1);
        } else {
          break;
        }
      }
    }

    method InsertOnly(seg: InSeg)
      requires nrcvBuf == |rcvBuf|
      modifies this`rcvBuf, this`nrcvBuf
      ensures nrcvBuf == |rcvBuf|
      ensures rcvBuf == InsertSeg(Wrapped, old(rcvBuf), seg)
    {
      hide Diff;
      ghost var buf := rcvBuf;
      var p := |rcvBuf|;
      var repeated := false;
      assert buf[..p] == buf;
      while p > 0
        invariant 0 <= p <= |buf| && rcvBuf == buf && nrcvBuf == |buf| && !repeated
        invariant InsertSeg(Wrapped, buf, seg) == InsertSeg(Wrapped, buf[..p], seg) + buf[p..]
      {
        var last := rcvBuf[p - 1];
        assert buf[..p][p - 1] == last && buf[..p][..p - 1] == buf[..p - 1];
        if last.sn == seg.sn {
          repeated := true;
          assert buf[..p] + buf[p..] == buf;
          break;
        }
        if Diff(Wrapped, seg.sn, last.sn) > 0 {
          break;
        }
        assert [last] + buf[p..] == buf[p - 1..];
        p := p - 1;
      }
      if !repeated {
        rcvBuf := rcvBuf[..p] + [seg] + rcvBuf[p..];
        nrcvBuf := nrcvBuf + 1;
      }
    }

    method ParseDataSegment(seg: InSeg)
      requires nrcvQue == |rcvQueue| && nrcvBuf == |rcvBuf| && 2 * ackcount <= acklist.Length
      modifies this`rcvQueue, this`rcvBuf, this`nrcvQue, this`nrcvBuf, this`rcvNxt
      ensures nrcvQue == |rcvQueue| && nrcvBuf == |rcvBuf|
      ensures Rcv() == ParseData(Wrapped, cfg.rcvWnd, old(Rcv()), seg)
    {
      if Diff(Wrapped, seg.sn, Plus(Wrapped, rcvNxt, cfg.rcvWnd)) >= 0 || Diff(Wrapped, seg.sn, rcvNxt) < 0 {
        return;
      }
      InsertOnly(seg);
      MoveUp();
    }

    // ---- ikcp_input ----

    method AcknowledgeUpTo(una: nat)
      requires nsndBuf == |sndBuf|
      modifies this`sndBuf, this`nsndBuf, this`sndUna
      ensures nsndBuf == |sndBuf|
      ensures Snd() == Kcp.AcceptUna(Wrapped, old(Snd()), una)
    {
      hide ParseUna;
      ParseUnaNumber(una);
      ShrinkBuffer();
    }

    method AcknowledgeOne(sn: nat)
      requires nsndBuf == |sndBuf|
      modifies this`sndBuf, this`nsndBuf, this`sndUna
      ensures nsndBuf == |sndBuf|
      ensures Snd() == Kcp.AcceptAck(Wrapped, old(Snd()), sn)
    {
      hide ParseAck;
      ParseAckNumber(sn);
      ShrinkBuffer();
    }

    method TakePush(sn: nat, ts: nat, frag: Frag)
      requires Shape()
      modifies this`rcvQueue, this`rcvBuf, this`nrcvQue, this`nrcvBuf, this`rcvNxt, this`acklist, this`ackcount,
        this`ackblock, acklist
      ensures Shape() && (acklist == old(acklist) || fresh(acklist))
      ensures Rcv() == AcceptPush(Wrapped, cfg.rcvWnd, old(Rcv()), sn, ts, frag)
    {
      hide Diff, ParseData, Plus;
      if Diff(Wrapped, sn, Plus(Wrapped, rcvNxt, cfg.rcvWnd)) < 0 {
        AckPush(sn, ts);
        if Diff(Wrapped, sn, rcvNxt) >= 0 {
          ParseDataSegment(InSeg(sn, frag));
        }
      }
    }

    method TakeSample(ts: nat)
      modifies this`srtt, this`rttval, this`rto
      ensures Estimate() == Kcp.SampleRtt(cfg, current, old(Estimate()), ts)
    {
      hide TimeDiff, UpdateAck;
      if TimeDiff(current, ts) >= 0 {
        UpdateAckSample(TimeDiff(current, ts));
      }
    }

    method HeaderSeen(wnd: nat, una: nat)
      requires Shape()
      modifies this`rmtWnd, this`sndBuf, this`nsndBuf, this`sndUna
      ensures Shape()
      ensures State() == old(State()).(rmtWnd := wnd, snd := Kcp.AcceptUna(Wrapped, old(Snd()), una))
    {
      hide Kcp.AcceptUna, AckPairs, Snd, Rcv, Acks;
      rmtWnd := wnd;
      AcknowledgeUpTo(una);
    }

    method AckSeen(sn: nat, ts: nat)
      requires Shape()
      modifies this`sndBuf, this`nsndBuf, this`sndUna, this`srtt, this`rttval, this`rto
      ensures Shape()
      ensures State() == old(State()).(rtt := Kcp.SampleRtt(cfg, current, old(Estimate()), ts),
                                       snd := Kcp.AcceptAck(Wrapped, old(Snd()), sn))
    {
      hide Kcp.AcceptAck, Kcp.SampleRtt, AckPairs, Snd, Rcv, Acks, Estimate;
      TakeSample(ts);
      AcknowledgeOne(sn);
    }

    method PushSeen(p: Packet)
      requires Shape()
      modifies this`rcvQueue, this`rcvBuf, this`nrcvQue, this`nrcvBuf, this`rcvNxt, this`acklist, this`ackcount,
        this`ackblock, acklist
      ensures Shape() && (acklist == old(acklist) || fresh(acklist))
      ensures State() == old(State()).(rcv := AcceptPush(Wrapped, cfg.rcvWnd, old(Rcv()), p.sn, p.ts, Frag(p.frg, p.data)))
    {
      hide AcceptPush, AckPairs, Snd, Rcv, Acks;
      TakePush(p.sn, p.ts, Frag(p.frg, p.data));
    }

    /** The body of the input loop, once a segment has been decoded. */
    method Process(p: Packet)
      requires Shape()
      modifies this`rmtWnd, this`sndBuf, this`nsndBuf, this`sndUna, this`srtt, this`rttval, this`rto,
        this`rcvQueue, this`rcvBuf, this`nrcvQue, this`nrcvBuf, this`rcvNxt, this`acklist, this`ackcount,
        this`ackblock, this`askTell, acklist
      ensures Shape() && (acklist == old(acklist) || fresh(acklist))
      ensures State() == Kcp.InputPacket(Wrapped, old(State()), p)
    {
      hide Kcp.AcceptUna, Kcp.AcceptAck, AcceptPush, Kcp.SampleRtt, AckPairs, Snd, Rcv, Acks, Win, Estimate;
      HeaderSeen(p.wnd, p.una);
      if p.cmd == CMD_ACK {
        AckSeen(p.sn, p.ts);
      } else if p.cmd == CMD_PUSH {
        PushSeen(p);
      } else if p.cmd == CMD_WASK {
        askTell := true;
      }
    }

    method GrowWindow()
      requires cfg.mss > 0
      modifies this`cwnd, this`incr
      ensures Win() == Grow(cfg.mss, rmtWnd, old(Win()))
    {
      hide U32;
      if cwnd < rmtWnd {
        var mss := cfg.mss;
        if cwnd < ssthresh {
          cwnd := U32(cwnd + 1);
          incr := U32(incr + mss);
        } else {
          if incr < mss {
            incr := mss;
          }
          incr := U32(incr + Quotient(U32(mss * mss), incr) + mss / 16);
          if U32(U32(cwnd + 1) * mss) <= incr {
            cwnd := Quotient(U32(incr + mss - 1), mss);
          }
        }
        if cwnd > rmtWnd {
          cwnd := rmtWnd;
          incr := U32(rmtWnd * mss);
        }
      }
    }

    method Input(data: Bytes) returns (code: int)
      requires Valid()
      modifies this, acklist
      ensures Valid() && (acklist == old(acklist) || fresh(acklist))
      ensures sent == old(sent) && buffer == old(buffer)
      ensures Kcp.InputResult(code, State()) == Kcp.InputBytes(old(State()), data)
    {
      hide Parse, HeaderCode, HeaderAt, Kcp.InputPacket, Diff, CbOk32, PacketSize, Kcp.FinishInput, AckPairs, Kcp.InputPackets, Kcp.LargestAck;
      ghost var before := State();
      MssPositive32(before);
      InputBytesKeep(before, data);
      if |data| < OVERHEAD {
        return -1;
      }
      var prevUna := sndUna;
      var flag, maxack := false, 0;
      var rest := data;
      ghost var seen: seq<Packet> := [];
      NoPackets(before);
      while true
        invariant Shape() && (acklist == old(acklist) || fresh(acklist))
        invariant sent == old(sent) && buffer == old(buffer)
        invariant State() == Kcp.InputPackets(Wrapped, before, seen)
        invariant Kcp.LargestAck(Wrapped, seen) == if flag then Kcp.MaxAck(maxack) else Kcp.NoAck
        invariant Parse(cfg.conv, data).packets == seen + Parse(cfg.conv, rest).packets
        invariant Parse(cfg.conv, data).code == Parse(cfg.conv, rest).code
        decreases |rest|
      {
        Kcp.InputKeepsConfig(Wrapped, before, seen);
        ParseStep(cfg.conv, rest);
        if |rest| < OVERHEAD {
          break;
        }
        code := HeaderCode(cfg.conv, rest);
        if code != 0 {
          assert seen + [] == seen;
          return;
        }
        var p := HeaderAt(rest);
        Process(p);
        if p.cmd == CMD_ACK {
          if !flag {
            flag, maxack := true, p.sn;
          } else if Diff(Wrapped, p.sn, maxack) > 0 {
            maxack := p.sn;
          }
        }
        SnocPackets(before, seen, p, Parse(cfg.conv, rest[PacketSize(p)..]).packets);
        seen := seen + [p];
        rest := rest[PacketSize(p)..];
      }
      assert seen + [] == seen;
      code := 0;
      Finish(prevUna, if flag then Kcp.MaxAck(maxack) else Kcp.NoAck);
    }

    /** What follows the loop of ikcp_input. */
    method Finish(prevUna: nat, a: Kcp.MaxAck)
      requires Shape() && cfg.mss > 0
      modifies this`sndBuf, this`cwnd, this`incr
      ensures Shape() && State() == Kcp.FinishInput(Wrapped, old(State()), prevUna, a)
    {
      hide Diff, Grow, ParseFastack, AckPairs;
      if a.MaxAck? {
        ParseFastackNumber(a.sn);
      }
      if Diff(Wrapped, sndUna, prevUna) > 0 {
        GrowWindow();
      }
    }

    // ---- ikcp_peeksize and ikcp_recv ----

    method PeekNext() returns (size: int)
      requires nrcvQue == |rcvQueue|
      ensures size == PeekSize(rcvQueue)
    {
      if |rcvQueue| == 0 {
        return -1;
      }
      if rcvQueue[0].frag.frg == 0 {
        return |rcvQueue[0].frag.data|;
      }
      if nrcvQue < rcvQueue[0].frag.frg + 1 {
        return -1;
      }
      var length := 0;
      var rest := rcvQueue;
      while |rest| > 0
        invariant PeekLength(rcvQueue) == length + PeekLength(rest)
      {
        length := length + |rest[0].frag.data|;
        if rest[0].frag.frg == 0 {
          return length;
        }
        rest := rest[1..];
      }
      return length;
    }

    /** The loop that merges fragments; it removes them unless it only looks. */
    method MergeFragments(peek: bool) returns (data: Bytes)
      requires nrcvQue == |rcvQueue|
      modifies this`rcvQueue, this`nrcvQue
      ensures nrcvQue == |rcvQueue|
      ensures data == Merge(old(rcvQueue))
      ensures rcvQueue == if peek then old(rcvQueue) else old(rcvQueue)[MessageEnd(old(rcvQueue))..]
    {
      hide Merge, MessageEnd;
      ghost var queue := rcvQueue;
      ghost var taken := 0;
      data := [];
      var rest := rcvQueue;
      var ended := false;
      assert [] + Merge(queue) == Merge(queue);
      while |rest| > 0 && !ended
        invariant nrcvQue == |rcvQueue|
        invariant taken <= |queue| && (!ended ==> rest == queue[taken..])
        invariant Merge(queue) == data + if ended then [] else Merge(rest)
        invariant MessageEnd(queue) == taken + if ended then 0 else MessageEnd(rest)
        invariant rcvQueue == if peek then queue else queue[taken..]
        decreases |rest|
      {
        var seg := rest[0];
        MergeStep(data, rest);
        data := data + seg.frag.data;
        assert queue[taken..][1..] == queue[taken + 1..];
        if !peek {
          rcvQueue := rcvQueue[1..];
          nrcvQue := nrcvQue - 1;
        }
        if seg.frag.frg == 0 {
          ended := true;
        }
        rest := rest[1..];
        taken := taken + 1;
      }
      MergeNone(data);
    }

    /** Merge the next message and let waiting segments move up. */
    method TakeMessage(peek: bool) returns (data: Bytes)
      requires Shape()
      modifies this`rcvQueue, this`nrcvQue, this`rcvBuf, this`nrcvBuf, this`rcvNxt
      ensures Shape()
      ensures data == Merge(old(rcvQueue))
      ensures Rcv() == Take(Wrapped, cfg.rcvWnd, old(Rcv()), if peek then 0 else MessageEnd(old(rcvQueue)))
    {
      hide AckPairs, MoveReady, Merge, MessageEnd;
      data := MergeFragments(peek);
      MoveUp();
    }

    /** A negative len only looks at the next message. */
    method Recv(len: int) returns (code: int, data: Bytes)
      requires Valid()
      modifies this`rcvQueue, this`nrcvQue, this`rcvBuf, this`nrcvBuf, this`rcvNxt, this`askTell
      ensures Valid()
      ensures Kcp.RecvOutcome(code, data, State()) == Kcp.RecvOn(Wrapped, old(State()), len)
    {
      hide CbOk32, AckPairs, Take, Merge, MessageEnd, PeekSize, Snd, Acks, Win, Estimate, Clk;
      RecvKeeps32(State(), len);
      data := [];
      if |rcvQueue| == 0 {
        return -1, [];
      }
      var peek := PeekNext();
      if peek < 0 {
        return -2, [];
      }
      if peek > (if len < 0 then -len else len) {
        return -3, [];
      }
      data := ReadMessage(len < 0);
      code := |data|;
    }

    /** Take the message, and ask for a window update when a full queue got room. */
    method ReadMessage(peek: bool) returns (data: Bytes)
      requires Shape()
      modifies this`rcvQueue, this`nrcvQue, this`rcvBuf, this`nrcvBuf, this`rcvNxt, this`askTell
      ensures Shape()
      ensures data == Merge(old(rcvQueue))
      ensures var r := Take(Wrapped, cfg.rcvWnd, old(Rcv()), if peek then 0 else MessageEnd(old(rcvQueue)));
        var tell := old(askTell) || (|old(rcvQueue)| >= cfg.rcvWnd && |r.queue| < cfg.rcvWnd);
        State() == old(State()).(rcv := r, probe := old(Probing()).(tell := tell))
    {
      hide AckPairs, Take, Merge, MessageEnd;
      var recover := nrcvQue >= cfg.rcvWnd;
      data := TakeMessage(peek);
      if nrcvQue < cfg.rcvWnd && recover {
        askTell := true;
      }
    }

    // ---- ikcp_send ----

    /** Stream mode: lengthen the last queued segment; returns what is left to send. */
    method ExtendLast(data: Bytes) returns (rest: Bytes)
      requires nsndQue == |sndQueue|
      modifies this`sndQueue
      ensures nsndQue == |sndQueue|
      ensures sndQueue == Extend(cfg.mss, old(sndQueue), data)
      ensures rest == data[Min(|data|, Room(cfg.mss, old(sndQueue)))..]
    {
      rest := data;
      if |sndQueue| > 0 {
        var last := sndQueue[|sndQueue| - 1];
        if |last.data| < cfg.mss {
          var capacity := cfg.mss - |last.data|;
          var extend := if |data| < capacity then |data| else capacity;
          sndQueue := sndQueue[..|sndQueue| - 1] + [Frag(0, last.data + data[..extend])];
          rest := data[extend..];
        }
      }
    }

    method QueueFragments(data: Bytes, count: nat)
      requires nsndQue == |sndQueue| && cfg.mss > 0
      modifies this`sndQueue, this`nsndQue
      ensures nsndQue == |sndQueue|
      ensures sndQueue == old(sndQueue) + Split(cfg.mss, data, count, cfg.stream)
    {
      ghost var all := old(sndQueue) + Split(cfg.mss, data, count, cfg.stream);
      var rest := data;
      for i := 0 to count
        invariant nsndQue == |sndQueue|
        invariant sndQueue + Split(cfg.mss, rest, count - i, cfg.stream) == all
      {
        var size := if |rest| > cfg.mss then cfg.mss else |rest|;
        var frag := Frag(if cfg.stream then 0 else count - i - 1, rest[..size]);
        ghost var before := sndQueue;
        ghost var more := Split(cfg.mss, rest[size..], count - i - 1, cfg.stream);
        assert before + ([frag] + more) == (before + [frag]) + more;
        sndQueue := sndQueue + [frag];
        nsndQue := nsndQue + 1;
        rest := rest[size..];
      }
      assert sndQueue + [] == sndQueue;
    }

    method Send(buffer: Bytes, len: int) returns (code: int)
      requires Valid() && len <= |buffer|
      modifies this`sndQueue, this`nsndQue
      ensures Valid()
      ensures len < 0 ==> code == -1 && State() == old(State())
      ensures len >= 0 ==> Kcp.SendOutcome(code, State()) == Kcp.SendOn(old(State()), buffer[..len])
    {
      hide CbOk32, AckPairs, Extend, Split, FragmentCount, Room;
      if len < 0 {
        return -1;
      }
      var rest := buffer[..len];
      SendKeeps32(State(), rest);
      MssPositive32(State());
      if cfg.stream {
        rest := ExtendLast(rest);
        if |rest| == 0 {
          return 0;
        }
      }
      var count := FragmentCount(cfg.mss, |rest|);
      if count >= WND_RCV {
        return -2;
      }
      CountExact(cfg.mss, |rest|);
      QueueFragments(rest, count);
      code := 0;
    }

    // ---- the output buffer ----

    method EncodeAt(at: nat, x: nat, n: nat)
      requires at + n <= buffer.Length
      modifies buffer
      ensures buffer[..at + n] == old(buffer[..at]) + EncodeInt(x, n)
    {
      var v := x;
      for i := 0 to n
        invariant buffer[..at + i] + EncodeInt(v, n - i) == old(buffer[..at]) + EncodeInt(x, n)
      {
        ghost var written := buffer[..at + i];
        buffer[at + i] := v % 256;
        assert buffer[..at + i + 1] == written + [v % 256];
        assert (written + [v % 256]) + EncodeInt(v / 256, n - i - 1) == written + ([v % 256] + EncodeInt(v / 256, n - i - 1));
        v := v / 256;
      }
      assert buffer[..at + n] + [] == buffer[..at + n];
    }

    method EncodeSegment(at: nat, p: Packet)
      requires at + OVERHEAD <= buffer.Length
      modifies buffer
      ensures buffer[..at + OVERHEAD] == old(buffer[..at]) + EncodeHeader(cfg.conv, p)
    {
      hide EncodeInt;
      EncodeAt(at, cfg.conv, 4);
      EncodeAt(at + 4, p.cmd, 1);
      EncodeAt(at + 5, p.frg, 1);
      EncodeAt(at + 6, p.wnd, 2);
      EncodeAt(at + 8, p.ts, 4);
      EncodeAt(at + 12, p.sn, 4);
      EncodeAt(at + 16, p.una, 4);
      EncodeAt(at + 20, |p.data|, 4);
      Regroup(old(buffer[..at]), EncodeInt(cfg.conv, 4), EncodeInt(p.cmd, 1), EncodeInt(p.frg, 1), EncodeInt(p.wnd, 2),
              EncodeInt(p.ts, 4), EncodeInt(p.sn, 4), EncodeInt(p.una, 4), EncodeInt(|p.data|, 4));
    }

    method CopyData(at: nat, d: Bytes)
      requires at + |d| <= buffer.Length
      modifies buffer
      ensures buffer[..at + |d|] == old(buffer[..at]) + d
    {
      for i := 0 to |d|
        invariant buffer[..at + i] == old(buffer[..at]) + d[..i]
      {
        buffer[at + i] := d[i];
      }
      assert d[..|d|] == d;
    }

    /** ikcp_output with the forwarders' callback: an empty buffer is not sent; otherwise the
        callback encrypts the engine's own buffer in place and sends it. */
    method Output(size: nat)
      requires size <= buffer.Length
      modifies this`sent, buffer
      ensures sent == old(sent) + if size == 0 then [] else [Seal(checksum, old(buffer[..size]))]
    {
      if size == 0 {
        return;
      }
      Encrypt(buffer, 0, size);
      var wire := buffer[0..0 + size];
      assert old(buffer[..size]) == old(buffer[0..0 + size]);
      if checksum {
        var sum := XorCheck(buffer, 0, size);
        wire := [sum] + wire;
      }
      sent := sent + [wire];
    }

    /** What the buffer and the socket hold while a flush has packed k so far. */
    ghost predicate Packed(k: Pack, size: nat, base: seq<Bytes>)
      reads this`cfg, this`buffer, this`sent, buffer
    {
      && size == TotalSize(k.cur) <= cfg.mtu
      && buffer.Length == (cfg.mtu + OVERHEAD) * 3
      && buffer[..size] == EncodeAll(cfg.conv, k.cur)
      && sent == base + SealAll(checksum, cfg.conv, k.done)
    }

    /** Emit the buffer if the segment does not fit, then append the segment. */
    method Append(p: Packet, size: nat, ghost k: Pack, ghost base: seq<Bytes>) returns (size': nat)
      requires Packed(k, size, base) && PacketSize(p) <= cfg.mtu
      modifies this`sent, buffer
      ensures Packed(Put(cfg.mtu, k, p), size', base)
    {
      hide EncodeHeader, EncodeAll, SealAll, TotalSize, Seal;
      size' := size;
      if size + PacketSize(p) > cfg.mtu {
        Output(size);
        EmitSealed(checksum, cfg.conv, k, base);
        assert buffer[..0] == [];
        size' := 0;
      }
      ghost var cur := if size + PacketSize(p) > cfg.mtu then [] else k.cur;
      PackedEmpty(cfg.conv);
      assert buffer[..size'] == EncodeAll(cfg.conv, cur);
      EncodeSegment(size', p);
      CopyData(size' + OVERHEAD, p.data);
      EncodeAllSnoc(cfg.conv, cur, p);
      TotalSizeSnoc(cur, p);
      assert [] + [p] == [p];
      size' := size' + OVERHEAD + |p.data|;
    }

    /** The end of a flush: emit what remains. */
    method FlushRemaining(size: nat, ghost k: Pack, ghost base: seq<Bytes>)
      requires Shape() && Packed(k, size, base)
      modifies this`sent, buffer
      ensures Shape() && State() == old(State())
      ensures sent == base + SealAll(checksum, cfg.conv, Emit(k))
    {
      hide EncodeAll, SealAll, Seal, AckPairs;
      if size > 0 {
        Output(size);
      }
      EmitSealed(checksum, cfg.conv, k, base);
      PackedEmpty(cfg.conv);
    }

    // ---- ikcp_flush ----

    method Unused() returns (wnd: nat)
      requires nrcvQue == |rcvQueue|
      ensures wnd == if |rcvQueue| < cfg.rcvWnd then cfg.rcvWnd - |rcvQueue| else 0
    {
      if nrcvQue < cfg.rcvWnd {
        return cfg.rcvWnd - nrcvQue;
      }
      return 0;
    }

    /** Flush the acknowledgements; returns the number and time stamp of the last one. */
    method FlushAcks(wnd: nat, ghost base: seq<Bytes>) returns (size: nat, sn: nat, ts: nat, ghost k: Pack)
      requires Shape() && sent == base && OVERHEAD <= cfg.mtu
      modifies this`sent, buffer
      ensures k == PutAll(cfg.mtu, Kcp.AckPackets(Rcv(), wnd))
      ensures Packed(k, size, base)
      ensures ackcount > 0 ==> Ack(sn, ts) == Acks()[ackcount - 1]
      ensures ackcount == 0 ==> sn == 0 && ts == 0
    {
      hide Put, SealAll, EncodeAll;
      size, sn, ts := 0, 0, 0;
      k := Pack([], []);
      ghost var ps := Kcp.AckPackets(Rcv(), wnd);
      StartPacking(cfg.conv, cfg.mtu, checksum);
      assert buffer[..0] == [] && base + [] == base;
      var i := 0;
      while i < ackcount
        invariant i <= ackcount && Shape() && Acks() == old(Acks())
        invariant k == PutAll(cfg.mtu, ps[..i])
        invariant Packed(k, size, base)
        invariant i > 0 ==> Ack(sn, ts) == Acks()[i - 1]
        invariant i == 0 ==> sn == 0 && ts == 0
      {
        sn, ts := acklist[i * 2], acklist[i * 2 + 1];
        var p := Packet(CMD_ACK, 0, wnd, ts, sn, rcvNxt, []);
        assert p == ps[i] && p in ps;
        size := Append(p, size, k, base);
        k := Put(cfg.mtu, k, p);
        PutAllSnoc(cfg.mtu, ps, i);
        i := i + 1;
      }
      assert ps[..i] == ps;
    }

    method ProbeWindow()
      modifies this`probeWait, this`tsProbe, this`askSend
      ensures Probing() == ProbeStep(old(Probing()), rmtWnd, current)
    {
      hide TimeDiff;
      if rmtWnd == 0 {
        if probeWait == 0 {
          probeWait := PROBE_INIT;
          tsProbe := U32(current + probeWait);
        } else if TimeDiff(current, tsProbe) >= 0 {
          if probeWait < PROBE_INIT {
            probeWait := PROBE_INIT;
          }
          probeWait := U32(probeWait + probeWait / 2);
          if probeWait > PROBE_LIMIT {
            probeWait := PROBE_LIMIT;
          }
          tsProbe := U32(current + probeWait);
          askSend := true;
        }
      } else {
        tsProbe := 0;
        probeWait := 0;
      }
    }

    method NumberQueued(limit: nat)
      requires nsndQue == |sndQueue| && nsndBuf == |sndBuf|
      modifies this`sndQueue, this`nsndQue, this`sndBuf, this`nsndBuf, this`sndNxt
      ensures nsndQue == |sndQueue| && nsndBuf == |sndBuf|
      ensures Snd() == MoveToBuf(Wrapped, old(Snd()), limit, rto, current)
    {
      hide Diff, Plus;
      while Diff(Wrapped, sndNxt, Plus(Wrapped, sndUna, limit)) < 0
        invariant nsndQue == |sndQueue| && nsndBuf == |sndBuf|
        invariant MoveToBuf(Wrapped, Snd(), limit, rto, current) == MoveToBuf(Wrapped, old(Snd()), limit, rto, current)
        decreases |sndQueue|
      {
        if |sndQueue| == 0 {
          break;
        }
        var frag := sndQueue[0];
        sndQueue := sndQueue[1..];
        sndBuf := sndBuf + [NewSegment(sndNxt, frag, rto, current)];
        nsndQue := nsndQue - 1;
        nsndBuf := nsndBuf + 1;
        sndNxt := Plus(Wrapped, sndNxt, 1);
      }
    }

    /** Decide whether a segment is (re)sent now, and reschedule it. */
    static method Reschedule(s: Sending, g: OutSeg) returns (g': OutSeg, choice: Choice)
      ensures choice == Choose(s, g) && g' == Resend(s, g)
    {
      hide TimeDiff, U32, S32;
      g', choice := g, Keep;
      if g.xmit == 0 {
        choice := First;
        var rtomin := if s.nodelay == 0 then s.rto / 8 else 0;
        g' := g.(xmit := U32(g.xmit + 1), rto := s.rto, resendts := U32(s.now + s.rto + rtomin));
      } else if TimeDiff(s.now, g.resendts) >= 0 {
        choice := Timeout;
        var backoff;
        if s.nodelay == 0 {
          backoff := U32(g.rto + Max(g.rto, s.rto));
        } else {
          var step := if s.nodelay < 2 then S32(g.rto) else s.rto;
          backoff := U32(g.rto + HalfSigned(step));
        }
        g' := g.(xmit := U32(g.xmit + 1), rto := backoff, resendts := U32(s.now + backoff));
      } else if g.fastack >= s.resent {
        if S32(g.xmit) <= s.fastlimit || s.fastlimit <= 0 {
          choice := Fast;
          g' := g.(xmit := U32(g.xmit + 1), fastack := 0, resendts := U32(s.now + g.rto));
        }
      }
    }

    /** Send every due segment of snd_buf after the control segments ctl. */
    method SweepSegments(s: Sending, ghost ctl: seq<Packet>, size0: nat, ghost k0: Pack, ghost base: seq<Bytes>)
      returns (size: nat, change: bool, lost: bool, ghost k: Pack)
      requires Packed(k0, size0, base) && k0 == PutAll(cfg.mtu, ctl)
      requires forall p :: p in SweptPackets(s, sndBuf) ==> PacketSize(p) <= cfg.mtu
      modifies this`sndBuf, this`dead, this`sent, buffer
      ensures sndBuf == SweptBuf(s, old(sndBuf))
      ensures change == Chosen(s, old(sndBuf), Fast) && lost == Chosen(s, old(sndBuf), Timeout)
      ensures dead == (old(dead) || LinkDead(s, old(sndBuf), cfg.deadLink))
      ensures k == PutAll(cfg.mtu, ctl + SweptPackets(s, old(sndBuf)))
      ensures Packed(k, size, base)
    {
      hide Choose, Resend, Put, Packed, PacketSize, DataPacket;
      ghost var buf := sndBuf;
      size, change, lost, k := size0, false, false, k0;
      NothingSwept(s, cfg.deadLink, ctl);
      var i := 0;
      while i < |sndBuf|
        invariant i <= |buf| == |sndBuf|
        invariant sndBuf[i..] == buf[i..] && sndBuf[..i] == SweptBuf(s, buf[..i])
        invariant change == Chosen(s, buf[..i], Fast) && lost == Chosen(s, buf[..i], Timeout)
        invariant dead == (old(dead) || LinkDead(s, buf[..i], cfg.deadLink))
        invariant k == PutAll(cfg.mtu, ctl + SweptPackets(s, buf[..i]))
        invariant Packed(k, size, base)
      {
        SweepStep(s, buf, i, cfg.deadLink, cfg.mtu, ctl, sndBuf);
        var g, choice := Reschedule(s, sndBuf[i]);
        if choice == Timeout {
          lost := true;
        }
        if choice == Fast {
          change := true;
        }
        var seg := sndBuf[i];
        sndBuf := sndBuf[i := g];
        if choice != Keep {
          size := AppendData(DataPacket(s, seg), size, k, base);
          k := Put(cfg.mtu, k, DataPacket(s, seg));
          if g.xmit >= cfg.deadLink {
            dead := true;
          }
        }
        i := i + 1;
      }
      assert buf[..i] == buf && sndBuf[..i] == sndBuf;
    }

    method AppendData(p: Packet, size: nat, ghost k: Pack, ghost base: seq<Bytes>) returns (size': nat)
      requires Packed(k, size, base) && PacketSize(p) <= cfg.mtu
      modifies this`sent, buffer
      ensures Packed(Put(cfg.mtu, k, p), size', base)
    {
      size' := Append(p, size, k, base);
    }

    method UpdateWindow(change: bool, lost: bool, resent: nat, limit: nat)
      modifies this`ssthresh, this`cwnd, this`incr
      ensures Win() == AfterFlush(cfg.mss, change, U32(sndNxt - sndUna), resent, lost, limit, old(Win()))
    {
      hide U32;
      if change {
        var inflight := U32(sndNxt - sndUna);
        ssthresh := inflight / 2;
        if ssthresh < THRESH_MIN {
          ssthresh := THRESH_MIN;
        }
        cwnd := U32(ssthresh + resent);
        incr := U32(cwnd * cfg.mss);
      }
      if lost {
        ssthresh := limit / 2;
        if ssthresh < THRESH_MIN {
          ssthresh := THRESH_MIN;
        }
        cwnd := 1;
        incr := cfg.mss;
      }
      if cwnd < 1 {
        cwnd := 1;
        incr := cfg.mss;
      }
    }

    /** Send the probes that were asked for, after the segments packed in k0. */
    method FlushProbes(ghost r: Receiver, wnd: nat, sn: nat, ts: nat, size0: nat, ghost k0: Pack, ghost base: seq<Bytes>)
      returns (size: nat, ghost k: Pack)
      requires Packed(k0, size0, base) && rcvNxt == r.nxt && OVERHEAD <= cfg.mtu
      requires Ack(sn, ts) == if |r.acks| > 0 then r.acks[|r.acks| - 1] else Ack(0, 0)
      modifies this`askSend, this`askTell, this`sent, buffer
      ensures k == AfterProbes(cfg.mtu, r, wnd, old(Probing()), k0)
      ensures Packed(k, size, base)
      ensures Probing() == old(Probing()).(ask := false, tell := false)
    {
      hide Put, Packed;
      size, k := size0, k0;
      if askSend {
        var p := Packet(CMD_WASK, 0, wnd, ts, sn, rcvNxt, []);
        size := AppendData(p, size, k, base);
        k := Put(cfg.mtu, k, p);
      }
      if askTell {
        var p := Packet(CMD_WINS, 0, wnd, ts, sn, rcvNxt, []);
        size := AppendData(p, size, k, base);
        k := Put(cfg.mtu, k, p);
      }
      askSend, askTell := false, false;
    }

    /** Flush the acknowledgements and forget them. */
    method DrainAcks(wnd: nat, ghost base: seq<Bytes>) returns (size: nat, sn: nat, ts: nat, ghost k: Pack)
      requires Shape() && sent == base && OVERHEAD <= cfg.mtu
      modifies this`ackcount, this`sent, buffer
      ensures Shape() && Acks() == []
      ensures k == PutAll(cfg.mtu, Kcp.AckPackets(old(Rcv()), wnd))
      ensures Packed(k, size, base)
      ensures var acks := old(Acks()); if |acks| > 0 then Ack(sn, ts) == acks[|acks| - 1] else sn == 0 && ts == 0
    {
      hide PutAll, Packed, Kcp.AckPackets;
      size, sn, ts, k := FlushAcks(wnd, base);
      ackcount := 0;
    }

    /** The control segments of a flush, in the order they are packed. */
    method FlushControl(wnd: nat, ghost base: seq<Bytes>) returns (size: nat, ghost k: Pack)
      requires Shape() && sent == base && OVERHEAD <= cfg.mtu
      modifies this`ackcount, this`probeWait, this`tsProbe, this`askSend, this`askTell, this`sent, buffer
      ensures Shape() && Acks() == []
      ensures k == PutAll(cfg.mtu, Kcp.ControlPackets(old(Rcv()), wnd, ProbeStep(old(Probing()), rmtWnd, current)))
      ensures Packed(k, size, base)
      ensures Probing() == ProbeStep(old(Probing()), rmtWnd, current).(ask := false, tell := false)
    {
      hide Put, PutAll, ProbeStep, Packed, AckPairs, Kcp.AckPackets, Kcp.ControlPackets, Probing;
      ghost var r := Rcv();
      var sn, ts;
      size, sn, ts, k := DrainAcks(wnd, base);
      ProbeWindow();
      PutControl(cfg.mtu, r, wnd, Probing());
      size, k := FlushProbes(r, wnd, sn, ts, size, k, base);
    }

    /** What a flush computes from the state before it changes anything. */
    method FlushParameters() returns (wnd: nat, limit: nat, resent: nat)
      requires Shape()
      ensures wnd == Kcp.AnnouncedWnd(State()) && limit == Kcp.SendLimit(State()) && resent == Kcp.Resent(cfg)
    {
      hide AckPairs, U32;
      var unused := Unused();
      wnd := unused % 65536;
      limit := Min(cfg.sndWnd, rmtWnd);
      if !cfg.nocwnd {
        limit := Min(cwnd, limit);
      }
      resent := if cfg.fastresend > 0 then U32(cfg.fastresend) else Kcp.MAX_RESENT;
    }

    /** The data part: number queued fragments, send what is due, adjust the window. */
    method FlushData(wnd: nat, limit: nat, resent: nat, ghost ctl: seq<Packet>, size0: nat, ghost k0: Pack, ghost base: seq<Bytes>)
      returns (size: nat, ghost k: Pack)
      requires nsndQue == |sndQueue| && nsndBuf == |sndBuf|
      requires Packed(k0, size0, base) && k0 == PutAll(cfg.mtu, ctl)
      requires var sp := Sending(cfg.nodelay, cfg.fastlimit, resent, rto, current, wnd, rcvNxt);
        forall p :: p in SweptPackets(sp, MoveToBuf(Wrapped, Snd(), limit, rto, current).buf) ==> PacketSize(p) <= cfg.mtu
      modifies this`sndQueue, this`nsndQue, this`sndBuf, this`nsndBuf, this`sndNxt, this`dead, this`ssthresh, this`cwnd,
        this`incr, this`sent, buffer
      ensures nsndQue == |sndQueue| && nsndBuf == |sndBuf|
      ensures var sp := Sending(cfg.nodelay, cfg.fastlimit, resent, rto, current, wnd, rcvNxt);
        var s := MoveToBuf(Wrapped, old(Snd()), limit, rto, current);
        && Snd() == s.(buf := SweptBuf(sp, s.buf))
        && Win() == AfterFlush(cfg.mss, Chosen(sp, s.buf, Fast), U32(s.nxt - s.una), resent, Chosen(sp, s.buf, Timeout), limit, old(Win()))
        && dead == (old(dead) || LinkDead(sp, s.buf, cfg.deadLink))
        && k == PutAll(cfg.mtu, ctl + SweptPackets(sp, s.buf))
      ensures Packed(k, size, base)
    {
      hide MoveToBuf, SweptBuf, SweptPackets, Chosen, LinkDead, AfterFlush, PutAll, Packed, U32, Win, PacketSize;
      NumberQueued(limit);
      var sending := Sending(cfg.nodelay, cfg.fastlimit, resent, rto, current, wnd, rcvNxt);
      var change, lost;
      size, change, lost, k := SweepSegments(sending, ctl, size0, k0, base);
      UpdateWindow(change, lost, resent, limit);
    }

    /** FlushControl seen on the whole control block. */
    method ControlPhase(wnd: nat, ghost base: seq<Bytes>) returns (size: nat, ghost k: Pack)
      requires Shape() && sent == base && OVERHEAD <= cfg.mtu
      modifies this`ackcount, this`probeWait, this`tsProbe, this`askSend, this`askTell, this`sent, buffer
      ensures Shape() && Packed(k, size, base)
      ensures var cb := old(State()); var p := ProbeStep(cb.probe, cb.rmtWnd, cb.clk.current);
        && k == PutAll(cfg.mtu, Kcp.ControlPackets(cb.rcv, wnd, p))
        && State() == cb.(rcv := cb.rcv.(acks := []), probe := p.(ask := false, tell := false))
    {
      hide PutAll, ProbeStep, Packed, AckPairs, Kcp.ControlPackets, Acks, Win, Snd, Probing, Estimate;
      size, k := FlushControl(wnd, base);
    }

    /** FlushData seen on the whole control block. */
    method DataPhase(wnd: nat, limit: nat, resent: nat, ghost ctl: seq<Packet>, size0: nat, ghost k0: Pack, ghost base: seq<Bytes>)
      returns (size: nat, ghost k: Pack)
      requires Shape() && Packed(k0, size0, base) && k0 == PutAll(cfg.mtu, ctl)
      requires forall p :: p in DataSent(State(), wnd, limit, resent) ==> PacketSize(p) <= cfg.mtu
      modifies this`sndQueue, this`nsndQue, this`sndBuf, this`nsndBuf, this`sndNxt, this`dead, this`ssthresh, this`cwnd,
        this`incr, this`sent, buffer
      ensures Shape() && Packed(k, size, base)
      ensures k == PutAll(cfg.mtu, ctl + DataSent(old(State()), wnd, limit, resent))
      ensures State() == AfterData(old(State()), wnd, limit, resent)
    {
      hide PutAll, Packed, AckPairs, PacketSize, SweptPackets, SweptBuf, MoveToBuf, Chosen, LinkDead, AfterFlush, Acks, Win, Snd, Probing, U32;
      size, k := FlushData(wnd, limit, resent, ctl, size0, k0, base);
    }

    lemma ConfigPart()
      requires Shape()
      ensures State().cfg == cfg
    {
    }

    /** The part of ikcp_flush that follows the check for the first update. */
    method FlushNow()
      requires Valid() && updated
      modifies this`ackcount, this`probeWait, this`tsProbe, this`askSend, this`askTell, this`sndQueue, this`nsndQue,
        this`sndBuf, this`nsndBuf, this`sndNxt, this`dead, this`ssthresh, this`cwnd, this`incr, this`sent, buffer
      ensures Shape() && State() == Kcp.FlushState(Wrapped, old(State()))
      ensures sent == old(sent) + SealAll(checksum, cfg.conv, Datagrams(cfg.mtu, Kcp.FlushPackets(Wrapped, old(State()))))
    {
      hide CbOk32, PutAll, Emit, ProbeStep, Packed, AckPairs, PacketSize, Kcp.ControlPackets, State, SealAll,
        Kcp.AnnouncedWnd, Kcp.SendLimit, Kcp.Resent, Kcp.FlushState, Kcp.FlushPackets, DataSent, AfterData;
      ghost var cb, base := State(), sent;
      FlushPacketsFit32(cb);
      MtuRoom(cb);
      ConfigPart();
      var wnd, limit, resent := FlushParameters();
      ghost var ctl := Kcp.ControlPackets(cb.rcv, wnd, ProbeStep(cb.probe, cb.rmtWnd, cb.clk.current));
      FlushParts(cb, wnd, limit, resent);
      var size: nat;
      ghost var k: Pack;
      size, k := ControlPhase(wnd, base);
      size, k := DataPhase(wnd, limit, resent, ctl, size, k, base);
      FlushRemaining(size, k, base);
    }

    method Flush()
      requires Valid()
      modifies this, buffer
      ensures Valid()
      ensures acklist == old(acklist) && buffer == old(buffer)
      ensures State() == Kcp.Flush(Wrapped, old(State())).cb
      ensures sent == old(sent) + SealAll(checksum, cfg.conv, Kcp.Flush(Wrapped, old(State())).out)
    {
      hide CbOk32, Kcp.FlushState, Kcp.FlushPackets, Datagrams;
      FlushKeeps32(State());
      if !updated {
        assert SealAll(checksum, cfg.conv, []) == [];
        return;
      }
      FlushNow();
    }

    // ---- ikcp_update and ikcp_check ----

    method UpdateClock(now: nat) returns (flush: bool)
      modifies this`current, this`tsFlush, this`updated
      ensures Tick(Clk(), flush) == Advance(cfg.interval, old(Clk()), now)
    {
      hide TimeDiff, U32;
      current := now;
      if !updated {
        updated := true;
        tsFlush := current;
      }
      var slap := TimeDiff(current, tsFlush);
      if slap >= CLOCK_RESET || slap < -CLOCK_RESET {
        tsFlush := current;
        slap := 0;
      }
      flush := slap >= 0;
      if flush {
        tsFlush := U32(tsFlush + cfg.interval);
        if TimeDiff(current, tsFlush) >= 0 {
          tsFlush := U32(current + cfg.interval);
        }
      }
    }

    method Update(now: nat)
      requires Valid() && now < TWO32
      modifies this, buffer
      ensures Valid()
      ensures acklist == old(acklist) && buffer == old(buffer)
      ensures State() == Kcp.Update(Wrapped, old(State()), now).cb
      ensures sent == old(sent) + SealAll(checksum, cfg.conv, Kcp.Update(Wrapped, old(State()), now).out)
    {
      hide CbOk32, Kcp.Flush, Advance, SealAll, AckPairs, Snd, Rcv, Acks, Win, Estimate, Probing;
      ghost var cb := State();
      TickKeeps32(cb, now);
      var flush := UpdateClock(now);
      assert State() == cb.(clk := Advance(cfg.interval, cb.clk, now).clk);
      if flush {
        Flush();
      } else {
        NothingSealed(checksum, cfg.conv);
      }
    }

    method Check(now: nat) returns (t: nat)
      ensures t == Timers.Check(cfg.interval, Clk(), sndBuf, now)
    {
      hide TimeDiff, U32;
      if !updated {
        return now;
      }
      var ts := tsFlush;
      if TimeDiff(now, ts) >= CLOCK_RESET || TimeDiff(now, ts) < -CLOCK_RESET {
        return now;
      }
      if TimeDiff(now, ts) >= 0 {
        return now;
      }
      var tmFlush := TimeDiff(ts, now);
      var tmPacket := TWO31 - 1;
      var i := 0;
      while i < |sndBuf|
        invariant i <= |sndBuf|
        invariant tmPacket == NearestResend(sndBuf[..i], now) && tmPacket > 0
      {
        var diff := TimeDiff(sndBuf[i].resendts, now);
        assert sndBuf[..i + 1][..i] == sndBuf[..i];
        if diff <= 0 {
          NearestIsLeast(sndBuf, now);
          return now;
        }
        if diff < tmPacket {
          tmPacket := diff;
        }
        i := i + 1;
      }
      assert sndBuf[..i] == sndBuf;
      return U32(now + Min(Min(tmPacket, tmFlush), cfg.interval));
    }

    // ---- the forwarders' feed loop ----

    /** A received datagram: check, decrypt in place, hand on. */
    method OnUdpData(data: array<Byte>, len: nat)
      requires Valid() && len <= data.Length && data != buffer
      modifies this, acklist, data
      ensures Valid() && (acklist == old(acklist) || fresh(acklist))
      ensures sent == old(sent) && buffer == old(buffer)
      ensures State() == match Open(checksum, old(data[..len]))
        case None => old(State())
        case Some(d) => Kcp.InputBytes(old(State()), d).cb
    {
      hide CbOk32, Kcp.InputBytes, AckPairs, Encrypted, XorAll;
      ghost var w := data[..len];
      if checksum {
        if len > 1 {
          var sum := XorCheck(data, 1, len - 1);
          assert data[1..1 + (len - 1)] == w[1..];
          if sum == data[0] {
            Encrypt(data, 1, len - 1);
            var _ := Input(data[1..1 + (len - 1)]);
          }
        }
      } else {
        Encrypt(data, 0, len);
        assert w == old(data[0..0 + len]);
        var _ := Input(data[0..0 + len]);
      }
    }
  }

  /** The packing after the probes that p asks for. */
  function AfterProbes(mtu: nat, r: Receiver, wnd: nat, p: Probe, k0: Pack): Pack {
    var k1 := if p.ask then Put(mtu, k0, Kcp.ProbePacket(CMD_WASK, r, wnd)) else k0;
    if p.tell then Put(mtu, k1, Kcp.ProbePacket(CMD_WINS, r, wnd)) else k1
  }

  lemma PutAllAppend(mtu: nat, a: seq<Packet>, p: Packet)
    ensures PutAll(mtu, a + [p]) == Put(mtu, PutAll(mtu, a), p)
  {
    hide Put;
    assert (a + [p])[..|a|] == a;
  }

  lemma PutControl(mtu: nat, r: Receiver, wnd: nat, p: Probe)
    ensures PutAll(mtu, Kcp.ControlPackets(r, wnd, p)) == AfterProbes(mtu, r, wnd, p, PutAll(mtu, Kcp.AckPackets(r, wnd)))
  {
    hide Put, PutAll, Kcp.AckPackets, Kcp.ProbePacket;
    var a := Kcp.AckPackets(r, wnd);
    var b := if p.ask then a + [Kcp.ProbePacket(CMD_WASK, r, wnd)] else a;
    var c := if p.tell then b + [Kcp.ProbePacket(CMD_WINS, r, wnd)] else b;
    PutAllAppend(mtu, a, Kcp.ProbePacket(CMD_WASK, r, wnd));
    PutAllAppend(mtu, b, Kcp.ProbePacket(CMD_WINS, r, wnd));
    assert Kcp.ControlPackets(r, wnd, p) == c;
  }

  function SendingWith(cb: Kcp.Cb, wnd: nat, resent: nat): Sending {
    Sending(cb.cfg.nodelay, cb.cfg.fastlimit, resent, cb.rtt.rto, cb.clk.current, wnd, cb.rcv.nxt)
  }

  /** The data segments a flush sends, and the state after its data part. */
  function DataSent(cb: Kcp.Cb, wnd: nat, limit: nat, resent: nat): seq<Packet> {
    SweptPackets(SendingWith(cb, wnd, resent), MoveToBuf(Wrapped, cb.snd, limit, cb.rtt.rto, cb.clk.current).buf)
  }

  function AfterData(cb: Kcp.Cb, wnd: nat, limit: nat, resent: nat): Kcp.Cb {
    var sp := SendingWith(cb, wnd, resent);
    var s := MoveToBuf(Wrapped, cb.snd, limit, cb.rtt.rto, cb.clk.current);
    cb.(snd := s.(buf := SweptBuf(sp, s.buf)),
        win := AfterFlush(cb.cfg.mss, Chosen(sp, s.buf, Fast), U32(s.nxt - s.una), resent, Chosen(sp, s.buf, Timeout), limit, cb.win),
        dead := cb.dead || LinkDead(sp, s.buf, cb.cfg.deadLink))
  }

  /** A flush taken apart: what it packs and the state it leaves. */
  lemma FlushParts(cb: Kcp.Cb, wnd: nat, limit: nat, resent: nat)
    requires wnd == Kcp.AnnouncedWnd(cb) && limit == Kcp.SendLimit(cb) && resent == Kcp.Resent(cb.cfg)
    ensures var p := ProbeStep(cb.probe, cb.rmtWnd, cb.clk.current);
      var mid := cb.(rcv := cb.rcv.(acks := []), probe := p.(ask := false, tell := false));
      && Kcp.FlushPackets(Wrapped, cb) == Kcp.ControlPackets(cb.rcv, wnd, p) + DataSent(mid, wnd, limit, resent)
      && (forall x :: x in DataSent(mid, wnd, limit, resent) ==> x in Kcp.FlushPackets(Wrapped, cb))
      && Kcp.FlushState(Wrapped, cb) == AfterData(mid, wnd, limit, resent)
  {
    hide MoveToBuf, SweptPackets, SweptBuf, AfterFlush, ProbeStep, Kcp.ControlPackets, U32, Chosen, LinkDead;
  }

  lemma MtuRoom(cb: Kcp.Cb)
    requires CbOk32(cb)
    ensures OVERHEAD <= cb.cfg.mtu
  {
  }

  lemma NothingSealed(checksum: bool, conv: nat)
    ensures SealAll(checksum, conv, []) == []
  {
  }

  lemma StartPacking(conv: nat, mtu: nat, checksum: bool)
    ensures PutAll(mtu, []) == Pack([], []) && EncodeAll(conv, []) == [] && TotalSize([]) == 0
    ensures SealAll(checksum, conv, []) == []
  {
  }

  lemma PutAllSnoc(mtu: nat, ps: seq<Packet>, i: nat)
    requires i < |ps|
    ensures PutAll(mtu, ps[..i + 1]) == Put(mtu, PutAll(mtu, ps[..i]), ps[i])
  {
    hide Put;
    assert ps[..i + 1][..i] == ps[..i];
  }

  lemma NothingSwept(s: Sending, deadLink: nat, ctl: seq<Packet>)
    ensures SweptBuf(s, []) == [] && SweptPackets(s, []) == [] && ctl + [] == ctl
    ensures !Chosen(s, [], Fast) && !Chosen(s, [], Timeout) && !LinkDead(s, [], deadLink)
  {
  }

  /** One pass of the loop that sends segments. */
  lemma SweepStep(s: Sending, buf: seq<OutSeg>, i: nat, deadLink: nat, mtu: nat, ctl: seq<Packet>, cur: seq<OutSeg>)
    requires i < |buf| == |cur| && cur[i..] == buf[i..] && cur[..i] == SweptBuf(s, buf[..i])
    requires forall p :: p in SweptPackets(s, buf) ==> PacketSize(p) <= mtu
    ensures cur[i] == buf[i]
    ensures var g := buf[i]; var cur' := cur[i := Resend(s, g)];
      cur'[i + 1..] == buf[i + 1..] && cur'[..i + 1] == SweptBuf(s, buf[..i + 1])
    ensures forall c :: Chosen(s, buf[..i + 1], c) <==> Chosen(s, buf[..i], c) || Choose(s, buf[i]) == c
    ensures LinkDead(s, buf[..i + 1], deadLink) <==>
      LinkDead(s, buf[..i], deadLink) || (!Choose(s, buf[i]).Keep? && Resend(s, buf[i]).xmit >= deadLink)
    ensures Choose(s, buf[i]).Keep? ==> SweptPackets(s, buf[..i + 1]) == SweptPackets(s, buf[..i])
    ensures !Choose(s, buf[i]).Keep? ==>
      && PacketSize(DataPacket(s, buf[i])) <= mtu
      && PutAll(mtu, ctl + SweptPackets(s, buf[..i + 1])) == Put(mtu, PutAll(mtu, ctl + SweptPackets(s, buf[..i])), DataPacket(s, buf[i]))
  {
    hide Choose, Resend, Put, DataPacket, PacketSize;
    var pre, post := buf[..i], buf[..i + 1];
    assert post[..i] == pre && post[i] == buf[i];
    assert cur[i] == cur[i..][0] == buf[i..][0];
    assert cur[i := Resend(s, buf[i])][i + 1..] == cur[i..][1..] == buf[i..][1..] == buf[i + 1..];
    assert cur[i := Resend(s, buf[i])][..i + 1] == SweptBuf(s, post);
    SweepChosen(s, buf, i, deadLink);
    if !Choose(s, buf[i]).Keep? {
      var p := DataPacket(s, buf[i]);
      SweptMembers(s, buf, p);
      var all := ctl + SweptPackets(s, post);
      assert all == (ctl + SweptPackets(s, pre)) + [p];
      assert all[..|all| - 1] == ctl + SweptPackets(s, pre);
    }
  }

  lemma SweepChosen(s: Sending, buf: seq<OutSeg>, i: nat, deadLink: nat)
    requires i < |buf|
    ensures forall c :: Chosen(s, buf[..i + 1], c) <==> Chosen(s, buf[..i], c) || Choose(s, buf[i]) == c
    ensures LinkDead(s, buf[..i + 1], deadLink) <==>
      LinkDead(s, buf[..i], deadLink) || (!Choose(s, buf[i]).Keep? && Resend(s, buf[i]).xmit >= deadLink)
  {
    hide Choose, Resend;
    var pre, post := buf[..i], buf[..i + 1];
    assert post == pre + [buf[i]] && post[i] == buf[i];
    forall c ensures Chosen(s, post, c) <==> Chosen(s, pre, c) || Choose(s, buf[i]) == c {
      if j :| 0 <= j < |pre| && Choose(s, pre[j]) == c {
        assert Choose(s, post[j]) == c;
      }
      if j :| 0 <= j < |post| && Choose(s, post[j]) == c {
        assert j < i ==> Choose(s, pre[j]) == c;
      }
      assert Choose(s, buf[i]) == c ==> Choose(s, post[i]) == c;
    }
    if j :| 0 <= j < |pre| && !Choose(s, pre[j]).Keep? && Resend(s, pre[j]).xmit >= deadLink {
      assert post[j] == pre[j];
    }
    if j :| 0 <= j < |post| && !Choose(s, post[j]).Keep? && Resend(s, post[j]).xmit >= deadLink {
      assert j < i ==> pre[j] == post[j];
    }
  }

  lemma Regroup(pre: Bytes, a: Bytes, b: Bytes, c: Bytes, d: Bytes, e: Bytes, f: Bytes, g: Bytes, h: Bytes)
    ensures pre + a + b + c + d + e + f + g + h == pre + (a + b + c + d + e + f + g + h)
  {
  }

  lemma PackedEmpty(conv: nat)
    ensures EncodeAll(conv, []) == [] && TotalSize([]) == 0
    ensures forall ps :: TotalSize(ps) == 0 <==> |ps| == 0
  {
  }

  lemma EncodeAllSnoc(conv: nat, ps: seq<Packet>, p: Packet)
    ensures EncodeAll(conv, ps + [p]) == EncodeAll(conv, ps) + EncodeHeader(conv, p) + p.data
  {
    hide EncodeHeader;
    assert (ps + [p])[..|ps|] == ps;
  }

  /** Emitting appends the sealed buffer to what was sent. */
  lemma EmitSealed(checksum: bool, conv: nat, k: Pack, base: seq<Bytes>)
    ensures base + SealAll(checksum, conv, Emit(k))
      == base + SealAll(checksum, conv, k.done)
         + (if |k.cur| > 0 then [Seal(checksum, EncodeAll(conv, k.cur))] else [])
  {
    hide Seal, EncodeAll;
    if |k.cur| > 0 {
      assert SealAll(checksum, conv, k.done + [k.cur]) == SealAll(checksum, conv, k.done) + [Seal(checksum, EncodeAll(conv, k.cur))];
    }
  }

  lemma NoPackets(cb: Kcp.Cb)
    ensures Kcp.InputPackets(Wrapped, cb, []) == cb && Kcp.LargestAck(Wrapped, []) == Kcp.NoAck
  {
  }

  lemma ParseStep(conv: nat, d: Bytes)
    ensures |d| < OVERHEAD ==> Parse(conv, d) == Parsed([], 0)
    ensures |d| >= OVERHEAD && HeaderCode(conv, d) != 0 ==> Parse(conv, d) == Parsed([], HeaderCode(conv, d))
    ensures |d| >= OVERHEAD && HeaderCode(conv, d) == 0 ==>
      var p := HeaderAt(d);
      && 0 < PacketSize(p) <= |d|
      && Parse(conv, d) == Parsed([p] + Parse(conv, d[PacketSize(p)..]).packets, Parse(conv, d[PacketSize(p)..]).code)
  {
  }

  lemma SnocPackets(cb: Kcp.Cb, seen: seq<Packet>, p: Packet, more: seq<Packet>)
    ensures Kcp.InputPackets(Wrapped, cb, seen + [p]) == Kcp.InputPacket(Wrapped, Kcp.InputPackets(Wrapped, cb, seen), p)
    ensures Kcp.LargestAck(Wrapped, seen + [p]) == (var acc := Kcp.LargestAck(Wrapped, seen);
      if p.cmd == CMD_ACK && (acc.NoAck? || Diff(Wrapped, p.sn, acc.sn) > 0) then Kcp.MaxAck(p.sn) else acc)
    ensures seen + ([p] + more) == (seen + [p]) + more
  {
    hide Kcp.InputPacket, Diff;
    assert (seen + [p])[..|seen|] == seen;
  }
}
