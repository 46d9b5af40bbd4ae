/** What the applications see: the messages ikcp_recv returns at one end are, in every run, a
    prefix of those ikcp_send accepted at the other. */
module EndToEnd {
  import opened Numbers
  import opened Wire
  import opened SendWindow
  import opened ReceiveWindow
  import opened Fragments
  import opened Timers
  import opened Transmission
  import opened Kcp
  import opened Invariants
  import opened Delivery
  import opened Connection

  /** All fragments of a series of messages. */
  function AllFrags(mss: nat, ms: seq<Message>): seq<Frag>
    requires mss > 0
  {
    if |ms| == 0 then [] else AllFrags(mss, ms[..|ms| - 1]) + SplitMessage(mss, ms[|ms| - 1])
  }

  function Joined(ms: seq<Message>): Bytes {
    if |ms| == 0 then [] else Joined(ms[..|ms| - 1]) + ms[|ms| - 1]
  }

  lemma AllFragsSnoc(mss: nat, ms: seq<Message>, m: Message)
    requires mss > 0
    ensures AllFrags(mss, ms + [m]) == AllFrags(mss, ms) + SplitMessage(mss, m)
  {
    assert (ms + [m])[..|ms|] == ms;
  }

  lemma JoinedSnoc(ms: seq<Message>, m: Message)
    ensures Joined(ms + [m]) == Joined(ms) + m
  {
    assert (ms + [m])[..|ms|] == ms;
  }

  lemma {:induction false} AllFragsPrefix(mss: nat, a: seq<Message>, ms: seq<Message>)
    requires mss > 0 && a <= ms
    ensures AllFrags(mss, a) <= AllFrags(mss, ms)
    decreases |ms|
  {
    if a != ms {
      AllFragsPrefix(mss, a, ms[..|ms| - 1]);
    }
  }

  // ---- the receiver's queue is a stretch of the sender's log ----

  lemma QueueLogged(r: Receiver, wnd: nat, log: seq<Frag>)
    requires ReceiverOk(r, wnd) && HeldOk(r, log)
    ensures 0 <= Taken(r) <= r.nxt <= |log|
    ensures Frags(r.queue) == log[Taken(r)..r.nxt]
  {
    hide Received;
    var q := log[Taken(r)..r.nxt];
    forall i | 0 <= i < |r.queue| ensures r.queue[i].frag == q[i] {
      assert r.queue[i] in r.queue + r.buf;
      assert Logged(log, r.queue[i].sn, r.queue[i].frag);
    }
  }

  /** What one call of ikcp_recv returns, as bytes. */
  lemma {:induction false} MergeFlat(q: seq<InSeg>)
    ensures Merge(q) == Flat(Frags(q)[..MessageEnd(q)])
  {
    if |q| > 0 {
      var fs := Frags(q)[..MessageEnd(q)];
      FlatOne(q[0].frag);
      if q[0].frag.frg == 0 {
        assert fs == [q[0].frag];
      } else {
        var rest := q[1..];
        MergeFlat(rest);
        var gs := Frags(rest)[..MessageEnd(rest)];
        assert fs == [q[0].frag] + gs;
        FlatAppend([q[0].frag], gs);
      }
    }
  }

  // ---- invariants from x to y ----

  /** The bytes taken in are those of all fragments, numbered or queued; the bytes handed out
      are those of the fragments taken. */
  predicate BytesOk(x: Peer, y: Peer) {
    && x.absorbed == Flat(x.log + x.cb.snd.queue)
    && (x.cb.cfg.stream ==> Packed(x.cb.cfg.mss, x.cb.snd.queue))
    && 0 <= Taken(y.cb.rcv) <= |x.log|
    && Joined(y.delivered) == Flat(x.log[..Taken(y.cb.rcv)])
  }

  /** In message mode the fragments are those of the accepted messages, and the receiver stands
      at the boundary after the messages it has delivered. */
  predicate MessagesOk(x: Peer, y: Peer)
    requires x.cb.cfg.mss > 0
  {
    !x.cb.cfg.stream ==>
      && AllFrags(x.cb.cfg.mss, x.accepted) == x.log + x.cb.snd.queue
      && (forall m :: m in x.accepted ==> FragmentCount(x.cb.cfg.mss, |m|) < WND_RCV)
      && y.delivered <= x.accepted
      && |AllFrags(x.cb.cfg.mss, y.delivered)| == Taken(y.cb.rcv)
  }

  predicate Stream(x: Peer, y: Peer) {
    x.cb.cfg.mss > 0 && BytesOk(x, y) && MessagesOk(x, y)
  }

  // ---- the sender's steps ----

  lemma PackedSuffix(mss: nat, q: seq<Frag>, k: nat)
    requires Packed(mss, q) && k <= |q|
    ensures Packed(mss, q[k..])
  {
    var r := q[k..];
    forall i | 0 <= i < |r| ensures |r[i].data| <= mss && r[i].frg == 0 && (i < |r| - 1 ==> |r[i].data| == mss) {
      assert r[i] == q[k + i];
    }
  }

  lemma SendBytes(x: Peer, data: Bytes)
    requires x.cb.cfg.mss > 0 && x.absorbed == Flat(x.log + x.cb.snd.queue)
    requires x.cb.cfg.stream ==> Packed(x.cb.cfg.mss, x.cb.snd.queue)
    ensures var x' := AfterSend(x, data);
      && x'.absorbed == Flat(x'.log + x'.cb.snd.queue)
      && (x.cb.cfg.stream ==> Packed(x.cb.cfg.mss, x'.cb.snd.queue))
  {
    hide Send, Flat, Packed, FragmentCount, SplitMessage;
    var mss, q := x.cb.cfg.mss, x.cb.snd.queue;
    var q' := SendOn(x.cb, data).cb.snd.queue;
    assert data[..|data|] == data && data[..0] == [];
    if x.cb.cfg.stream {
      SendStream(mss, q, data);
    } else {
      SendMessage(mss, q, data);
    }
    FlatAppend(x.log, q);
    FlatAppend(x.log, q');
    var k := |AfterSend(x, data).absorbed| - |x.absorbed|;
    assert Flat(q') == Flat(q) + data[..k];
    assert (Flat(x.log) + Flat(q)) + data[..k] == Flat(x.log) + (Flat(q) + data[..k]);
  }

  lemma SendMessages(x: Peer, y: Peer, data: Bytes)
    requires x.cb.cfg.mss > 0 && MessagesOk(x, y)
    ensures MessagesOk(AfterSend(x, data), y)
  {
    hide Send, SplitMessage, FragmentCount;
    if !x.cb.cfg.stream {
      var mss, q := x.cb.cfg.mss, x.cb.snd.queue;
      SendMessage(mss, q, data);
      if SendOn(x.cb, data).code == 0 {
        AllFragsSnoc(mss, x.accepted, data);
        assert (x.log + q) + SplitMessage(mss, data) == x.log + (q + SplitMessage(mss, data));
      } else {
        assert x.accepted + [] == x.accepted;
      }
    }
  }

  lemma FlushLog(x: Peer, y: Peer)
    requires CbOk(x.cb) && x.cb.clk.updated && SentOk(x.cb.snd, x.log) && NothingLost(x.cb.snd, y.cb.rcv)
    requires Stream(x, y)
    ensures Stream(AfterFlushing(x), y)
  {
    hide CbOk, NothingLost, SentOk, SplitMessage, FragmentCount, FlushPackets, Numbered, SendLimit, ProbeStep, Chosen, LinkDead, SweptBuf, Flat;
    FlushSender(x.cb, x.log, y.cb.rcv);
    FlushQueue(x.cb);
    var x' := AfterFlushing(x);
    var moved := ToNumber(x.cb);
    assert x'.log + x'.cb.snd.queue == x.log + x.cb.snd.queue by {
      assert (x.log + moved) + x'.cb.snd.queue == x.log + (moved + x'.cb.snd.queue);
    }
    if x.cb.cfg.stream {
      PackedSuffix(x.cb.cfg.mss, x.cb.snd.queue, |moved|);
    }
    assert x'.log[..Taken(y.cb.rcv)] == x.log[..Taken(y.cb.rcv)];
  }

  lemma FlushQueue(cb: Cb)
    requires CbOk(cb)
    ensures FlushState(Unbounded, cb).snd.queue == cb.snd.queue[|ToNumber(cb)|..]
  {
    hide CbOk, Numbered, SendLimit;
    NumberedKeeps(cb);
  }

  // ---- the receiver's step ----

  /** The code of ikcp_recv, and what it takes. */
  lemma RecvTakes(cb: Cb, len: int)
    requires CbOk(cb)
    ensures var r := RecvOn(Unbounded, cb, len);
      && (r.code >= 0 ==> |cb.rcv.queue| > 0 && PeekSize(cb.rcv.queue) >= 0 && r.data == Merge(cb.rcv.queue))
      && Taken(r.cb.rcv) == Taken(cb.rcv) + (if r.code >= 0 && len >= 0 then MessageEnd(cb.rcv.queue) else 0)
  {
    hide Merge, MessageEnd, PeekSize, Take;
    TakeKeeps(cb.cfg.rcvWnd, cb.rcv, MessageEnd(cb.rcv.queue));
    TakeKeeps(cb.cfg.rcvWnd, cb.rcv, 0);
  }

  lemma FlatStretch(log: seq<Frag>, t: nat, end: nat, k: nat)
    requires t + k <= end <= |log|
    ensures Flat(log[..t + k]) == Flat(log[..t]) + Flat(log[t..end][..k])
  {
    assert log[t..end][..k] == log[t..t + k];
    assert log[..t + k] == log[..t] + log[t..t + k];
    FlatAppend(log[..t], log[t..t + k]);
  }

  lemma RecvBytes(x: Peer, y: Peer, len: int)
    requires CbOk(y.cb) && HeldOk(y.cb.rcv, x.log) && BytesOk(x, y)
    ensures BytesOk(x, AfterRecv(y, len))
  {
    hide CbOk, Recv, Merge, MessageEnd, PeekSize, HeldOk, Flat, Packed;
    var r, q := y.cb.rcv, y.cb.rcv.queue;
    RecvTakes(y.cb, len);
    if RecvOn(Unbounded, y.cb, len).code >= 0 && len >= 0 {
      QueueLogged(r, y.cb.cfg.rcvWnd, x.log) by { ReceiverPart(y.cb); }
      MergeFlat(q);
      FlatStretch(x.log, Taken(r), r.nxt, MessageEnd(q));
      JoinedSnoc(y.delivered, Merge(q));
    } else {
      assert y.delivered + [] == y.delivered;
    }
  }

  lemma ReceiverPart(cb: Cb)
    requires CbOk(cb)
    ensures ReceiverOk(cb.rcv, cb.cfg.rcvWnd) && cb.cfg.rcvWnd >= WND_RCV
  {
  }

  /** The message that starts where the fragments of the first n messages end. */
  lemma MessageAt(mss: nat, accepted: seq<Message>, delivered: seq<Message>)
    requires mss > 0 && delivered <= accepted
    requires |AllFrags(mss, delivered)| < |AllFrags(mss, accepted)|
    ensures var n, t, all := |delivered|, |AllFrags(mss, delivered)|, AllFrags(mss, accepted);
      && n < |accepted| && delivered + [accepted[n]] <= accepted
      && var fs := SplitMessage(mss, accepted[n]);
         |fs| > 0 && t + |fs| <= |all| && all[t..t + |fs|] == fs
  {
    hide SplitMessage, AllFrags;
    var n := |delivered|;
    assert delivered != accepted;
    var m := accepted[n];
    AllFragsSnoc(mss, delivered, m);
    AllFragsPrefix(mss, delivered + [m], accepted);
    MessageNonempty(mss, m);
  }

  /** A stretch of the fragments that starts with a message. */
  lemma StretchStartsWith(all: seq<Frag>, log: seq<Frag>, t: nat, end: nat, fs: seq<Frag>, q: seq<Frag>)
    requires log <= all && t < end <= |log| && q == log[t..end]
    requires 0 < |fs| && t + |fs| <= |all| && all[t..t + |fs|] == fs
    ensures q[0] == fs[0]
    ensures |q| >= |fs| ==> fs <= q
  {
    assert q[0] == all[t] == all[t..t + |fs|][0];
    if |q| >= |fs| {
      assert q[..|fs|] == all[t..t + |fs|];
    }
  }

  /** The receiver stands before a message the sender accepted; its queue holds the beginning
      of that message's fragments, and possibly more. */
  lemma NextMessage(x: Peer, y: Peer)
    requires CbOk(y.cb) && HeldOk(y.cb.rcv, x.log) && Stream(x, y) && !x.cb.cfg.stream
    requires |y.cb.rcv.queue| > 0
    ensures |y.delivered| < |x.accepted|
    ensures var m, q := x.accepted[|y.delivered|], y.cb.rcv.queue;
      var fs := SplitMessage(x.cb.cfg.mss, m);
      && y.delivered + [m] <= x.accepted
      && |fs| == FragmentCount(x.cb.cfg.mss, |m|) < WND_RCV
      && |fs| > 0 && q[0].frag == fs[0]
      && (|q| >= |fs| ==> fs <= Frags(q))
  {
    hide CbOk, HeldOk, SplitMessage, Merge, MessageEnd, PeekSize, BytesOk, FragmentCount, AllFrags;
    var mss, r := x.cb.cfg.mss, y.cb.rcv;
    var all := AllFrags(mss, x.accepted);
    ReceiverPart(y.cb);
    QueueLogged(r, y.cb.cfg.rcvWnd, x.log);
    assert x.log <= all;
    assert |Frags(r.queue)| > 0;
    MessageAt(mss, x.accepted, y.delivered);
    var m := x.accepted[|y.delivered|];
    MessageNonempty(mss, m);
    StretchStartsWith(all, x.log, Taken(r), r.nxt, SplitMessage(mss, m), Frags(r.queue));
  }

  lemma MessageNonempty(mss: nat, m: Message)
    requires mss > 0
    ensures |SplitMessage(mss, m)| == FragmentCount(mss, |m|) > 0
  {
    CountExact(mss, |m|);
  }

  /** A successful ikcp_recv returns the next message. */
  lemma RecvNext(x: Peer, y: Peer)
    requires CbOk(y.cb) && HeldOk(y.cb.rcv, x.log) && Stream(x, y) && !x.cb.cfg.stream
    requires PeekSize(y.cb.rcv.queue) >= 0
    ensures |y.delivered| < |x.accepted|
    ensures Merge(y.cb.rcv.queue) == x.accepted[|y.delivered|]
    ensures MessageEnd(y.cb.rcv.queue) == |SplitMessage(x.cb.cfg.mss, x.accepted[|y.delivered|])|
  {
    hide CbOk, HeldOk, SplitMessage, Merge, MessageEnd, BytesOk, FragmentCount, AllFrags;
    var mss, q := x.cb.cfg.mss, y.cb.rcv.queue;
    NextMessage(x, y);
    var m := x.accepted[|y.delivered|];
    MessageReady(mss, q, m);
    MessageWhole(mss, q, m);
    MessageNonempty(mss, m);
  }

  lemma RecvMessages(x: Peer, y: Peer, len: int)
    requires CbOk(y.cb) && HeldOk(y.cb.rcv, x.log) && Stream(x, y)
    ensures MessagesOk(x, AfterRecv(y, len))
  {
    hide CbOk, HeldOk, SplitMessage, Merge, MessageEnd, BytesOk, Recv, PeekSize, FragmentCount;
    RecvTakes(y.cb, len);
    if !x.cb.cfg.stream && RecvOn(Unbounded, y.cb, len).code >= 0 && len >= 0 {
      RecvNext(x, y);
      NextMessage(x, y);
      AllFragsSnoc(x.cb.cfg.mss, y.delivered, x.accepted[|y.delivered|]);
    } else {
      assert y.delivered + [] == y.delivered;
    }
  }

  /** The reassembly queue cannot jam: when it is full, ikcp_peeksize succeeds. */
  lemma FullQueueReadable(x: Peer, y: Peer)
    requires CbOk(y.cb) && HeldOk(y.cb.rcv, x.log) && Stream(x, y)
    requires |y.cb.rcv.queue| >= y.cb.cfg.rcvWnd
    requires !x.cb.cfg.stream
    ensures PeekSize(y.cb.rcv.queue) >= 0
  {
    hide CbOk, HeldOk, SplitMessage, BytesOk, FragmentCount, AllFrags, PeekSize;
    ReceiverPart(y.cb);
    NextMessage(x, y);
    MessageReady(x.cb.cfg.mss, y.cb.rcv.queue, x.accepted[|y.delivered|]);
  }

  // ---- whole runs ----

  predicate EndsOk(s: Sys) {
    SysOk(s) && Stream(s.a, s.b) && Stream(s.b, s.a)
  }

  /** A step of x, seen by both directions. */
  lemma StepStream(x: Peer, y: Peer, e: Event)
    requires PeerOk(x) && PeerOk(y) && Direction(x, y) && Direction(y, x)
    requires Stream(x, y) && Stream(y, x)
    ensures var x' := PeerStep(x, y.out, e); Stream(x', y) && Stream(y, x')
  {
    hide CbOk, SentOk, ForthOk, BackOk, HeldOk, NothingLost, PlausibleNet, AfterSend, AfterUpdate, AfterDeliver, AfterRecv, BytesOk, MessagesOk;
    match e
    case SendEvent(data) => StreamSend(x, y, data);
    case UpdateEvent(now) => StreamUpdate(x, y, now);
    case DeliverEvent(k) =>
      if k < |y.out| {
        NetTrusted(x, y, y.out[k], {});
        StreamDeliver(x, y, y.out[k]);
      }
    case DeliverBlanked(k, blank) =>
      if k < |y.out| {
        NetTrusted(x, y, y.out[k], blank);
        StreamDeliver(x, y, Blanked(y.out[k], blank));
      }
    case RecvEvent(len) => StreamRecv(x, y, len);
  }

  lemma StreamSend(x: Peer, y: Peer, data: Bytes)
    requires Stream(x, y) && Stream(y, x)
    ensures var x' := AfterSend(x, data); Stream(x', y) && Stream(y, x')
  {
    hide Flat, Packed, Send, AllFrags;
    SendBytes(x, data);
    SendMessages(x, y, data);
  }

  lemma StreamRecv(x: Peer, y: Peer, len: int)
    requires CbOk(x.cb) && HeldOk(x.cb.rcv, y.log) && Stream(x, y) && Stream(y, x)
    ensures var x' := AfterRecv(x, len); Stream(x', y) && Stream(y, x')
  {
    hide CbOk, HeldOk, Flat, Packed, Recv, AllFrags;
    RecvBytes(y, x, len);
    RecvMessages(y, x, len);
  }

  lemma InputTaken(x: Cb, d: seq<Packet>)
    requires CbOk(x) && forall p :: p in d ==> Plausible(p)
    ensures var x' := Input(Unbounded, x, d, 0);
      x'.cfg == x.cfg && x'.snd.queue == x.snd.queue && Taken(x'.rcv) == Taken(x.rcv)
  {
    hide CbOk, InputPackets, LargestAck, FinishInput;
    InputPacketsKeep(x, d);
    InputPacketsTaken(x, d);
    InputKeeps(x, d, 0);
    MssPositive(InputPackets(Unbounded, x, d));
    FinishFrame(InputPackets(Unbounded, x, d), x.snd.una, LargestAck(Unbounded, d));
  }

  lemma {:induction false} InputPacketsTaken(x: Cb, d: seq<Packet>)
    requires CbOk(x) && forall p :: p in d ==> Plausible(p)
    ensures Taken(InputPackets(Unbounded, x, d).rcv) == Taken(x.rcv)
  {
    if |d| > 0 {
      hide CbOk, InputPacket;
      var n := |d| - 1;
      InputPacketsTaken(x, d[..n]);
      InputPacketsKeep(x, d[..n]);
      InputPacketTaken(InputPackets(Unbounded, x, d[..n]), d[n]);
    }
  }

  lemma InputPacketTaken(x: Cb, p: Packet)
    requires CbOk(x)
    ensures Taken(InputPacket(Unbounded, x, p).rcv) == Taken(x.rcv)
  {
    hide AcceptUna, AcceptAck, SampleRtt, AcceptPush;
    if p.cmd == CMD_PUSH {
      AcceptPushKeeps(x.cfg.rcvWnd, x.rcv, p.sn, p.ts, Frag(p.frg, p.data));
    }
  }

  lemma StreamDeliver(x: Peer, y: Peer, d: seq<Packet>)
    requires CbOk(x.cb) && Trusted(y, d)
    requires Stream(x, y) && Stream(y, x)
    ensures var x' := AfterDeliver(x, d); Stream(x', y) && Stream(y, x')
  {
    hide CbOk, Input, Flat, Packed, AllFrags;
    InputTaken(x.cb, d);
  }

  lemma StreamFlush(x: Peer, y: Peer)
    requires CbOk(x.cb) && x.cb.clk.updated && SentOk(x.cb.snd, x.log) && NothingLost(x.cb.snd, y.cb.rcv)
    requires Stream(x, y) && Stream(y, x)
    ensures var x' := AfterFlushing(x); Stream(x', y) && Stream(y, x')
  {
    hide CbOk, SentOk, NothingLost, Flat, Packed, AllFrags, FlushPackets, Numbered, SendLimit, ProbeStep, Chosen, LinkDead, SweptBuf, ToNumber;
    FlushLog(x, y);
  }

  lemma StreamUpdate(x: Peer, y: Peer, now: nat)
    requires CbOk(x.cb) && SentOk(x.cb.snd, x.log) && NothingLost(x.cb.snd, y.cb.rcv)
    requires Stream(x, y) && Stream(y, x)
    ensures var x' := AfterUpdate(x, now); Stream(x', y) && Stream(y, x')
  {
    hide SentOk, NothingLost, AfterFlushing, TimeDiff, Flat, Packed, AllFrags;
    var t := Advance(x.cb.cfg.interval, x.cb.clk, U32(now));
    var z := x.(cb := x.cb.(clk := t.clk));
    assert Stream(z, y) && Stream(y, z);
    if t.flush {
      assert CbOk(z.cb);
      StreamFlush(z, y);
    }
  }

  lemma NewStream(c: Config, d: Config)
    requires ConfigOk(c)
    ensures Stream(NewPeer(c), NewPeer(d))
  {
  }

  lemma {:induction false} RunEndsOk(ca: Config, cb: Config, steps: seq<Step>)
    requires ConfigOk(ca) && ConfigOk(cb)
    ensures EndsOk(Run(ca, cb, steps))
  {
    hide PeerOk, Direction, Stream, PeerStep;
    RunOk(ca, cb, steps);
    if |steps| == 0 {
      NewStream(ca, cb);
      NewStream(cb, ca);
    } else {
      var n := |steps| - 1;
      RunEndsOk(ca, cb, steps[..n]);
      var s := Run(ca, cb, steps[..n]);
      if steps[n].onA {
        StepStream(s.a, s.b, steps[n].event);
      } else {
        StepStream(s.b, s.a, steps[n].event);
      }
    }
  }

  // ---- the theorems ----

  lemma {:induction false} FlatPrefix(a: seq<Frag>, b: seq<Frag>)
    requires a <= b
    ensures Flat(a) <= Flat(b)
  {
    FlatAppend(a, b[|a|..]);
    assert b == a + b[|a|..];
  }

  /** Safety of message mode: in every run the messages received at each end are exactly a
      prefix, in order and byte for byte, of the messages accepted at the other. */
  lemma DeliveredIsPrefix(ca: Config, cb: Config, steps: seq<Step>)
    requires ConfigOk(ca) && ConfigOk(cb)
    ensures var s := Run(ca, cb, steps);
      && (!ca.stream ==> s.b.delivered <= s.a.accepted)
      && (!cb.stream ==> s.a.delivered <= s.b.accepted)
  {
    RunEndsOk(ca, cb, steps);
  }

  lemma BytesPrefix(x: Peer, y: Peer)
    requires BytesOk(x, y)
    ensures Joined(y.delivered) <= x.absorbed
  {
    var t := Taken(y.cb.rcv);
    assert x.log[..t] <= x.log + x.cb.snd.queue;
    FlatPrefix(x.log[..t], x.log + x.cb.snd.queue);
  }

  /** Safety of either mode, stream mode included: the bytes received are a prefix of the bytes
      taken in. */
  lemma DeliveredBytesArePrefix(ca: Config, cb: Config, steps: seq<Step>)
    requires ConfigOk(ca) && ConfigOk(cb)
    ensures var s := Run(ca, cb, steps);
      Joined(s.b.delivered) <= s.a.absorbed && Joined(s.a.delivered) <= s.b.absorbed
  {
    RunEndsOk(ca, cb, steps);
    var s := Run(ca, cb, steps);
    BytesPrefix(s.a, s.b);
    BytesPrefix(s.b, s.a);
  }

  /** Reassembly cannot deadlock: in every run a full rcv_queue makes ikcp_peeksize succeed, so
      the application can always make room. */
  lemma NoReassemblyDeadlock(ca: Config, cb: Config, steps: seq<Step>)
    requires ConfigOk(ca) && ConfigOk(cb) && !ca.stream
    ensures var s := Run(ca, cb, steps);
      |s.b.cb.rcv.queue| >= cb.rcvWnd ==> PeekSize(s.b.cb.rcv.queue) >= 0
  {
    RunEndsOk(ca, cb, steps);
    var s := Run(ca, cb, steps);
    if |s.b.cb.rcv.queue| >= cb.rcvWnd {
      FullQueueReadable(s.a, s.b);
    }
  }
}
