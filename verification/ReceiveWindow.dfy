/** The receiving half of the control block: the reorder buffer, the queue of segments ready
    for the application, and the acknowledgements still to be sent. */
module ReceiveWindow {
  import opened Numbers
  import opened SendWindow

  datatype InSeg = InSeg(sn: nat, frag: Frag)

  datatype Ack = Ack(sn: nat, ts: nat)

  datatype Receiver = Receiver(nxt: nat, buf: seq<InSeg>, queue: seq<InSeg>, acks: seq<Ack>)

  // ---- operations ----

  /** The walk from the tail of rcv_buf: a repeated number leaves the buffer alone. */
  function InsertSeg(m: Numbering, buf: seq<InSeg>, seg: InSeg): (r: seq<InSeg>)
    ensures |buf| <= |r| <= |buf| + 1
  {
    if |buf| == 0 then [seg]
    else
      var last := buf[|buf| - 1];
      if last.sn == seg.sn then buf
      else if Diff(m, seg.sn, last.sn) > 0 then buf + [seg]
      else InsertSeg(m, buf[..|buf| - 1], seg) + [last]
  }

  /** Move consecutive segments from rcv_buf to rcv_queue while the queue has room. */
  function MoveReady(m: Numbering, wnd: nat, r: Receiver): (r': Receiver)
    ensures r'.acks == r.acks
    decreases |r.buf|
  {
    if |r.buf| > 0 && r.buf[0].sn == r.nxt && |r.queue| < wnd then
      MoveReady(m, wnd, r.(nxt := Plus(m, r.nxt, 1), buf := r.buf[1..], queue := r.queue + [r.buf[0]]))
    else r
  }

  function ParseData(m: Numbering, wnd: nat, r: Receiver, seg: InSeg): Receiver {
    if Diff(m, seg.sn, Plus(m, r.nxt, wnd)) >= 0 || Diff(m, seg.sn, r.nxt) < 0 then r
    else MoveReady(m, wnd, r.(buf := InsertSeg(m, r.buf, seg)))
  }

  /** The whole reaction to a data segment: acknowledge everything below the end of the
      window, keep what is not old. */
  function AcceptPush(m: Numbering, wnd: nat, r: Receiver, sn: nat, ts: nat, frag: Frag): Receiver {
    if Diff(m, sn, Plus(m, r.nxt, wnd)) < 0 then
      var r' := r.(acks := r.acks + [Ack(sn, ts)]);
      if Diff(m, sn, r.nxt) >= 0 then ParseData(m, wnd, r', InSeg(sn, frag)) else r'
    else r
  }

  /** The application takes the first k segments; waiting ones move up. */
  function Take(m: Numbering, wnd: nat, r: Receiver, k: nat): Receiver
    requires k <= |r.queue|
  {
    MoveReady(m, wnd, r.(queue := r.queue[k..]))
  }

  // ---- the invariant, on unbounded numbers ----

  predicate Sorted(buf: seq<InSeg>) {
    forall i, j :: 0 <= i < j < |buf| ==> buf[i].sn < buf[j].sn
  }

  /** rcv_buf is strictly sorted within [nxt, nxt + wnd); rcv_queue holds the consecutive
      numbers that end at nxt - 1 and fits the window. */
  predicate Shape(r: Receiver, wnd: nat) {
    && Sorted(r.buf)
    && (forall i :: 0 <= i < |r.buf| ==> r.nxt <= r.buf[i].sn < r.nxt + wnd)
    && |r.queue| <= wnd
    && |r.queue| <= r.nxt
    && (forall i :: 0 <= i < |r.queue| ==> r.queue[i].sn == r.nxt - |r.queue| + i)
  }

  /** Moreover the next number waits in rcv_buf only while rcv_queue is full. */
  predicate ReceiverOk(r: Receiver, wnd: nat) {
    && Shape(r, wnd)
    && (|r.buf| > 0 && r.buf[0].sn == r.nxt ==> |r.queue| >= wnd)
  }

  predicate Waiting(buf: seq<InSeg>, sn: nat) {
    exists i :: 0 <= i < |buf| && buf[i].sn == sn
  }

  /** The segment has arrived: it was queued for the application or waits in rcv_buf. */
  predicate Received(r: Receiver, sn: nat) {
    sn < r.nxt || Waiting(r.buf, sn)
  }

  /** The number of segments the application has taken so far. */
  function Taken(r: Receiver): int { r.nxt - |r.queue| }

  /** Both counters stay within the window: distinct numbers in a range of wnd. */
  lemma {:induction false} BufFits(buf: seq<InSeg>, lo: int, wnd: nat)
    requires Sorted(buf)
    requires forall i :: 0 <= i < |buf| ==> lo <= buf[i].sn < lo + wnd
    ensures |buf| <= wnd
    decreases wnd
  {
    if |buf| > 0 {
      BufFits(buf[..|buf| - 1], lo, buf[|buf| - 1].sn - lo);
    }
  }

  /** The number of buffered segments numbered below sn. */
  function Below(buf: seq<InSeg>, sn: nat): (k: nat)
    ensures k <= |buf|
    ensures k > 0 ==> buf[k - 1].sn < sn
  {
    if |buf| > 0 && buf[|buf| - 1].sn >= sn then Below(buf[..|buf| - 1], sn) else |buf|
  }

  lemma {:induction false} BelowSplits(buf: seq<InSeg>, sn: nat)
    requires Sorted(buf)
    ensures forall i :: 0 <= i < |buf| ==> (buf[i].sn < sn <==> i < Below(buf, sn))
  {
    if |buf| > 0 && buf[|buf| - 1].sn >= sn {
      BelowSplits(buf[..|buf| - 1], sn);
    }
  }

  function InsertAt(buf: seq<InSeg>, k: nat, seg: InSeg): seq<InSeg>
    requires k <= |buf|
  {
    buf[..k] + [seg] + buf[k..]
  }

  lemma InsertLast(buf: seq<InSeg>, seg: InSeg)
    requires |buf| > 0 && seg.sn < buf[|buf| - 1].sn
    ensures InsertSeg(Unbounded, buf, seg) == InsertSeg(Unbounded, buf[..|buf| - 1], seg) + [buf[|buf| - 1]]
  {
  }

  /** A repeated number leaves the buffer alone. */
  lemma {:induction false} InsertRepeated(buf: seq<InSeg>, seg: InSeg, i: nat)
    requires Sorted(buf)
    requires i < |buf| && buf[i].sn == seg.sn
    ensures InsertSeg(Unbounded, buf, seg) == buf
  {
    var n := |buf| - 1;
    if i < n {
      assert buf[i].sn < buf[n].sn;
      InsertRepeated(buf[..n], seg, i);
      hide InsertSeg, Sorted;
      InsertLast(buf, seg);
      assert buf == buf[..n] + [buf[n]];
    }
  }

  /** The walk from the tail finds the place a sorted buffer has for a new number. */
  lemma {:induction false} InsertNew(buf: seq<InSeg>, seg: InSeg)
    requires Sorted(buf)
    requires forall i :: 0 <= i < |buf| ==> buf[i].sn != seg.sn
    ensures InsertSeg(Unbounded, buf, seg) == InsertAt(buf, Below(buf, seg.sn), seg)
  {
    var n := |buf| - 1;
    if n >= 0 && buf[n].sn > seg.sn {
      var front := buf[..n];
      InsertNew(front, seg);
      InsertAtFront(buf, Below(front, seg.sn), seg);
    } else {
      assert buf[..|buf|] == buf && buf[|buf|..] == [];
    }
  }

  lemma InsertAtFront(buf: seq<InSeg>, k: nat, seg: InSeg)
    requires k < |buf|
    ensures InsertAt(buf[..|buf| - 1], k, seg) + [buf[|buf| - 1]] == InsertAt(buf, k, seg)
  {
    var n := |buf| - 1;
    var front := buf[..n];
    assert buf[..k] == front[..k];
    assert buf[k..] == front[k..] + [buf[n]];
  }

  lemma InsertAtSorted(buf: seq<InSeg>, k: nat, seg: InSeg)
    requires Sorted(buf) && k <= |buf|
    requires forall i :: 0 <= i < |buf| ==> if i < k then buf[i].sn < seg.sn else seg.sn < buf[i].sn
    ensures Sorted(InsertAt(buf, k, seg))
  {
    var r := InsertAt(buf, k, seg);
    forall i, j | 0 <= i < j < |r| ensures r[i].sn < r[j].sn {
      assert r[i] == if i < k then buf[i] else if i == k then seg else buf[i - 1];
      assert r[j] == if j < k then buf[j] else if j == k then seg else buf[j - 1];
    }
  }

  lemma InsertAtMembers(buf: seq<InSeg>, k: nat, seg: InSeg)
    requires k <= |buf|
    ensures forall x :: x in InsertAt(buf, k, seg) <==> x in buf || x == seg
  {
    assert buf == buf[..k] + buf[k..];
  }

  /** A new number is inserted in order; a repeated one changes nothing. */
  lemma InsertKeeps(buf: seq<InSeg>, seg: InSeg)
    requires Sorted(buf)
    ensures var r := InsertSeg(Unbounded, buf, seg);
      && Sorted(r)
      && (Waiting(buf, seg.sn) ==> r == buf)
      && (!Waiting(buf, seg.sn) ==> forall x :: x in r <==> x in buf || x == seg)
  {
    if i :| 0 <= i < |buf| && buf[i].sn == seg.sn {
      InsertRepeated(buf, seg, i);
      assert Waiting(buf, seg.sn);
    } else {
      var k := Below(buf, seg.sn);
      InsertNew(buf, seg);
      BelowSplits(buf, seg.sn);
      InsertAtSorted(buf, k, seg);
      InsertAtMembers(buf, k, seg);
    }
  }

  lemma WaitingIn(buf: seq<InSeg>, sn: nat)
    ensures Waiting(buf, sn) <==> exists x :: x in buf && x.sn == sn
  {
    if x :| x in buf && x.sn == sn {
      var i :| 0 <= i < |buf| && buf[i] == x;
      assert buf[i].sn == sn;
    }
    if Waiting(buf, sn) {
      var i :| 0 <= i < |buf| && buf[i].sn == sn;
      assert buf[i] in buf;
    }
  }

  /** One pass of the loop that moves segments up. */
  function MoveOne(r: Receiver): Receiver
    requires |r.buf| > 0
  {
    r.(nxt := r.nxt + 1, buf := r.buf[1..], queue := r.queue + [r.buf[0]])
  }

  lemma MoveOneShape(wnd: nat, r: Receiver)
    requires Shape(r, wnd) && |r.buf| > 0 && r.buf[0].sn == r.nxt && |r.queue| < wnd
    ensures Shape(MoveOne(r), wnd)
  {
    var s := MoveOne(r);
    forall i | 0 <= i < |s.buf| ensures s.nxt <= s.buf[i].sn < s.nxt + wnd {
      assert s.buf[i] == r.buf[i + 1];
    }
  }

  lemma MoveOneReceived(r: Receiver, sn: nat)
    requires |r.buf| > 0 && r.buf[0].sn == r.nxt
    ensures Received(MoveOne(r), sn) <==> Received(r, sn)
  {
    var s := MoveOne(r);
    if Waiting(r.buf, sn) {
      var i :| 0 <= i < |r.buf| && r.buf[i].sn == sn;
      assert i > 0 ==> s.buf[i - 1].sn == sn;
    }
    if Waiting(s.buf, sn) {
      var i :| 0 <= i < |s.buf| && s.buf[i].sn == sn;
      assert r.buf[i + 1].sn == sn;
    }
  }

  /** Moving segments up keeps what has been received, takes nothing from the application's
      view, and stops only at a gap or at a full queue. */
  lemma {:induction false} MoveReadyKeeps(wnd: nat, r: Receiver)
    requires Shape(r, wnd)
    ensures var r' := MoveReady(Unbounded, wnd, r);
      && ReceiverOk(r', wnd)
      && r.nxt <= r'.nxt && Taken(r') == Taken(r) && r.queue <= r'.queue
      && r'.queue + r'.buf == r.queue + r.buf
    decreases |r.buf|
  {
    MoveReadyStep(wnd, r);
    hide Shape, MoveReady;
    if |r.buf| > 0 && r.buf[0].sn == r.nxt && |r.queue| < wnd {
      var s := MoveOne(r);
      MoveOneShape(wnd, r);
      MoveReadyKeeps(wnd, s);
      assert r.queue <= s.queue;
      assert s.queue + s.buf == r.queue + r.buf;
    }
  }

  lemma MoveReadyStep(wnd: nat, r: Receiver)
    ensures MoveReady(Unbounded, wnd, r)
      == if |r.buf| > 0 && r.buf[0].sn == r.nxt && |r.queue| < wnd then MoveReady(Unbounded, wnd, MoveOne(r)) else r
  {
  }

  lemma {:induction false} MoveReadyReceived(wnd: nat, r: Receiver, sn: nat)
    ensures Received(MoveReady(Unbounded, wnd, r), sn) <==> Received(r, sn)
    decreases |r.buf|
  {
    if |r.buf| > 0 && r.buf[0].sn == r.nxt && |r.queue| < wnd {
      MoveOneReceived(r, sn);
      MoveReadyReceived(wnd, MoveOne(r), sn);
    }
  }

  /** The state after inserting, before moving segments up. */
  lemma InsertShape(wnd: nat, r: Receiver, seg: InSeg)
    requires Shape(r, wnd) && r.nxt <= seg.sn < r.nxt + wnd
    ensures Shape(r.(buf := InsertSeg(Unbounded, r.buf, seg)), wnd)
  {
    var b := InsertSeg(Unbounded, r.buf, seg);
    InsertKeeps(r.buf, seg);
    forall i | 0 <= i < |b| ensures r.nxt <= b[i].sn < r.nxt + wnd {
      assert b[i] in b;
      assert b[i] in r.buf || b[i] == seg;
    }
  }

  lemma InsertReceived(r: Receiver, seg: InSeg, sn: nat)
    requires Sorted(r.buf)
    ensures Received(r.(buf := InsertSeg(Unbounded, r.buf, seg)), sn) <==> Received(r, sn) || sn == seg.sn
  {
    var b := InsertSeg(Unbounded, r.buf, seg);
    InsertKeeps(r.buf, seg);
    WaitingIn(r.buf, sn);
    WaitingIn(b, sn);
    if !Waiting(r.buf, seg.sn) {
      assert seg in b;
    }
  }

  /** The effect of a data segment with any number: it is acknowledged when below the end of
      the window, and held when inside it. */
  lemma AcceptPushKeeps(wnd: nat, r: Receiver, sn: nat, ts: nat, frag: Frag)
    requires ReceiverOk(r, wnd)
    ensures var r' := AcceptPush(Unbounded, wnd, r, sn, ts, frag);
      && ReceiverOk(r', wnd)
      && r.nxt <= r'.nxt && Taken(r') == Taken(r) && r.queue <= r'.queue
      && r'.acks == r.acks + (if sn < r.nxt + wnd then [Ack(sn, ts)] else [])
      && (forall x :: x in r'.queue + r'.buf ==> x in r.queue + r.buf || (x == InSeg(sn, frag) && r.nxt <= sn < r.nxt + wnd))
  {
    if r.nxt <= sn < r.nxt + wnd {
      var seg := InSeg(sn, frag);
      var s := r.(acks := r.acks + [Ack(sn, ts)], buf := InsertSeg(Unbounded, r.buf, seg));
      InsertShape(wnd, r, seg);
      assert Shape(s, wnd);
      MoveReadyKeeps(wnd, s);
      InsertKeeps(r.buf, seg);
      var r' := AcceptPush(Unbounded, wnd, r, sn, ts, frag);
      forall x | x in r'.queue + r'.buf ensures x in r.queue + r.buf || x == seg {
        assert x in s.queue + s.buf;
      }
    }
  }

  /** A segment counts as received from then on exactly when it was inside the window. */
  lemma AcceptPushReceived(wnd: nat, r: Receiver, sn: nat, ts: nat, frag: Frag, x: nat)
    requires ReceiverOk(r, wnd)
    ensures Received(AcceptPush(Unbounded, wnd, r, sn, ts, frag), x)
      <==> Received(r, x) || (x == sn && r.nxt <= sn < r.nxt + wnd)
  {
    if r.nxt <= sn < r.nxt + wnd {
      var r1 := r.(acks := r.acks + [Ack(sn, ts)]);
      InsertReceived(r1, InSeg(sn, frag), x);
      MoveReadyReceived(wnd, r1.(buf := InsertSeg(Unbounded, r.buf, InSeg(sn, frag))), x);
    }
  }

  lemma TakeKeeps(wnd: nat, r: Receiver, k: nat)
    requires ReceiverOk(r, wnd) && k <= |r.queue|
    ensures var r' := Take(Unbounded, wnd, r, k);
      && ReceiverOk(r', wnd)
      && r.nxt <= r'.nxt && Taken(r') == Taken(r) + k && r'.acks == r.acks
      && r.queue[k..] <= r'.queue
      && r.queue[k..] + r.buf == r'.queue + r'.buf
  {
    MoveReadyKeeps(wnd, r.(queue := r.queue[k..]));
  }

  lemma TakeReceived(wnd: nat, r: Receiver, k: nat, x: nat)
    requires k <= |r.queue|
    ensures Received(Take(Unbounded, wnd, r, k), x) <==> Received(r, x)
  {
    MoveReadyReceived(wnd, r.(queue := r.queue[k..]), x);
  }

  // ---- the wrapped machine follows the unbounded one ----

  function WrapIn(x: InSeg): InSeg { x.(sn := U32(x.sn)) }

  function WrapIns(b: seq<InSeg>): (r: seq<InSeg>)
    ensures |r| == |b|
  {
    seq(|b|, i requires 0 <= i < |b| => WrapIn(b[i]))
  }

  function WrapAcks(a: seq<Ack>): (r: seq<Ack>)
    ensures |r| == |a|
  {
    seq(|a|, i requires 0 <= i < |a| => a[i].(sn := U32(a[i].sn)))
  }

  function WrapReceiver(r: Receiver): Receiver {
    Receiver(U32(r.nxt), WrapIns(r.buf), WrapIns(r.queue), WrapAcks(r.acks))
  }

  lemma {:induction false} InsertWraps(buf: seq<InSeg>, seg: InSeg)
    requires forall i :: 0 <= i < |buf| ==> Near(seg.sn, buf[i].sn)
    ensures InsertSeg(Wrapped, WrapIns(buf), WrapIn(seg)) == WrapIns(InsertSeg(Unbounded, buf, seg))
  {
    if |buf| > 0 {
      var n := |buf| - 1;
      var last := buf[n];
      DiffWraps(seg.sn, last.sn);
      EqWraps(seg.sn, last.sn);
      InsertWraps(buf[..n], seg);
      assert WrapIns(buf)[..n] == WrapIns(buf[..n]);
    }
  }

  lemma {:induction false} MoveReadyWraps(wnd: nat, r: Receiver)
    requires wnd < TWO31
    requires Shape(r, wnd)
    ensures MoveReady(Wrapped, wnd, WrapReceiver(r)) == WrapReceiver(MoveReady(Unbounded, wnd, r))
    decreases |r.buf|
  {
    if |r.buf| > 0 {
      EqWraps(r.buf[0].sn, r.nxt);
      if r.buf[0].sn == r.nxt && |r.queue| < wnd {
        PlusWraps(r.nxt, 1);
        var s := MoveOne(r);
        MoveOneShape(wnd, r);
        MoveReadyWraps(wnd, s);
        assert WrapIns(r.buf)[1..] == WrapIns(s.buf);
        assert WrapIns(s.queue) == WrapIns(r.queue) + [WrapIn(r.buf[0])];
      }
    }
  }

  /** The tests of lines 689 and 827-829 agree for every number a packet can carry, given the
      representative nearest to the end of the window. */
  lemma AcceptPushWraps(wnd: nat, r: Receiver, sn: nat, ts: nat, frag: Frag)
    requires ReceiverOk(r, wnd) && wnd < TWO31 && Near(sn, r.nxt + wnd)
    ensures AcceptPush(Wrapped, wnd, WrapReceiver(r), U32(sn), ts, frag)
      == WrapReceiver(AcceptPush(Unbounded, wnd, r, sn, ts, frag))
  {
    var w := WrapReceiver(r);
    PlusWraps(r.nxt, wnd);
    DiffWraps(sn, r.nxt + wnd);
    if sn < r.nxt + wnd {
      assert WrapAcks(r.acks + [Ack(sn, ts)]) == w.acks + [Ack(U32(sn), ts)];
      DiffWraps(sn, r.nxt);
      if sn >= r.nxt {
        var seg := InSeg(sn, frag);
        InsertWraps(r.buf, seg);
        InsertShape(wnd, r, seg);
        var s := r.(acks := r.acks + [Ack(sn, ts)], buf := InsertSeg(Unbounded, r.buf, seg));
        MoveReadyWraps(wnd, s);
      }
    }
  }

  lemma TakeWraps(wnd: nat, r: Receiver, k: nat)
    requires ReceiverOk(r, wnd) && wnd < TWO31 && k <= |r.queue|
    ensures Take(Wrapped, wnd, WrapReceiver(r), k) == WrapReceiver(Take(Unbounded, wnd, r, k))
  {
    var s := r.(queue := r.queue[k..]);
    assert WrapIns(r.queue)[k..] == WrapIns(s.queue);
    MoveReadyWraps(wnd, s);
  }
}
