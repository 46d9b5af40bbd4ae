/** Messages: ikcp_send cuts them into fragments, ikcp_peeksize and ikcp_recv put them
    together again. */
module Fragments {
  import opened Numbers
  import opened Wire
  import opened SendWindow
  import opened ReceiveWindow

  const WND_RCV: nat := 128

  type Message = Bytes

  // ---- ikcp_send ----

  function FragmentCount(mss: nat, len: nat): nat
    requires mss > 0
  {
    if len <= mss then 1 else (len + mss - 1) / mss
  }

  /** count fragments of at most mss bytes; outside stream mode each carries the number of
      those that follow it. */
  function Split(mss: nat, data: Bytes, count: nat, stream: bool): (r: seq<Frag>)
    ensures |r| == count
  {
    if count == 0 then []
    else
      var size := Min(|data|, mss);
      [Frag(if stream then 0 else count - 1, data[..size])] + Split(mss, data[size..], count - 1, stream)
  }

  function SplitMessage(mss: nat, data: Bytes): seq<Frag>
    requires mss > 0
  {
    Split(mss, data, FragmentCount(mss, |data|), false)
  }

  /** The bytes that fit into the last queued fragment. */
  function Room(mss: nat, queue: seq<Frag>): nat {
    if |queue| > 0 && |queue[|queue| - 1].data| < mss then mss - |queue[|queue| - 1].data| else 0
  }

  /** Stream mode replaces the last queued fragment by a longer one. */
  function Extend(mss: nat, queue: seq<Frag>, data: Bytes): seq<Frag> {
    var n := |queue| - 1;
    if |queue| > 0 && |queue[n].data| < mss then
      queue[..n] + [Frag(0, queue[n].data + data[..Min(|data|, Room(mss, queue))])]
    else queue
  }

  datatype SendResult = SendResult(code: int, queue: seq<Frag>)

  function Send(mss: nat, stream: bool, queue: seq<Frag>, data: Bytes): SendResult
    requires mss > 0
  {
    var queue' := if stream then Extend(mss, queue, data) else queue;
    var rest := if stream then data[Min(|data|, Room(mss, queue))..] else data;
    if stream && |rest| == 0 then SendResult(0, queue')
    else
      var count := FragmentCount(mss, |rest|);
      if count >= WND_RCV then SendResult(-2, queue')
      else SendResult(0, queue' + Split(mss, rest, count, stream))
  }

  // ---- ikcp_peeksize and ikcp_recv ----

  /** The segments the merging loop consumes: up to the first that ends a message. */
  function MessageEnd(queue: seq<InSeg>): (k: nat)
    ensures k <= |queue|
  {
    if |queue| == 0 then 0
    else if queue[0].frag.frg == 0 then 1
    else 1 + MessageEnd(queue[1..])
  }

  function Merge(queue: seq<InSeg>): Bytes {
    if |queue| == 0 then []
    else queue[0].frag.data + if queue[0].frag.frg == 0 then [] else Merge(queue[1..])
  }

  function PeekLength(queue: seq<InSeg>): nat {
    if |queue| == 0 then 0
    else |queue[0].frag.data| + if queue[0].frag.frg == 0 then 0 else PeekLength(queue[1..])
  }

  function PeekSize(queue: seq<InSeg>): int {
    if |queue| == 0 then -1
    else if queue[0].frag.frg == 0 then |queue[0].frag.data|
    else if |queue| < queue[0].frag.frg + 1 then -1
    else PeekLength(queue)
  }

  datatype RecvResult = RecvResult(code: int, data: Bytes, rcv: Receiver, tell: bool)

  /** ikcp_recv; a negative len only looks. */
  function Recv(m: Numbering, wnd: nat, r: Receiver, tell: bool, len: int): RecvResult {
    var peek := PeekSize(r.queue);
    if |r.queue| == 0 then RecvResult(-1, [], r, tell)
    else if peek < 0 then RecvResult(-2, [], r, tell)
    else if peek > (if len < 0 then -len else len) then RecvResult(-3, [], r, tell)
    else
      var data := Merge(r.queue);
      var r' := Take(m, wnd, r, if len < 0 then 0 else MessageEnd(r.queue));
      RecvResult(|data|, data, r', tell || (|r.queue| >= wnd && |r'.queue| < wnd))
  }

  // ---- the assertion in ikcp_recv ----

  /** len == peeksize holds for any queue contents, however malformed. */
  lemma {:induction false} MergeLength(queue: seq<InSeg>)
    ensures |Merge(queue)| == PeekLength(queue)
    ensures PeekSize(queue) >= 0 ==> PeekSize(queue) == |Merge(queue)|
  {
    if |queue| > 0 && queue[0].frag.frg != 0 {
      MergeLength(queue[1..]);
    }
  }

  // ---- splitting keeps the bytes ----

  function Flat(fs: seq<Frag>): Bytes {
    if |fs| == 0 then [] else Flat(fs[..|fs| - 1]) + fs[|fs| - 1].data
  }

  lemma {:induction false} FlatAppend(a: seq<Frag>, b: seq<Frag>)
    ensures Flat(a + b) == Flat(a) + Flat(b)
  {
    if |b| == 0 {
      assert a + b == a;
    } else {
      var n := |b| - 1;
      assert (a + b)[..|a + b| - 1] == a + b[..n];
      assert (a + b)[|a + b| - 1] == b[n];
      FlatAppend(a, b[..n]);
      assert (Flat(a) + Flat(b[..n])) + b[n].data == Flat(a) + (Flat(b[..n]) + b[n].data);
    }
  }

  lemma FlatOne(f: Frag)
    ensures Flat([f]) == f.data
  {
    assert [f][..0] == [];
  }

  /** The bytes that count fragments can hold. */
  function Capacity(mss: nat, count: nat): nat {
    if count == 0 then 0 else mss + Capacity(mss, count - 1)
  }

  lemma {:induction false} CapacityProduct(mss: nat, count: nat)
    ensures Capacity(mss, count) == count * mss
  {
    if count > 0 {
      CapacityProduct(mss, count - 1);
      assert count * mss == (count - 1) * mss + mss;
    }
  }

  lemma RoundUp(mss: nat, len: nat)
    requires 0 < mss < len
    ensures var n := (len + mss - 1) / mss; n > 1 && (n - 1) * mss < len <= n * mss
  {
    var n := (len + mss - 1) / mss;
    var r := (len + mss - 1) % mss;
    assert len + mss - 1 == n * mss + r;
    assert (n - 1) * mss == n * mss - mss;
    assert n > 1;
  }

  /** The count ikcp_send computes is the least number of fragments that hold the data. */
  lemma CountExact(mss: nat, len: nat)
    requires mss > 0
    ensures var n := FragmentCount(mss, len);
      n >= 1 && len <= Capacity(mss, n) && (n > 1 ==> Capacity(mss, n - 1) < len)
  {
    if len > mss {
      RoundUp(mss, len);
      var n := (len + mss - 1) / mss;
      CapacityProduct(mss, n);
      CapacityProduct(mss, n - 1);
    }
  }

  lemma {:induction false} SplitFlat(mss: nat, data: Bytes, count: nat, stream: bool)
    requires |data| <= Capacity(mss, count)
    ensures Flat(Split(mss, data, count, stream)) == data
  {
    if count > 0 {
      var size := Min(|data|, mss);
      var fs := Split(mss, data, count, stream);
      SplitFlat(mss, data[size..], count - 1, stream);
      FlatAppend([fs[0]], fs[1..]);
      FlatOne(fs[0]);
      assert fs == [fs[0]] + fs[1..];
      assert data == data[..size] + data[size..];
    }
  }

  lemma {:induction false} SplitSizes(mss: nat, data: Bytes, count: nat, stream: bool)
    ensures forall i :: 0 <= i < count ==> |Split(mss, data, count, stream)[i].data| <= mss
  {
    if count > 0 {
      SplitSizes(mss, data[Min(|data|, mss)..], count - 1, stream);
    }
  }

  lemma {:induction false} SplitFrg(mss: nat, data: Bytes, count: nat, stream: bool)
    ensures forall i :: 0 <= i < count ==>
      Split(mss, data, count, stream)[i].frg == if stream then 0 else count - 1 - i
  {
    if count > 0 {
      SplitFrg(mss, data[Min(|data|, mss)..], count - 1, stream);
    }
  }

  /** In stream mode every fragment but the last is full. */
  lemma {:induction false} SplitFull(mss: nat, data: Bytes, count: nat)
    requires count > 1 ==> Capacity(mss, count - 1) < |data|
    ensures forall i :: 0 <= i < count - 1 ==> |Split(mss, data, count, true)[i].data| == mss
  {
    if count > 1 {
      SplitFull(mss, data[Min(|data|, mss)..], count - 1);
    }
  }

  // ---- message mode: receive undoes send ----

  function Frags(queue: seq<InSeg>): (r: seq<Frag>)
    ensures |r| == |queue|
  {
    seq(|queue|, i requires 0 <= i < |queue| => queue[i].frag)
  }

  /** A queue that starts with all fragments of a message yields that message. */
  lemma {:induction false} MergeSplit(mss: nat, queue: seq<InSeg>, data: Bytes, count: nat)
    requires 0 < count <= |queue| && |data| <= Capacity(mss, count)
    requires Frags(queue)[..count] == Split(mss, data, count, false)
    ensures MessageEnd(queue) == count && Merge(queue) == data
  {
    var size := Min(|data|, mss);
    assert Frags(queue)[..count][0] == queue[0].frag;
    if count > 1 {
      assert Frags(queue[1..]) == Frags(queue)[1..];
      assert Frags(queue)[1..][..count - 1] == Frags(queue)[..count][1..];
      MergeSplit(mss, queue[1..], data[size..], count - 1);
      assert data == data[..size] + data[size..];
    }
  }

  /** ikcp_peeksize succeeds on the start of a message exactly when all of it is there. */
  lemma MessageReady(mss: nat, queue: seq<InSeg>, data: Bytes)
    requires mss > 0 && |queue| > 0
    requires queue[0].frag == SplitMessage(mss, data)[0]
    ensures PeekSize(queue) >= 0 <==> |queue| >= FragmentCount(mss, |data|)
  {
    SplitFrg(mss, data, FragmentCount(mss, |data|), false);
  }

  /** ikcp_recv then returns the message and takes its fragments only. */
  lemma MessageWhole(mss: nat, queue: seq<InSeg>, data: Bytes)
    requires mss > 0
    requires SplitMessage(mss, data) <= Frags(queue)
    ensures PeekSize(queue) == |data| && Merge(queue) == data
    ensures MessageEnd(queue) == FragmentCount(mss, |data|)
  {
    var count := FragmentCount(mss, |data|);
    CountExact(mss, |data|);
    MergeSplit(mss, queue, data, count);
    assert queue[0].frag == Frags(queue)[0];
    MessageReady(mss, queue, data);
    MergeLength(queue);
  }

  /** In message mode a send is all or nothing, and refused only for 128 or more fragments. */
  lemma SendMessage(mss: nat, queue: seq<Frag>, data: Bytes)
    requires mss > 0
    ensures var r := Send(mss, false, queue, data);
      && (r.code == 0 <==> FragmentCount(mss, |data|) < WND_RCV)
      && (r.code == 0 ==> r.queue == queue + SplitMessage(mss, data) && Flat(r.queue) == Flat(queue) + data)
      && (r.code != 0 ==> r.code == -2 && r.queue == queue)
  {
    CountExact(mss, |data|);
    SplitFlat(mss, data, FragmentCount(mss, |data|), false);
    FlatAppend(queue, SplitMessage(mss, data));
  }

  // ---- stream mode ----

  /** Every queued segment is a message of its own; all but the last are full, and none is
      over-full. */
  predicate Packed(mss: nat, queue: seq<Frag>) {
    && (forall i :: 0 <= i < |queue| ==> |queue[i].data| <= mss && queue[i].frg == 0)
    && (forall i :: 0 <= i < |queue| - 1 ==> |queue[i].data| == mss)
  }

  lemma ExtendStream(mss: nat, queue: seq<Frag>, data: Bytes)
    requires Packed(mss, queue)
    ensures var k := Min(|data|, Room(mss, queue));
      && k <= |data|
      && Packed(mss, Extend(mss, queue, data))
      && Flat(Extend(mss, queue, data)) == Flat(queue) + data[..k]
      && (k < |data| ==> forall i :: 0 <= i < |queue| ==> |Extend(mss, queue, data)[i].data| == mss)
      && |Extend(mss, queue, data)| == |queue|
  {
    if Room(mss, queue) > 0 {
      var n := |queue| - 1;
      var q := Extend(mss, queue, data);
      assert q[..n] == queue[..n];
    } else {
      assert data[..0] == [];
    }
  }

  lemma AppendStream(mss: nat, queue: seq<Frag>, data: Bytes)
    requires mss > 0 && Packed(mss, queue)
    requires forall i :: 0 <= i < |queue| ==> |queue[i].data| == mss
    ensures var q := queue + Split(mss, data, FragmentCount(mss, |data|), true);
      Packed(mss, q) && Flat(q) == Flat(queue) + data
  {
    var count := FragmentCount(mss, |data|);
    var fs := Split(mss, data, count, true);
    CountExact(mss, |data|);
    SplitFlat(mss, data, count, true);
    SplitFull(mss, data, count);
    SplitSizes(mss, data, count, true);
    SplitFrg(mss, data, count, true);
    FlatAppend(queue, fs);
  }

  /** The three outcomes of a stream send. */
  lemma StreamOutcome(mss: nat, queue: seq<Frag>, data: Bytes)
    requires mss > 0
    ensures var r, k := Send(mss, true, queue, data), Min(|data|, Room(mss, queue));
      var queue', count := Extend(mss, queue, data), FragmentCount(mss, |data| - k);
      r == if k == |data| then SendResult(0, queue')
           else if count >= WND_RCV then SendResult(-2, queue')
           else SendResult(0, queue' + Split(mss, data[k..], count, true))
  {
    hide Extend, Split, FragmentCount, Room;
  }

  /** What does not fit into the last segment follows in full segments. */
  lemma StreamSplit(mss: nat, queue: seq<Frag>, data: Bytes)
    requires mss > 0 && Packed(mss, queue) && Room(mss, queue) < |data|
    ensures var k := Room(mss, queue);
      var q := Extend(mss, queue, data) + Split(mss, data[k..], FragmentCount(mss, |data| - k), true);
      Packed(mss, q) && Flat(q) == Flat(queue) + data
  {
    hide Split, FragmentCount, Packed, Flat, Room;
    var k := Room(mss, queue);
    ExtendStream(mss, queue, data);
    AppendStream(mss, Extend(mss, queue, data), data[k..]);
    StreamJoin(Flat(queue), data, k);
  }

  /** An accepted stream send appends exactly its bytes and keeps segments full; a refused
      one has still absorbed what fitted into the last segment. */
  lemma SendStream(mss: nat, queue: seq<Frag>, data: Bytes)
    requires mss > 0 && Packed(mss, queue)
    ensures var r := Send(mss, true, queue, data);
      && Packed(mss, r.queue)
      && (r.code == 0 ==> Flat(r.queue) == Flat(queue) + data)
      && (r.code != 0 ==> r.code == -2 && Flat(r.queue) == Flat(queue) + data[..Min(|data|, Room(mss, queue))])
      && (r.code == 0 <==> |data| <= Room(mss, queue) || FragmentCount(mss, |data| - Room(mss, queue)) < WND_RCV)
  {
    hide Send, Extend, Split, FragmentCount, Packed, Flat, Room;
    StreamOutcome(mss, queue, data);
    ExtendStream(mss, queue, data);
    if |data| <= Room(mss, queue) {
      assert data[..|data|] == data;
    } else {
      StreamSplit(mss, queue, data);
    }
  }

  lemma StreamJoin(a: Bytes, data: Bytes, k: nat)
    requires k <= |data|
    ensures (a + data[..k]) + data[k..] == a + data
  {
  }

  /** Hence a refused send leaves the queued bytes alone if and only if the last segment had
      no room (or there is nothing to absorb). */
  lemma RefusedSendUnchanged(mss: nat, stream: bool, queue: seq<Frag>, data: Bytes)
    requires mss > 0 && Packed(mss, queue) && Send(mss, stream, queue, data).code != 0
    ensures Flat(Send(mss, stream, queue, data).queue) == Flat(queue) <==> !stream || Room(mss, queue) == 0
  {
    if stream {
      SendStream(mss, queue, data);
      var k := Min(|data|, Room(mss, queue));
      assert |Flat(queue) + data[..k]| == |Flat(queue)| + k;
      assert |data| > Room(mss, queue);
    }
  }

  // ---- one pass of the loop that merges fragments ----

  lemma MergeStep(data: Bytes, rest: seq<InSeg>)
    requires |rest| > 0
    ensures var f := rest[0].frag;
      && data + Merge(rest) == (data + f.data) + (if f.frg == 0 then [] else Merge(rest[1..]))
      && MessageEnd(rest) == 1 + (if f.frg == 0 then 0 else MessageEnd(rest[1..]))
  {
    var more := if rest[0].frag.frg == 0 then [] else Merge(rest[1..]);
    assert data + (rest[0].frag.data + more) == (data + rest[0].frag.data) + more;
  }

  lemma MergeNone(data: Bytes)
    ensures Merge([]) == [] && MessageEnd([]) == 0 && data + [] == data
  {
  }
}
