/** The loops of the engine on its linked lists: each walks next or prev pointers, deletes and
    moves segments on the way, and leaves what the functions on sequences say; and over any
    sequence of calls each segment is freed once. */
module SegmentQueues {
  import opened Numbers
  import opened Wire
  import opened SendWindow
  import opened ReceiveWindow
  import opened Fragments
  import opened IQueue

  // ---- walking a queue ----

  /** Queue i holds s, the others are as in before, and p is the segment at place k, or the head
      after the last one. */
  ghost predicate Walk(q: Queues, before: seq<seq<Node>>, i: nat, s: seq<Node>, k: nat, p: Node)
    reads q`lists
  {
    Now(q.lists, before, i, s) && i < |q.heads| && k <= |s| && p == At(q.heads[i], s, k + 1)
  }

  lemma WalkIs(q: Queues, before: seq<seq<Node>>, i: nat, s: seq<Node>, k: nat, p: Node)
    requires q.Valid() && Walk(q, before, i, s, k, p)
    ensures i < 4 && |q.heads| == 4 && Now(q.lists, before, i, s) && k <= |s|
    ensures p == q.heads[i] <==> k == |s|
    ensures k < |s| ==> p == s[k] && Entry(q.data, p) == p.seg
  {
    q.Sizes(i);
    assert q.lists[i] == s && Recorded(q.data, q.owned);
  }

  /** queue.next. */
  method StartWalk(q: Queues, i: nat) returns (p: Node)
    requires q.Valid() && i < 4
    ensures |q.lists| == 4 && Walk(q, q.lists, i, q.lists[i], 0, p)
  {
    q.Sizes(i);
    NowAtFirst(q.lists, i);
    var empty;
    empty, p := q.First(i);
  }

  /** p->next. */
  method WalkOn(q: Queues, i: nat, p: Node, ghost before: seq<seq<Node>>, ghost s: seq<Node>, ghost k: nat) returns (next: Node)
    requires q.Valid() && Walk(q, before, i, s, k, p) && k < |s|
    ensures Walk(q, before, i, s, k + 1, next)
  {
    q.Sizes(i);
    next := q.Next(i, p, k + 1);
  }

  /** Delete the segment at place k. */
  method DeleteAt(q: Queues, i: nat, p: Node, ghost before: seq<seq<Node>>, ghost s: seq<Node>, ghost k: nat)
    requires q.Valid() && Walk(q, before, i, s, k, p) && k < |s|
    modifies q, q.heads, q.owned
    ensures q.Valid() && Now(q.lists, before, i, s[..k] + s[k + 1..])
    ensures q.owned == old(q.owned) && q.data == old(q.data)
  {
    WalkIs(q, before, i, s, k, p);
    hide Sound;
    q.Free(i, p, k);
  }

  /** next = p->next; delete p; p = next, at the front. */
  method DeleteWalk(q: Queues, i: nat, p: Node, ghost before: seq<seq<Node>>, ghost s: seq<Node>) returns (next: Node)
    requires q.Valid() && Walk(q, before, i, s, 0, p) && |s| > 0
    modifies q, q.heads, q.owned
    ensures q.Valid() && Walk(q, before, i, s[1..], 0, next)
    ensures q.owned == old(q.owned) && q.data == old(q.data)
  {
    hide Sound, Now;
    next := WalkOn(q, i, p, before, s, 0);
    assert s[..0] + s[0 + 1..] == s[1..];
    DeleteAt(q, i, p, before, s, 0);
  }

  // ---- ikcp_parse_una ----

  /** Free from the front of snd_buf while una is beyond. */
  method ParseUnaList(q: Queues, una: nat) returns (ghost s: seq<Node>)
    requires q.Valid()
    modifies q, q.heads, q.owned
    ensures q.Valid() && Now(q.lists, old(q.lists), SND_BUF, s) && q.owned == old(q.owned) && q.data == old(q.data)
    ensures |old(q.lists)| == 4 && OutSegs(q.data, s) == ParseUna(Wrapped, OutSegs(q.data, old(q.lists)[SND_BUF]), una)
  {
    hide Diff, OutSegs, Walk, Now, Sound, ParseUna;
    var p := StartWalk(q, SND_BUF);
    ghost var before, data := q.lists, q.data;
    s := before[SND_BUF];
    WalkIs(q, before, SND_BUF, s, 0, p);
    while p != q.heads[SND_BUF]
      invariant q.Valid() && Walk(q, before, SND_BUF, s, 0, p) && q.owned == old(q.owned) && q.data == data
      invariant p == q.heads[SND_BUF] <==> |s| == 0
      invariant ParseUna(Wrapped, OutSegs(data, s), una) == ParseUna(Wrapped, OutSegs(data, before[SND_BUF]), una)
      decreases |s|
    {
      WalkIs(q, before, SND_BUF, s, 0, p);
      UnaStep(data, s, una);
      if Diff(Wrapped, una, p.seg.sn) <= 0 {
        return;
      }
      p := DeleteWalk(q, SND_BUF, p, before, s);
      s := s[1..];
      WalkIs(q, before, SND_BUF, s, 0, p);
    }
    WalkIs(q, before, SND_BUF, s, 0, p);
    UnaNone(data, s, una);
  }

  lemma UnaStep(data: Data, s: seq<Node>, una: nat)
    requires |s| > 0
    ensures var b := OutSegs(data, s);
      ParseUna(Wrapped, b, una) == if Diff(Wrapped, una, Entry(data, s[0]).sn) > 0 then ParseUna(Wrapped, OutSegs(data, s[1..]), una) else b
  {
    hide Diff;
    assert OutSegs(data, s)[1..] == OutSegs(data, s[1..]);
  }

  lemma UnaNone(data: Data, s: seq<Node>, una: nat)
    requires |s| == 0
    ensures ParseUna(Wrapped, OutSegs(data, s), una) == OutSegs(data, s)
  {
  }

  // ---- ikcp_parse_ack ----

  /** Walk snd_buf up to the acknowledged number, and free that segment. */
  method ParseAckList(q: Queues, una: nat, nxt: nat, sn: nat) returns (ghost s: seq<Node>)
    requires q.Valid()
    modifies q, q.heads, q.owned
    ensures q.Valid() && Now(q.lists, old(q.lists), SND_BUF, s) && q.owned == old(q.owned) && q.data == old(q.data)
    ensures |old(q.lists)| == 4
    ensures OutSegs(q.data, s) == ParseAck(Wrapped, Sender(una, nxt, [], OutSegs(q.data, old(q.lists)[SND_BUF])), sn).buf
  {
    hide Diff, OutSegs, Walk, Now, Sound, RemoveSn;
    var p := StartWalk(q, SND_BUF);
    ghost var before, data := q.lists, q.data;
    s := before[SND_BUF];
    ghost var buf := OutSegs(data, s);
    WalkIs(q, before, SND_BUF, s, 0, p);
    if Diff(Wrapped, sn, una) < 0 || Diff(Wrapped, sn, nxt) >= 0 {
      return;
    }
    ghost var k: nat := 0;
    assert buf[..0] + RemoveSn(Wrapped, buf[0..], sn) == RemoveSn(Wrapped, buf, sn) by { assert buf[0..] == buf; }
    while p != q.heads[SND_BUF]
      invariant q.Valid() && Walk(q, before, SND_BUF, s, k, p) && q.owned == old(q.owned) && q.data == data
      invariant p == q.heads[SND_BUF] <==> k == |s|
      invariant k <= |s| && buf[..k] + RemoveSn(Wrapped, buf[k..], sn) == RemoveSn(Wrapped, buf, sn)
      decreases |s| - k
    {
      WalkIs(q, before, SND_BUF, s, k, p);
      SegmentAt(data, s, k);
      RemoveStep(buf, k, sn);
      if sn == p.seg.sn {
        DeleteAt(q, SND_BUF, p, before, s, k);
        s := s[..k] + s[k + 1..];
        return;
      }
      if Diff(Wrapped, sn, p.seg.sn) < 0 {
        return;
      }
      p := WalkOn(q, SND_BUF, p, before, s, k);
      k := k + 1;
      WalkIs(q, before, SND_BUF, s, k, p);
    }
    WalkIs(q, before, SND_BUF, s, k, p);
    RemoveNone(sn);
    assert buf[k..] == [] && buf[..k] + [] == buf;
  }

  lemma SegmentAt(data: Data, s: seq<Node>, k: nat)
    requires k < |s|
    ensures OutSegs(data, s)[k] == Entry(data, s[k])
    ensures OutSegs(data, s[..k] + s[k + 1..]) == OutSegs(data, s)[..k] + OutSegs(data, s)[k + 1..]
  {
  }

  // ---- ikcp_recv ----

  /** Merge the next message; its segments are freed on the way unless it only looks. */
  method TakeList(q: Queues, peek: bool) returns (data: Bytes, ghost s: seq<Node>)
    requires q.Valid()
    modifies q, q.heads, q.owned
    ensures q.Valid() && Now(q.lists, old(q.lists), RCV_QUEUE, s) && q.owned == old(q.owned) && q.data == old(q.data)
    ensures |old(q.lists)| == 4
    ensures var t := old(q.lists)[RCV_QUEUE]; var c := Contents(q.data, t);
      data == Merge(c) && s == if peek then t else t[MessageEnd(c)..]
  {
    hide Contents, Walk, Now, Sound, Merge, MessageEnd;
    var p := StartWalk(q, RCV_QUEUE);
    ghost var before, record := q.lists, q.data;
    s := before[RCV_QUEUE];
    ghost var t, k, at: nat := s, 0, 0;
    data := [];
    var fragment := 1;
    WalkIs(q, before, RCV_QUEUE, s, 0, p);
    while p != q.heads[RCV_QUEUE] && fragment != 0
      invariant q.Valid() && Walk(q, before, RCV_QUEUE, s, at, p) && q.owned == old(q.owned) && q.data == record
      invariant k <= |t| && (if peek then s == t && at == k else s == t[k..] && at == 0)
      invariant p == q.heads[RCV_QUEUE] <==> k == |t|
      invariant var c := Contents(record, t[k..]);
        if fragment == 0 then data == Merge(Contents(record, t)) && k == MessageEnd(Contents(record, t))
        else data + Merge(c) == Merge(Contents(record, t)) && k + MessageEnd(c) == MessageEnd(Contents(record, t))
      decreases |t| - k
    {
      WalkIs(q, before, RCV_QUEUE, s, at, p);
      MergeOne(record, data, t, k);
      var first := p;
      data := data + first.seg.frag.data;
      fragment := first.seg.frag.frg;
      if peek {
        p := WalkOn(q, RCV_QUEUE, first, before, s, at);
        at := at + 1;
      } else {
        p := DeleteWalk(q, RCV_QUEUE, first, before, s);
        s := s[1..];
        assert t[k..][1..] == t[k + 1..];
      }
      k := k + 1;
      WalkIs(q, before, RCV_QUEUE, s, at, p);
    }
    WalkIs(q, before, RCV_QUEUE, s, at, p);
    MergeEnd(record, data, t, k);
  }

  lemma MergeOne(record: Data, data: Bytes, t: seq<Node>, k: nat)
    requires k < |t|
    ensures var c, f := Contents(record, t[k..]), Entry(record, t[k]).frag; var d := Contents(record, t[k + 1..]);
      && data + Merge(c) == (data + f.data) + (if f.frg == 0 then [] else Merge(d))
      && MessageEnd(c) == 1 + (if f.frg == 0 then 0 else MessageEnd(d))
  {
    var c := Contents(record, t[k..]);
    assert c[1..] == Contents(record, t[k + 1..]);
    MergeStep(data, c);
  }

  lemma MergeEnd(record: Data, data: Bytes, t: seq<Node>, k: nat)
    requires k <= |t|
    ensures t[0..] == t
    ensures k == |t| ==> Merge(Contents(record, t[k..])) == [] && MessageEnd(Contents(record, t[k..])) == 0 && data + [] == data
  {
  }

  // ---- moving segments from one queue to another ----

  /** Queue i holds s and queue j holds t; the others are as in before. */
  ghost predicate Both(q: Queues, before: seq<seq<Node>>, i: nat, s: seq<Node>, j: nat, t: seq<Node>)
    reads q`lists
  {
    |before| == 4 && i < 4 && j < 4 && i != j && q.lists == before[i := s][j := t]
  }

  lemma BothAtFirst(q: Queues, i: nat, j: nat)
    requires q.Valid() && i < 4 && j < 4 && i != j
    ensures |q.lists| == 4 && Both(q, q.lists, i, q.lists[i], j, q.lists[j])
  {
    q.Sizes(i);
  }

  method MoveFront(q: Queues, i: nat, j: nat, ghost before: seq<seq<Node>>, ghost s: seq<Node>, ghost t: seq<Node>) returns (node: Node)
    requires q.Valid() && Both(q, before, i, s, j, t) && |s| > 0
    modifies q, q.heads, q.owned
    ensures q.Valid() && Both(q, before, i, s[1..], j, t + [s[0]]) && q.owned == old(q.owned) && q.data == old(q.data)
    ensures node == s[0] && node in q.owned && node !in t && node !in s[1..]
  {
    Members(q, before, i, s, j, t);
    hide Sound;
    node := q.MoveFirst(i, j);
  }

  lemma Members(q: Queues, before: seq<seq<Node>>, i: nat, s: seq<Node>, j: nat, t: seq<Node>)
    requires q.Valid() && Both(q, before, i, s, j, t) && |s| > 0
    ensures q.lists[i] == s && q.lists[j] == t && s[0] in q.owned && s[0] !in t && s[0] !in s[1..]
  {
    assert Ring(q.heads[i], s);
    assert Distinct(q.heads[i], s) && s[0] in s && Separate(q.heads, q.lists);
  }

  /** The first segment of queue i, if any, and its number. */
  method Peek(q: Queues, ghost before: seq<seq<Node>>, i: nat, ghost s: seq<Node>, j: nat, ghost t: seq<Node>) returns (empty: bool, sn: nat)
    requires q.Valid() && Both(q, before, i, s, j, t)
    ensures empty <==> |s| == 0
    ensures !empty ==> sn == Entry(q.data, s[0]).sn
  {
    assert Ring(q.heads[i], s) && Recorded(q.data, q.owned) && q.lists[i] == s;
    var node;
    empty, node := q.First(i);
    sn := node.seg.sn;
  }

  // ---- the loop that ends ikcp_parse_data and ikcp_recv ----

  ghost function ReceiverOf(data: Data, nxt: nat, buf: seq<Node>, queue: seq<Node>): Receiver {
    Receiver(nxt, Contents(data, buf), Contents(data, queue), [])
  }

  /** Move segments in order from rcv_buf to rcv_queue while it has room. */
  method MoveUpList(q: Queues, nxt: nat, wnd: nat) returns (nxt': nat, ghost s: seq<Node>, ghost t: seq<Node>)
    requires q.Valid()
    modifies q, q.heads, q.owned
    ensures q.Valid() && Both(q, old(q.lists), RCV_BUF, s, RCV_QUEUE, t) && q.owned == old(q.owned) && q.data == old(q.data)
    ensures |old(q.lists)| == 4
    ensures ReceiverOf(q.data, nxt', s, t) == MoveReady(Wrapped, wnd, ReceiverOf(q.data, nxt, old(q.lists)[RCV_BUF], old(q.lists)[RCV_QUEUE]))
  {
    BothAtFirst(q, RCV_BUF, RCV_QUEUE);
    ghost var before, data := q.lists, q.data;
    s, t, nxt' := before[RCV_BUF], before[RCV_QUEUE], nxt;
    hide Both, Sound, ReceiverOf, MoveReady, U32;
    var moved := true;
    while moved
      invariant q.Valid() && Both(q, before, RCV_BUF, s, RCV_QUEUE, t) && q.owned == old(q.owned) && q.data == data
      invariant MoveReady(Wrapped, wnd, ReceiverOf(data, nxt', s, t)) == MoveReady(Wrapped, wnd, ReceiverOf(data, nxt, before[RCV_BUF], before[RCV_QUEUE]))
      invariant !moved ==> MoveReady(Wrapped, wnd, ReceiverOf(data, nxt', s, t)) == ReceiverOf(data, nxt', s, t)
      decreases |s|, moved
    {
      moved := MoveUpOne(q, before, s, t, nxt', wnd);
      if moved {
        s, t := s[1..], t + [s[0]];
        nxt' := U32(nxt' + 1);
      }
    }
  }

  /** One pass: the first segment of rcv_buf moves if it is next and rcv_queue has room. */
  method MoveUpOne(q: Queues, ghost before: seq<seq<Node>>, ghost s: seq<Node>, ghost t: seq<Node>, nxt: nat, wnd: nat) returns (moved: bool)
    requires q.Valid() && Both(q, before, RCV_BUF, s, RCV_QUEUE, t)
    modifies q, q.heads, q.owned
    ensures q.Valid() && q.owned == old(q.owned) && q.data == old(q.data)
    ensures var r := ReceiverOf(q.data, nxt, s, t);
      if moved then
        && |s| > 0 && Both(q, before, RCV_BUF, s[1..], RCV_QUEUE, t + [s[0]])
        && MoveReady(Wrapped, wnd, r) == MoveReady(Wrapped, wnd, ReceiverOf(q.data, U32(nxt + 1), s[1..], t + [s[0]]))
      else Both(q, before, RCV_BUF, s, RCV_QUEUE, t) && MoveReady(Wrapped, wnd, r) == r
  {
    hide Both, Sound, ReceiverOf, MoveReady, U32;
    var empty, sn := Peek(q, before, RCV_BUF, s, RCV_QUEUE, t);
    var room := CountOf(q, before, RCV_BUF, s, RCV_QUEUE, t);
    moved := !empty && sn == nxt && room < wnd;
    if empty {
      ReadyNone(q.data, wnd, nxt, s, t);
    } else {
      ReadyStep(q.data, wnd, nxt, s, t);
    }
    if moved {
      var _ := MoveFront(q, RCV_BUF, RCV_QUEUE, before, s, t);
    }
  }

  method CountOf(q: Queues, ghost before: seq<seq<Node>>, i: nat, ghost s: seq<Node>, j: nat, ghost t: seq<Node>) returns (n: nat)
    requires q.Valid() && Both(q, before, i, s, j, t)
    ensures n == |t|
  {
    q.Sizes(j);
    n := q.counts[j];
  }

  lemma ReadyStep(data: Data, wnd: nat, nxt: nat, s: seq<Node>, t: seq<Node>)
    requires |s| > 0
    ensures var r := ReceiverOf(data, nxt, s, t);
      MoveReady(Wrapped, wnd, r) == if Entry(data, s[0]).sn == nxt && |t| < wnd
        then MoveReady(Wrapped, wnd, ReceiverOf(data, U32(nxt + 1), s[1..], t + [s[0]])) else r
  {
    hide U32;
    assert Contents(data, s)[1..] == Contents(data, s[1..]);
    assert Contents(data, t + [s[0]]) == Contents(data, t) + [Contents(data, s)[0]];
  }

  lemma ReadyNone(data: Data, wnd: nat, nxt: nat, s: seq<Node>, t: seq<Node>)
    requires |s| == 0
    ensures MoveReady(Wrapped, wnd, ReceiverOf(data, nxt, s, t)) == ReceiverOf(data, nxt, s, t)
  {
  }

  // ---- the numbering loop of ikcp_flush ----

  ghost function SenderOf(data: Data, una: nat, nxt: nat, queue: seq<Node>, buf: seq<Node>): Sender {
    Sender(una, nxt, FragsOf(data, queue), OutSegs(data, buf))
  }

  /** Move fragments from snd_queue to snd_buf while the window has room, and number them. */
  method NumberList(q: Queues, una: nat, nxt: nat, cwnd: nat, rto: nat, now: nat) returns (nxt': nat, ghost s: seq<Node>, ghost t: seq<Node>)
    requires q.Valid()
    modifies q, q.heads, q.owned
    ensures q.Valid() && Both(q, old(q.lists), SND_QUEUE, s, SND_BUF, t) && q.owned == old(q.owned)
    ensures |old(q.lists)| == 4
    ensures SenderOf(q.data, una, nxt', s, t)
      == MoveToBuf(Wrapped, SenderOf(old(q.data), una, nxt, old(q.lists)[SND_QUEUE], old(q.lists)[SND_BUF]), cwnd, rto, now)
    ensures forall n :: n !in old(q.lists)[SND_QUEUE] ==> Entry(q.data, n) == Entry(old(q.data), n)
  {
    BothAtFirst(q, SND_QUEUE, SND_BUF);
    ghost var before := q.lists;
    s, t, nxt' := before[SND_QUEUE], before[SND_BUF], nxt;
    hide Both, Sound, SenderOf, MoveToBuf, U32, Diff, Plus;
    ghost var goal := MoveToBuf(Wrapped, SenderOf(q.data, una, nxt, s, t), cwnd, rto, now);
    while Diff(Wrapped, nxt', Plus(Wrapped, una, cwnd)) < 0
      invariant q.Valid() && Both(q, before, SND_QUEUE, s, SND_BUF, t) && q.owned == old(q.owned)
      invariant forall n :: n in s ==> n in before[SND_QUEUE]
      invariant forall n :: n !in before[SND_QUEUE] ==> Entry(q.data, n) == Entry(old(q.data), n)
      invariant MoveToBuf(Wrapped, SenderOf(q.data, una, nxt', s, t), cwnd, rto, now) == goal
      decreases |s|
    {
      var empty, _ := Peek(q, before, SND_QUEUE, s, SND_BUF, t);
      NumberNone(q.data, una, nxt', cwnd, rto, now, s, t);
      if empty {
        return;
      }
      NumberFront(q, before, una, nxt', cwnd, rto, now, s, t);
      s, t := s[1..], t + [s[0]];
      nxt' := Plus(Wrapped, nxt', 1);
    }
    NumberNone(q.data, una, nxt', cwnd, rto, now, s, t);
  }

  /** Move and number the first fragment. */
  method NumberFront(q: Queues, ghost before: seq<seq<Node>>, ghost una: nat, nxt: nat, ghost cwnd: nat, rto: nat, now: nat, ghost s: seq<Node>, ghost t: seq<Node>)
    requires q.Valid() && Both(q, before, SND_QUEUE, s, SND_BUF, t) && |s| > 0
    requires Diff(Wrapped, nxt, Plus(Wrapped, una, cwnd)) < 0
    modifies q, q.heads, q.owned
    ensures q.Valid() && Both(q, before, SND_QUEUE, s[1..], SND_BUF, t + [s[0]]) && q.owned == old(q.owned)
    ensures forall n :: n != s[0] ==> Entry(q.data, n) == Entry(old(q.data), n)
    ensures MoveToBuf(Wrapped, SenderOf(q.data, una, Plus(Wrapped, nxt, 1), s[1..], t + [s[0]]), cwnd, rto, now)
      == MoveToBuf(Wrapped, SenderOf(old(q.data), una, nxt, s, t), cwnd, rto, now)
  {
    hide Both, Sound, SenderOf, MoveToBuf, U32, Diff, Plus;
    ghost var data := q.data;
    var node := MoveFront(q, SND_QUEUE, SND_BUF, before, s, t);
    EntryIs(q, node);
    NumberOne(data, una, nxt, cwnd, rto, now, s, t);
    RewriteFront(q, node, before, SND_QUEUE, s[1..], SND_BUF, t + [s[0]], NewSegment(nxt, node.seg.frag, rto, now));
  }

  lemma EntryIs(q: Queues, node: Node)
    requires q.Valid() && node in q.owned
    ensures Entry(q.data, node) == node.seg
  {
    assert Recorded(q.data, q.owned);
  }

  method RewriteFront(q: Queues, node: Node, ghost before: seq<seq<Node>>, i: nat, ghost s: seq<Node>, j: nat, ghost t: seq<Node>, seg: OutSeg)
    requires q.Valid() && Both(q, before, i, s, j, t) && node in q.owned
    modifies q, q.owned
    ensures q.Valid() && Both(q, before, i, s, j, t) && q.owned == old(q.owned)
    ensures q.data == old(q.data)[node := seg]
  {
    hide Sound;
    q.Rewrite(node, seg);
  }

  /** Numbering the first of s, seen before its fields are written. */
  lemma NumberOne(data: Data, una: nat, nxt: nat, cwnd: nat, rto: nat, now: nat, s: seq<Node>, t: seq<Node>)
    requires |s| > 0 && s[0] !in t && s[0] !in s[1..] && Diff(Wrapped, nxt, Plus(Wrapped, una, cwnd)) < 0
    ensures var data' := data[s[0] := NewSegment(nxt, Entry(data, s[0]).frag, rto, now)];
      MoveToBuf(Wrapped, SenderOf(data', una, Plus(Wrapped, nxt, 1), s[1..], t + [s[0]]), cwnd, rto, now)
      == MoveToBuf(Wrapped, SenderOf(data, una, nxt, s, t), cwnd, rto, now)
  {
    hide Diff, Plus;
    var data' := data[s[0] := NewSegment(nxt, Entry(data, s[0]).frag, rto, now)];
    assert FragsOf(data, s)[1..] == FragsOf(data', s[1..]);
    assert OutSegs(data', t + [s[0]]) == OutSegs(data, t) + [NewSegment(nxt, FragsOf(data, s)[0], rto, now)];
  }

  lemma NumberNone(data: Data, una: nat, nxt: nat, cwnd: nat, rto: nat, now: nat, s: seq<Node>, t: seq<Node>)
    ensures |s| == 0 || Diff(Wrapped, nxt, Plus(Wrapped, una, cwnd)) >= 0 ==>
      MoveToBuf(Wrapped, SenderOf(data, una, nxt, s, t), cwnd, rto, now) == SenderOf(data, una, nxt, s, t)
  {
    hide Diff, Plus;
  }

  // ---- ikcp_send ----

  /** Segments of before still hold what they held. */
  ghost predicate Same(data: Data, data': Data, nodes: set<Node>) {
    forall n :: n in nodes ==> Entry(data', n) == Entry(data, n)
  }

  /** Allocate a fragment and append it to snd_queue. */
  method AppendFragment(q: Queues, ghost before: seq<seq<Node>>, ghost s: seq<Node>, frag: Frag) returns (node: Node)
    requires q.Valid() && Now(q.lists, before, SND_QUEUE, s)
    modifies q, q.heads, q.owned
    ensures q.Valid() && Now(q.lists, before, SND_QUEUE, s + [node])
    ensures fresh(node) && q.owned == old(q.owned) + {node} && q.freed == old(q.freed) && Same(old(q.data), q.data, old(q.owned))
    ensures FragsOf(q.data, s + [node]) == FragsOf(old(q.data), s) + [frag]
  {
    hide Sound, Held, Now, FragsOf, Same;
    node := NewFragment(q, before, s, frag);
    LinkFragment(q, before, s, node);
  }

  method NewFragment(q: Queues, ghost before: seq<seq<Node>>, ghost s: seq<Node>, frag: Frag) returns (node: Node)
    requires q.Valid() && Now(q.lists, before, SND_QUEUE, s)
    modifies q
    ensures q.Holding(node) && Now(q.lists, before, SND_QUEUE, s)
    ensures fresh(node) && q.owned == old(q.owned) + {node} && q.freed == old(q.freed) && Same(old(q.data), q.data, old(q.owned))
    ensures FragsOf(q.data, s + [node]) == FragsOf(old(q.data), s) + [frag]
  {
    q.Sizes(SND_QUEUE);
    ghost var data := q.data;
    hide Sound, Held;
    node := q.NewSegment(0, frag);
    assert forall n :: n in s ==> Entry(q.data, n) == Entry(data, n);
    assert FragsOf(q.data, s + [node]) == FragsOf(data, s) + [frag];
  }

  method LinkFragment(q: Queues, ghost before: seq<seq<Node>>, ghost s: seq<Node>, node: Node)
    requires q.Holding(node) && Now(q.lists, before, SND_QUEUE, s)
    modifies q, q.heads, q.owned
    ensures q.Valid() && Now(q.lists, before, SND_QUEUE, s + [node])
    ensures q.owned == old(q.owned) && q.freed == old(q.freed) && q.data == old(q.data)
  {
    hide Sound, Held;
    q.Link(SND_QUEUE, node);
  }

  /** Stream mode: a longer copy takes the place of the last queued segment, which is freed. */
  method ReplaceLast(q: Queues, ghost before: seq<seq<Node>>, ghost s: seq<Node>, last: Node, frag: Frag) returns (ghost t: seq<Node>)
    requires q.Valid() && Now(q.lists, before, SND_QUEUE, s) && |s| > 0 && last == s[|s| - 1]
    modifies q, q.heads, q.owned
    ensures q.Valid() && Now(q.lists, before, SND_QUEUE, t)
    ensures old(q.owned) <= q.owned && fresh(q.owned - old(q.owned)) && Same(old(q.data), q.data, old(q.owned))
    ensures FragsOf(q.data, t) == FragsOf(old(q.data), s)[..|s| - 1] + [frag]
  {
    ghost var n := |s| - 1;
    hide Sound, Same;
    var node := AppendFragment(q, before, s, frag);
    q.Free(SND_QUEUE, last, n);
    t := s[..n] + [node];
    assert (s + [node])[..n] + (s + [node])[n + 1..] == t;
    WithoutLast(q.data, s, node);
  }

  lemma WithoutLast(data: Data, s: seq<Node>, node: Node)
    requires |s| > 0
    ensures FragsOf(data, s[..|s| - 1] + [node]) == FragsOf(data, s + [node])[..|s| - 1] + [Entry(data, node).frag]
    ensures FragsOf(data, s + [node])[|s|] == Entry(data, node).frag
  {
  }

  /** Stream mode: lengthen the last queued segment; returns what is left to send. */
  method ExtendList(q: Queues, mss: nat, bytes: Bytes) returns (rest: Bytes, ghost s: seq<Node>)
    requires q.Valid()
    modifies q, q.heads, q.owned
    ensures q.Valid() && Now(q.lists, old(q.lists), SND_QUEUE, s)
    ensures old(q.owned) <= q.owned && fresh(q.owned - old(q.owned)) && Same(old(q.data), q.data, old(q.owned))
    ensures |old(q.lists)| == 4
    ensures var queue := FragsOf(old(q.data), old(q.lists)[SND_QUEUE]);
      FragsOf(q.data, s) == Extend(mss, queue, bytes) && rest == bytes[Min(|bytes|, Room(mss, queue))..]
  {
    NowAtFirst(q.lists, SND_QUEUE);
    ghost var before := q.lists;
    s, rest := before[SND_QUEUE], bytes;
    assert bytes[0..] == bytes;
    var empty, length, last := LastQueued(q, before, s);
    ExtendIs(mss, FragsOf(q.data, s), bytes);
    hide Sound, Now, Same, FragsOf, Entry, Extend, Room;
    SameAtFirst(q.data, q.owned);
    if !empty && length < mss {
      var capacity := mss - length;
      var extend := if |bytes| < capacity then |bytes| else capacity;
      s := ReplaceLast(q, before, s, last, Frag(0, last.seg.frag.data + bytes[..extend]));
      rest := bytes[extend..];
    }
  }

  lemma ExtendIs(mss: nat, queue: seq<Frag>, bytes: Bytes)
    ensures var n := |queue| - 1;
      if |queue| > 0 && |queue[n].data| < mss then
        var k := Min(|bytes|, mss - |queue[n].data|);
        && Extend(mss, queue, bytes) == queue[..n] + [Frag(0, queue[n].data + bytes[..k])]
        && Min(|bytes|, Room(mss, queue)) == k
      else Extend(mss, queue, bytes) == queue && Min(|bytes|, Room(mss, queue)) == 0
  {
  }

  lemma SameAtFirst(data: Data, nodes: set<Node>)
    ensures Same(data, data, nodes)
  {
  }

  method LastQueued(q: Queues, ghost before: seq<seq<Node>>, ghost s: seq<Node>) returns (empty: bool, length: nat, last: Node)
    requires q.Valid() && Now(q.lists, before, SND_QUEUE, s)
    ensures empty <==> |s| == 0
    ensures !empty ==> last == s[|s| - 1] && FragsOf(q.data, s)[|s| - 1] == last.seg.frag && length == |last.seg.frag.data|
  {
    q.Sizes(SND_QUEUE);
    assert Recorded(q.data, q.owned) && q.lists[SND_QUEUE] == s;
    last := q.Last(SND_QUEUE);
    assert |s| > 0 ==> s[|s| - 1] in s;
    empty, length := last == q.heads[SND_QUEUE], |last.seg.frag.data|;
  }

  /** The loop that cuts data into fragments. */
  method QueueList(q: Queues, mss: nat, stream: bool, bytes: Bytes, count: nat, ghost before: seq<seq<Node>>, ghost s0: seq<Node>) returns (ghost s: seq<Node>)
    requires q.Valid() && Now(q.lists, before, SND_QUEUE, s0)
    modifies q, q.heads, q.owned
    ensures q.Valid() && Now(q.lists, before, SND_QUEUE, s)
    ensures old(q.owned) <= q.owned && fresh(q.owned - old(q.owned)) && Same(old(q.data), q.data, old(q.owned))
    ensures FragsOf(q.data, s) == FragsOf(old(q.data), s0) + Split(mss, bytes, count, stream)
  {
    s := s0;
    hide Sound, Now, FragsOf, Entry;
    ghost var all := FragsOf(q.data, s0) + Split(mss, bytes, count, stream);
    var rest := bytes;
    SameAtFirst(q.data, q.owned);
    for i := 0 to count
      invariant q.Valid() && Now(q.lists, before, SND_QUEUE, s)
      invariant old(q.owned) <= q.owned && fresh(q.owned - old(q.owned)) && Same(old(q.data), q.data, old(q.owned))
      invariant FragsOf(q.data, s) + Split(mss, rest, count - i, stream) == all
    {
      var size := if |rest| > mss then mss else |rest|;
      var frag := Frag(if stream then 0 else count - i - 1, rest[..size]);
      SplitStep(FragsOf(q.data, s), mss, rest, count - i, stream);
      ghost var owned := q.owned;
      var node := AppendFragment(q, before, s, frag);
      s := s + [node];
      rest := rest[size..];
    }
    assert FragsOf(q.data, s) + [] == FragsOf(q.data, s);
  }

  lemma SplitStep(done: seq<Frag>, mss: nat, rest: Bytes, count: nat, stream: bool)
    requires count > 0
    ensures var size := if |rest| > mss then mss else |rest|;
      var frag := Frag(if stream then 0 else count - 1, rest[..size]);
      done + Split(mss, rest, count, stream) == (done + [frag]) + Split(mss, rest[size..], count - 1, stream)
  {
  }

  /** ikcp_send on the list: snd_queue and the code are those of Fragments.Send. */
  method SendList(q: Queues, mss: nat, stream: bool, bytes: Bytes) returns (code: int, ghost s: seq<Node>)
    requires q.Valid() && mss > 0
    modifies q, q.heads, q.owned
    ensures q.Valid() && Now(q.lists, old(q.lists), SND_QUEUE, s)
    ensures old(q.owned) <= q.owned && fresh(q.owned - old(q.owned)) && Same(old(q.data), q.data, old(q.owned))
    ensures |old(q.lists)| == 4
    ensures SendResult(code, FragsOf(q.data, s)) == Send(mss, stream, FragsOf(old(q.data), old(q.lists)[SND_QUEUE]), bytes)
  {
    NowAtFirst(q.lists, SND_QUEUE);
    ghost var before, owned, data := q.lists, q.owned, q.data;
    s := before[SND_QUEUE];
    SendIs(mss, stream, FragsOf(data, s), bytes);
    hide Sound, Now, Same, FragsOf, Entry, Extend, Split, Room, Send, FragmentCount;
    SameAtFirst(data, owned);
    var rest := bytes;
    if stream {
      rest, s := ExtendList(q, mss, bytes);
      if |rest| == 0 {
        return 0, s;
      }
    }
    var count := CountList(mss, |rest|);
    if count >= WND_RCV {
      return -2, s;
    }
    ghost var data1, owned1 := q.data, q.owned;
    s := QueueList(q, mss, stream, rest, count, before, s);
    SameTwice(data, data1, q.data, owned, owned1);
    code := 0;
  }

  lemma SameTwice(a: Data, b: Data, c: Data, nodes: set<Node>, more: set<Node>)
    requires Same(a, b, nodes) && Same(b, c, more) && nodes <= more
    ensures Same(a, c, nodes)
  {
  }

  method CountList(mss: nat, len: nat) returns (count: nat)
    requires mss > 0
    ensures count == FragmentCount(mss, len)
  {
    CountExact(mss, len);
    count := if len <= mss then 1 else (len + mss - 1) / mss;
  }

  lemma SendIs(mss: nat, stream: bool, queue: seq<Frag>, bytes: Bytes)
    requires mss > 0
    ensures var queue' := if stream then Extend(mss, queue, bytes) else queue;
      var rest := if stream then bytes[Min(|bytes|, Room(mss, queue))..] else bytes;
      var count := FragmentCount(mss, |rest|);
      Send(mss, stream, queue, bytes) == if stream && |rest| == 0 then SendResult(0, queue')
        else if count >= WND_RCV then SendResult(-2, queue')
        else SendResult(0, queue' + Split(mss, rest, count, stream))
  {
  }

  // ---- ikcp_parse_data ----

  /** A received data segment on the lists: freed when outside the window or there already, else
      inserted in order; then segments move up. */
  method PushList(q: Queues, nxt: nat, wnd: nat, sn: nat, frag: Frag) returns (nxt': nat, node: Node, ghost s: seq<Node>, ghost t: seq<Node>)
    requires q.Valid()
    modifies q, q.heads, q.owned
    ensures q.Valid() && Both(q, old(q.lists), RCV_BUF, s, RCV_QUEUE, t)
    ensures fresh(node) && q.owned == old(q.owned) + {node} && Same(old(q.data), q.data, old(q.owned))
    ensures |old(q.lists)| == 4
    ensures ReceiverOf(q.data, nxt', s, t)
      == ParseData(Wrapped, wnd, ReceiverOf(old(q.data), nxt, old(q.lists)[RCV_BUF], old(q.lists)[RCV_QUEUE]), InSeg(sn, frag))
  {
    BothAtFirst(q, RCV_BUF, RCV_QUEUE);
    ghost var before := q.lists;
    s, t, nxt' := before[RCV_BUF], before[RCV_QUEUE], nxt;
    hide Sound, Held, Both, ReceiverOf, MoveReady, InsertSeg, Diff, Plus, Same;
    ghost var r := ReceiverOf(q.data, nxt, s, t);
    node := NewReceived(q, before, s, t, nxt, sn, frag);
    ParseDataIs(wnd, r, InSeg(sn, frag));
    ReceiverNumber(q.data, nxt, s, t);
    if Diff(Wrapped, sn, Plus(Wrapped, nxt, wnd)) >= 0 || Diff(Wrapped, sn, nxt) < 0 {
      DropReceived(q, node, before, s, t);
      return;
    }
    s := StoreOrDrop(q, node, before, s, t, nxt);
    nxt', s, t := MoveUpBoth(q, before, s, t, nxt, wnd);
  }

  lemma ReceiverNumber(data: Data, nxt: nat, s: seq<Node>, t: seq<Node>)
    ensures ReceiverOf(data, nxt, s, t).nxt == nxt
  {
  }

  lemma ParseDataIs(wnd: nat, r: Receiver, seg: InSeg)
    ensures ParseData(Wrapped, wnd, r, seg)
      == if Diff(Wrapped, seg.sn, Plus(Wrapped, r.nxt, wnd)) >= 0 || Diff(Wrapped, seg.sn, r.nxt) < 0 then r
         else MoveReady(Wrapped, wnd, r.(buf := InsertSeg(Wrapped, r.buf, seg)))
  {
  }

  /** ikcp_segment_new for received data. */
  method NewReceived(q: Queues, ghost before: seq<seq<Node>>, ghost s: seq<Node>, ghost t: seq<Node>, ghost nxt: nat, sn: nat, frag: Frag) returns (node: Node)
    requires q.Valid() && Both(q, before, RCV_BUF, s, RCV_QUEUE, t)
    modifies q
    ensures q.Holding(node) && Both(q, before, RCV_BUF, s, RCV_QUEUE, t) && fresh(node) && q.owned == old(q.owned) + {node}
    ensures Entry(q.data, node) == Fresh(sn, frag) && Same(old(q.data), q.data, old(q.owned))
    ensures ReceiverOf(q.data, nxt, s, t) == ReceiverOf(old(q.data), nxt, s, t)
  {
    q.Sizes(RCV_BUF);
    q.Sizes(RCV_QUEUE);
    ghost var data := q.data;
    assert q.lists[RCV_BUF] == s && q.lists[RCV_QUEUE] == t;
    hide Sound, Held;
    node := q.NewSegment(sn, frag);
    assert forall n :: n in s || n in t ==> Entry(q.data, n) == Entry(data, n);
    assert Contents(q.data, s) == Contents(data, s) && Contents(q.data, t) == Contents(data, t);
  }

  method DropReceived(q: Queues, node: Node, ghost before: seq<seq<Node>>, ghost s: seq<Node>, ghost t: seq<Node>)
    requires q.Holding(node) && Both(q, before, RCV_BUF, s, RCV_QUEUE, t)
    modifies q
    ensures q.Valid() && Both(q, before, RCV_BUF, s, RCV_QUEUE, t) && q.owned == old(q.owned) && q.data == old(q.data)
  {
    hide Sound, Held;
    q.Drop(node);
  }

  /** Insert the held segment into rcv_buf in order, or free it when its number is there. */
  method StoreOrDrop(q: Queues, node: Node, ghost before: seq<seq<Node>>, ghost s: seq<Node>, ghost t: seq<Node>, ghost nxt: nat) returns (ghost r: seq<Node>)
    requires q.Holding(node) && Both(q, before, RCV_BUF, s, RCV_QUEUE, t)
    modifies q, q.heads, q.owned
    ensures q.Valid() && Both(q, before, RCV_BUF, r, RCV_QUEUE, t) && q.owned == old(q.owned) && q.data == old(q.data)
    ensures var e := Entry(q.data, node); var rcv := ReceiverOf(q.data, nxt, s, t);
      ReceiverOf(q.data, nxt, r, t) == rcv.(buf := InsertSeg(Wrapped, rcv.buf, InSeg(e.sn, e.frag)))
  {
    hide Sound, Held, InsertSeg, Contents, Entry;
    var repeated, at;
    ghost var k;
    assert q.lists[RCV_BUF] == s;
    repeated, at, k := q.Place(node);
    if repeated {
      r := s;
      q.Drop(node);
    } else {
      r := s[..k] + [node] + s[k..];
      ContentsInserted(q.data, s, k, node);
      q.LinkAt(RCV_BUF, node, at, k);
    }
  }

  method MoveUpBoth(q: Queues, ghost before: seq<seq<Node>>, ghost s0: seq<Node>, ghost t0: seq<Node>, nxt: nat, wnd: nat)
    returns (nxt': nat, ghost s: seq<Node>, ghost t: seq<Node>)
    requires q.Valid() && Both(q, before, RCV_BUF, s0, RCV_QUEUE, t0)
    modifies q, q.heads, q.owned
    ensures q.Valid() && Both(q, before, RCV_BUF, s, RCV_QUEUE, t) && q.owned == old(q.owned) && q.data == old(q.data)
    ensures ReceiverOf(q.data, nxt', s, t) == MoveReady(Wrapped, wnd, ReceiverOf(q.data, nxt, s0, t0))
  {
    hide Sound, ReceiverOf, MoveReady;
    assert q.lists[RCV_BUF] == s0 && q.lists[RCV_QUEUE] == t0;
    nxt', s, t := MoveUpList(q, nxt, wnd);
  }

  // ---- any sequence of calls ----

  /** One pass over the queues, as the entry points make it, with whatever arguments. */
  datatype Op =
    | OpSend(mss: nat, stream: bool, bytes: Bytes)
    | OpNumber(una: nat, nxt: nat, cwnd: nat, rto: nat, now: nat)
    | OpUna(una: nat)
    | OpAck(una: nat, nxt: nat, sn: nat)
    | OpPush(nxt: nat, wnd: nat, sn: nat, frag: Frag)
    | OpRecv(peek: bool, nxt: nat, wnd: nat)

  method Perform(q: Queues, op: Op)
    requires q.Valid()
    modifies q, q.heads, q.owned
    ensures q.Valid() && old(q.owned) <= q.owned && fresh(q.owned - old(q.owned))
  {
    hide Sound, Now, Both, Same;
    match op
    case OpSend(mss, stream, bytes) =>
      if mss > 0 {
        var code;
        ghost var s;
        code, s := SendList(q, mss, stream, bytes);
      }
    case OpNumber(una, nxt, cwnd, rto, now) =>
      var nxt';
      ghost var s, t;
      nxt', s, t := NumberList(q, una, nxt, cwnd, rto, now);
    case OpUna(una) =>
      ghost var s := ParseUnaList(q, una);
    case OpAck(una, nxt, sn) =>
      ghost var s := ParseAckList(q, una, nxt, sn);
    case OpPush(nxt, wnd, sn, frag) =>
      var nxt', node;
      ghost var s, t;
      nxt', node, s, t := PushList(q, nxt, wnd, sn, frag);
    case OpRecv(peek, nxt, wnd) =>
      var data, nxt';
      ghost var s, t;
      data, s := TakeList(q, peek);
      nxt', s, t := MoveUpList(q, nxt, wnd);
  }

  /** From creation, over any calls, to ikcp_release: every segment ever allocated has been freed,
      by exactly one call of ikcp_segment_delete each, and no queue holds any. */
  method Lifetime(ops: seq<Op>) returns (q: Queues)
    ensures fresh(q) && q.Valid() && q.lists == [[], [], [], []]
    ensures q.freed == q.owned && q.deletions == |q.owned|
  {
    q := new Queues();
    for i := 0 to |ops|
      invariant q.Valid() && fresh(q) && fresh(q.heads) && fresh(q.owned)
    {
      Perform(q, ops[i]);
    }
    q.Release();
  }
}
