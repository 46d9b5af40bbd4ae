/** The intrusive circular doubly linked lists of ikcp.h: the pointer macros refine sequence
    operations, and no segment is lost or freed twice. */
module IQueue {
  import opened Numbers
  import opened SendWindow
  import opened ReceiveWindow

  /** A segment with its embedded queue node; list heads are nodes whose other fields are not
      used. */
  class Node {
    var next: Node?
    var prev: Node?
    var seg: OutSeg

    constructor (seg: OutSeg)
      ensures this.seg == seg
    {
      this.seg := seg;
      next, prev := null, null;
    }
  }

  /** A segment before it is numbered or sent. */
  function Fresh(sn: nat, frag: Frag): OutSeg { OutSeg(sn, frag, 0, 0, 0, 0) }

  /** Position i of the ring: the head at both ends, the members in between. */
  ghost function At(head: Node, s: seq<Node>, i: nat): Node
    requires i <= |s| + 1
  {
    if i == 0 || i == |s| + 1 then head else s[i - 1]
  }

  ghost predicate Distinct(head: Node, s: seq<Node>) {
    && head !in s
    && (forall i, j :: 0 <= i < j < |s| ==> s[i] != s[j])
  }

  ghost predicate Linked(head: Node, s: seq<Node>, i: nat)
    requires i <= |s|
    reads head`next, head`prev, s`next, s`prev
  {
    At(head, s, i).next == At(head, s, i + 1) && At(head, s, i + 1).prev == At(head, s, i)
  }

  /** The nodes reachable from head, forwards and backwards, are exactly s in order. */
  ghost predicate Ring(head: Node, s: seq<Node>)
    reads head`next, head`prev, s`next, s`prev
  {
    Distinct(head, s) && (forall i :: 0 <= i <= |s| ==> Linked(head, s, i))
  }

  ghost predicate Disjoint(h: Node, t: seq<Node>, head: Node, s: seq<Node>) {
    && h != head && h !in s && head !in t
    && (forall n :: n in t ==> n !in s)
  }

  // ---- the macros ----

  method Init(ptr: Node)
    modifies ptr`next, ptr`prev
    ensures Ring(ptr, [])
  {
    ptr.next := ptr;
    ptr.prev := ptr;
  }

  method NewHead() returns (head: Node)
    ensures fresh(head) && Ring(head, [])
  {
    head := new Node(Fresh(0, Frag(0, [])));
    Init(head);
  }

  method NewHeads() returns (all: seq<Node>)
    ensures |all| == 4 && fresh(all) && (forall q, r :: 0 <= q < r < 4 ==> all[q] != all[r])
    ensures forall q :: 0 <= q < 4 ==> Ring(all[q], [])
  {
    hide Ring;
    all := [];
    for i := 0 to 4
      invariant |all| == i && fresh(all)
      invariant forall q, r :: 0 <= q < r < i ==> all[q] != all[r]
      invariant forall q :: 0 <= q < i ==> Ring(all[q], [])
    {
      var head := NewHead();
      all := all + [head];
    }
  }

  /** IQUEUE_ADD: right after any node of the ring. */
  method Add(node: Node, at: Node, ghost head: Node, ghost s: seq<Node>, ghost k: nat)
    requires Ring(head, s) && k <= |s| && at == At(head, s, k)
    requires node != head && node !in s
    modifies node`next, node`prev, head`next, head`prev, s`next, s`prev
    ensures Ring(head, s[..k] + [node] + s[k..])
    ensures forall h: Node, t: seq<Node> :: old(allocated(h)) && old(allocated(t)) && old(Ring(h, t)) && Disjoint(h, t, head, s + [node]) ==> Ring(h, t)
  {
    assert Linked(head, s, k);
    var after := at.next;
    assert (at == head || at in s) && (after == head || after in s);
    node.prev, node.next := at, after;
    after.prev := node;
    at.next := node;
    assert node in s + [node];
    forall h: Node, t: seq<Node> | old(allocated(h)) && old(allocated(t)) && Disjoint(h, t, head, s + [node]) && old(Ring(h, t)) ensures Ring(h, t) {
      forall i | 0 <= i <= |t| ensures Linked(h, t, i) {
        assert old(Linked(h, t, i));
        assert (At(h, t, i) == h || At(h, t, i) in t) && At(h, t, i) != at;
      }
    }
    ghost var r := s[..k] + [node] + s[k..];
    forall i | 0 <= i <= |r| ensures Linked(head, r, i) {
      if i < k {
        assert old(Linked(head, s, i));
      } else if i > k + 1 {
        assert old(Linked(head, s, i - 1));
      }
    }
  }

  /** IQUEUE_ADD_TAIL. */
  method AddTail(node: Node, head: Node, ghost s: seq<Node>)
    requires Ring(head, s)
    requires node != head && node !in s
    modifies node`next, node`prev, head`next, head`prev, s`next, s`prev
    ensures Ring(head, s + [node])
    ensures forall h: Node, t: seq<Node> :: old(allocated(h)) && old(allocated(t)) && old(Ring(h, t)) && Disjoint(h, t, head, s + [node]) ==> Ring(h, t)
  {
    assert Linked(head, s, |s|);
    node.prev := head.prev;
    node.next := head;
    head.prev.next := node;
    head.prev := node;
    assert node in s + [node];
    forall h: Node, t: seq<Node> | old(allocated(h)) && old(allocated(t)) && Disjoint(h, t, head, s + [node]) && old(Ring(h, t)) ensures Ring(h, t) {
      forall i | 0 <= i <= |t| ensures Linked(h, t, i) {
        assert old(Linked(h, t, i));
      }
    }
    ghost var r := s + [node];
    forall i | 0 <= i <= |r| ensures Linked(head, r, i) {
      assert i < |s| ==> old(Linked(head, s, i));
    }
  }

  /** IQUEUE_DEL. */
  method Del(entry: Node, ghost head: Node, ghost s: seq<Node>, ghost k: nat)
    requires Ring(head, s) && k < |s| && s[k] == entry
    modifies head`next, head`prev, s`next, s`prev
    ensures Ring(head, s[..k] + s[k + 1..])
    ensures forall h: Node, t: seq<Node> :: old(allocated(h)) && old(allocated(t)) && old(Ring(h, t)) && Disjoint(h, t, head, s) ==> Ring(h, t)
    ensures entry.next == null && entry.prev == null
  {
    assert Linked(head, s, k) && Linked(head, s, k + 1);
    assert (entry.prev == head || entry.prev in s) && (entry.next == head || entry.next in s);
    ghost var a, b := entry.prev, entry.next;
    entry.next.prev := entry.prev;
    entry.prev.next := entry.next;
    entry.next := null;
    entry.prev := null;
    forall h: Node, t: seq<Node> | old(allocated(h)) && old(allocated(t)) && Disjoint(h, t, head, s) && old(Ring(h, t)) ensures Ring(h, t) {
      forall i | 0 <= i <= |t| ensures Linked(h, t, i) {
        assert old(Linked(h, t, i));
        assert (At(h, t, i) == h || At(h, t, i) in t) && At(h, t, i) != a && At(h, t, i) != entry;
        assert (At(h, t, i + 1) == h || At(h, t, i + 1) in t) && At(h, t, i + 1) != b && At(h, t, i + 1) != entry;
        assert At(h, t, i).next == old(At(h, t, i).next) && At(h, t, i + 1).prev == old(At(h, t, i + 1).prev);
      }
    }
    ghost var r := s[..k] + s[k + 1..];
    forall i | 0 <= i <= |r| ensures Linked(head, r, i) {
      if i < k {
        assert old(Linked(head, s, i));
      } else if i > k {
        assert old(Linked(head, s, i + 1));
      }
    }
  }

  /** IQUEUE_IS_EMPTY. */
  method IsEmpty(head: Node, ghost s: seq<Node>) returns (b: bool)
    requires Ring(head, s)
    ensures b <==> s == []
  {
    assert Linked(head, s, 0);
    b := head == head.next;
  }

  // ---- what a list of nodes holds ----

  /** A record of the segments of all nodes. */
  type Data = map<Node, OutSeg>

  ghost predicate Recorded(data: Data, nodes: set<Node>)
    reads nodes`seg
  {
    forall n :: n in nodes ==> n in data && data[n] == n.seg
  }

  ghost function Entry(data: Data, n: Node): OutSeg {
    if n in data then data[n] else Fresh(0, Frag(0, []))
  }

  /** The segments of snd_buf. */
  ghost function OutSegs(data: Data, s: seq<Node>): (r: seq<OutSeg>)
    ensures |r| == |s|
  {
    seq(|s|, i requires 0 <= i < |s| => Entry(data, s[i]))
  }

  /** Those of snd_queue, not yet numbered. */
  ghost function FragsOf(data: Data, s: seq<Node>): (r: seq<Frag>)
    ensures |r| == |s|
  {
    seq(|s|, i requires 0 <= i < |s| => Entry(data, s[i]).frag)
  }

  /** Those of rcv_queue or rcv_buf. */
  ghost function Contents(data: Data, s: seq<Node>): (r: seq<InSeg>)
    ensures |r| == |s|
  {
    seq(|s|, i requires 0 <= i < |s| => InSeg(Entry(data, s[i]).sn, Entry(data, s[i]).frag))
  }

  // ---- ikcp_parse_data on the list ----

  /** One step of the walk from the tail, on values. */
  lemma WalkStep(buf: seq<InSeg>, seg: InSeg, p: nat)
    requires 0 < p <= |buf|
    ensures var last := buf[p - 1]; var whole := InsertSeg(Wrapped, buf[..p], seg) + buf[p..];
      && (last.sn == seg.sn ==> whole == buf)
      && (last.sn != seg.sn && Diff(Wrapped, seg.sn, last.sn) > 0 ==> whole == buf[..p] + [seg] + buf[p..])
      && (last.sn != seg.sn && Diff(Wrapped, seg.sn, last.sn) <= 0 ==> whole == InsertSeg(Wrapped, buf[..p - 1], seg) + buf[p - 1..])
  {
    hide Diff;
    var last := buf[p - 1];
    assert buf[..p][p - 1] == last && buf[..p][..p - 1] == buf[..p - 1];
    assert buf == buf[..p] + buf[p..];
    if last.sn != seg.sn && Diff(Wrapped, seg.sn, last.sn) <= 0 {
      assert (InsertSeg(Wrapped, buf[..p - 1], seg) + [last]) + buf[p..] == InsertSeg(Wrapped, buf[..p - 1], seg) + ([last] + buf[p..]);
      assert [last] + buf[p..] == buf[p - 1..];
    }
  }

  /** The walk over rcv_buf by prev pointers: where the new segment goes, or that its number is
      there already. */
  method FindPlace(node: Node, head: Node, ghost s: seq<Node>, ghost data: Data) returns (repeated: bool, at: Node, ghost k: nat)
    requires Ring(head, s) && (forall n :: n in s ==> Entry(data, n).sn == n.seg.sn)
    ensures repeated <==> InsertSeg(Wrapped, Contents(data, s), InSeg(node.seg.sn, node.seg.frag)) == Contents(data, s)
    ensures k <= |s| && at == At(head, s, k)
    ensures InsertSeg(Wrapped, Contents(data, s), InSeg(node.seg.sn, node.seg.frag)) ==
      (if repeated then Contents(data, s) else Contents(data, s)[..k] + [InSeg(node.seg.sn, node.seg.frag)] + Contents(data, s)[k..])
  {
    ghost var buf, seg := Contents(data, s), InSeg(node.seg.sn, node.seg.frag);
    hide Diff, InsertSeg, Contents, Entry;
    assert Linked(head, s, |s|);
    k, at, repeated := |s|, head.prev, false;
    InsertedAtBack(buf, seg);
    while at != head
      invariant k <= |s| && at == At(head, s, k)
      invariant InsertSeg(Wrapped, buf, seg) == InsertSeg(Wrapped, buf[..k], seg) + buf[k..]
      decreases k
    {
      NumberAt(data, s, k - 1);
      WalkStep(buf, seg, k);
      if at.seg.sn == node.seg.sn {
        repeated := true;
        return;
      }
      if Diff(Wrapped, node.seg.sn, at.seg.sn) > 0 {
        return;
      }
      assert Linked(head, s, k - 1);
      at, k := at.prev, k - 1;
    }
    InsertedAtFront(buf, seg);
  }

  lemma NumberAt(data: Data, s: seq<Node>, k: nat)
    requires k < |s|
    ensures Contents(data, s)[k].sn == Entry(data, s[k]).sn && s[k] in s
  {
  }

  lemma InsertedAtFront(buf: seq<InSeg>, seg: InSeg)
    ensures InsertSeg(Wrapped, buf[..0], seg) + buf[0..] == buf[..0] + [seg] + buf[0..]
  {
  }

  lemma InsertedAtBack(buf: seq<InSeg>, seg: InSeg)
    ensures InsertSeg(Wrapped, buf, seg) == InsertSeg(Wrapped, buf[..|buf|], seg) + buf[|buf|..]
  {
    hide InsertSeg;
    assert buf[..|buf|] == buf;
  }

  lemma ContentsInserted(data: Data, s: seq<Node>, k: nat, node: Node)
    requires k <= |s|
    ensures Contents(data, s[..k] + [node] + s[k..])
      == Contents(data, s)[..k] + [InSeg(Entry(data, node).sn, Entry(data, node).frag)] + Contents(data, s)[k..]
  {
  }

  // ---- ownership of segments across the four queues ----

  const SND_QUEUE: nat := 0
  const RCV_QUEUE: nat := 1
  const SND_BUF: nat := 2
  const RCV_BUF: nat := 3

  /** The four queues have no node in common. */
  ghost predicate Separate(heads: seq<Node>, lists: seq<seq<Node>>) {
    && |heads| == 4 && |lists| == 4
    && (forall q, r :: 0 <= q < r < 4 ==> heads[q] != heads[r])
    && (forall q, r :: 0 <= q < 4 && 0 <= r < 4 ==> heads[q] !in lists[r])
    && (forall q, r, n :: 0 <= q < 4 && 0 <= r < 4 && q != r && n in lists[q] ==> n !in lists[r])
  }

  /** A node that is in none of them. */
  ghost predicate Loose(node: Node, heads: seq<Node>, lists: seq<seq<Node>>) {
    node !in heads && forall q :: 0 <= q < |lists| ==> node !in lists[q]
  }

  /** Every segment in owned is linked in one of the queues, or has been freed and is linked in
      none. */
  ghost predicate Accounted(lists: seq<seq<Node>>, owned: set<Node>, freed: set<Node>) {
    && |lists| == 4 && freed <= owned
    && (forall q, n :: 0 <= q < 4 && n in lists[q] ==> n in owned && n !in freed)
    && (forall n :: n in owned ==> n in freed || exists q :: 0 <= q < 4 && n in lists[q])
  }

  /** Each queue is a well-formed ring of segments in owned, and its counter is its length. */
  ghost predicate Rings(heads: seq<Node>, lists: seq<seq<Node>>, counts: seq<nat>, owned: set<Node>)
    reads heads`next, heads`prev, owned`next, owned`prev
  {
    && |heads| == 4 && |lists| == 4 && |counts| == 4
    && (forall q, n :: 0 <= q < 4 && n in lists[q] ==> n in owned)
    && (forall q :: 0 <= q < 4 ==> Ring(heads[q], lists[q]) && counts[q] == |lists[q]|)
  }

  /** All queues are well formed and all segments accounted for. */
  ghost predicate Sound(heads: seq<Node>, lists: seq<seq<Node>>, counts: seq<nat>, owned: set<Node>, freed: set<Node>, data: Data, deletions: nat)
    reads heads`next, heads`prev, owned
  {
    && Rings(heads, lists, counts, owned) && Separate(heads, lists) && Accounted(lists, owned, freed)
    && deletions == |freed| && Recorded(data, owned)
  }

  /** The same but for node, which is linked nowhere and not freed. */
  ghost predicate Held(heads: seq<Node>, lists: seq<seq<Node>>, counts: seq<nat>, owned: set<Node>, freed: set<Node>, data: Data, deletions: nat, node: Node)
    reads heads`next, heads`prev, owned
  {
    && Rings(heads, lists, counts, owned) && Separate(heads, lists) && Loose(node, heads, lists)
    && node in owned && Accounted(lists, owned - {node}, freed) && deletions == |freed| && Recorded(data, owned)
  }

  lemma Elsewhere(heads: seq<Node>, lists: seq<seq<Node>>, q: nat, i: nat)
    requires Separate(heads, lists) && q < 4 && i < 4 && q != i
    ensures Disjoint(heads[i], lists[i], heads[q], lists[q])
  {
  }

  lemma ElsewhereLoose(heads: seq<Node>, lists: seq<seq<Node>>, q: nat, i: nat, node: Node)
    requires Separate(heads, lists) && q < 4 && i < 4 && q != i && Loose(node, heads, lists)
    ensures Disjoint(heads[i], lists[i], heads[q], lists[q] + [node])
  {
  }

  /** Queue q has become the ring of t. */
  lemma RingsReplaced(heads: seq<Node>, lists: seq<seq<Node>>, counts: seq<nat>, owned: set<Node>, q: nat, t: seq<Node>)
    requires |heads| == 4 && |lists| == 4 && |counts| == 4 && q < 4
    requires forall i, n :: 0 <= i < 4 && n in lists[i] ==> n in owned
    requires forall n :: n in t ==> n in owned
    requires Ring(heads[q], t)
    requires forall i :: 0 <= i < 4 && i != q ==> Ring(heads[i], lists[i]) && counts[i] == |lists[i]|
    ensures Rings(heads, lists[q := t], counts[q := |t|], owned)
  {
    hide Ring;
  }

  lemma RingsOfMore(heads: seq<Node>, lists: seq<seq<Node>>, counts: seq<nat>, owned: set<Node>, node: Node)
    requires Rings(heads, lists, counts, owned)
    ensures Rings(heads, lists, counts, owned + {node})
  {
    hide Ring;
  }

  /** A loose segment enters queue q. */
  lemma Attached(heads: seq<Node>, lists: seq<seq<Node>>, owned: set<Node>, freed: set<Node>, q: nat, node: Node, t: seq<Node>)
    requires Separate(heads, lists) && q < 4 && Loose(node, heads, lists)
    requires Accounted(lists, owned - {node}, freed) && node in owned
    requires forall n :: n in t <==> n in lists[q] || n == node
    ensures Separate(heads, lists[q := t]) && Accounted(lists[q := t], owned, freed)
  {
    var after := lists[q := t];
    assert node !in freed;
    forall r, n | 0 <= r < 4 && n in after[r] ensures n in owned && n !in freed {
      if r == q {
        assert n in t;
        assert n in lists[q] || n == node;
        assert n in lists[q] ==> n in owned - {node};
      } else {
        assert n in lists[r];
        assert n in owned - {node};
      }
    }
    forall n | n in owned ensures n in freed || exists r :: 0 <= r < 4 && n in after[r] {
      if n == node {
        assert n in after[q];
      } else if n !in freed {
        assert n in owned - {node};
        var r :| 0 <= r < 4 && n in lists[r];
        assert n in after[r];
      }
    }
  }

  /** A segment leaves queue q and is loose; it had not been freed. */
  lemma Detached(heads: seq<Node>, lists: seq<seq<Node>>, owned: set<Node>, freed: set<Node>, q: nat, node: Node, t: seq<Node>)
    requires Separate(heads, lists) && Accounted(lists, owned, freed) && q < 4 && node in lists[q]
    requires forall n :: n in t <==> n in lists[q] && n != node
    ensures Separate(heads, lists[q := t]) && Loose(node, heads, lists[q := t])
    ensures node in owned && node !in freed && Accounted(lists[q := t], owned - {node}, freed)
  {
    var after := lists[q := t];
    forall n | n in owned - {node} ensures n in freed || exists r :: 0 <= r < 4 && n in after[r] {
      if n !in freed {
        var r :| 0 <= r < 4 && n in lists[r];
        assert n in after[r];
      }
    }
  }

  /** A loose segment is freed. */
  lemma Dropped(lists: seq<seq<Node>>, owned: set<Node>, freed: set<Node>, node: Node)
    requires Accounted(lists, owned - {node}, freed) && node in owned && forall q :: 0 <= q < |lists| ==> node !in lists[q]
    ensures node !in freed && Accounted(lists, owned, freed + {node})
  {
    forall n | n in owned ensures n in freed + {node} || exists q :: 0 <= q < 4 && n in lists[q] {
      if n != node {
        assert n in owned - {node};
      }
    }
  }

  lemma WithoutMember(head: Node, s: seq<Node>, k: nat)
    requires Distinct(head, s) && k < |s|
    ensures forall n :: n in s[..k] + s[k + 1..] <==> n in s && n != s[k]
  {
    assert s == s[..k] + [s[k]] + s[k + 1..];
  }

  /** Queue q holds s; the others are as in before. */
  ghost predicate Now(lists: seq<seq<Node>>, before: seq<seq<Node>>, q: nat, s: seq<Node>) {
    |before| == 4 && q < 4 && lists == before[q := s]
  }

  lemma NowAtFirst(lists: seq<seq<Node>>, q: nat)
    requires |lists| == 4 && q < 4
    ensures Now(lists, lists, q, lists[q])
  {
  }

  lemma NowNext(lists: seq<seq<Node>>, lists': seq<seq<Node>>, before: seq<seq<Node>>, q: nat, s: seq<Node>, t: seq<Node>)
    requires Now(lists, before, q, s) && lists' == lists[q := t]
    ensures Now(lists', before, q, t)
  {
  }

  lemma NowHolds(lists: seq<seq<Node>>, before: seq<seq<Node>>, q: nat, s: seq<Node>)
    requires Now(lists, before, q, s)
    ensures |lists| == 4 && q < 4 && lists[q] == s && lists == before[q := s]
  {
  }

  lemma EmptySound(heads: seq<Node>)
    requires |heads| == 4 && (forall q, r :: 0 <= q < r < 4 ==> heads[q] != heads[r])
    requires forall q :: 0 <= q < 4 ==> Ring(heads[q], [])
    ensures Sound(heads, [[], [], [], []], [0, 0, 0, 0], {}, {}, map[], 0)
  {
    hide Ring;
  }

  /** The four queue heads of a control block, which segments have been allocated, where they are
      linked, and which have been freed. */
  class Queues {
    const heads: seq<Node>
    var counts: seq<nat>
    ghost var lists: seq<seq<Node>>
    ghost var owned: set<Node>
    ghost var freed: set<Node>
    ghost var data: Data
    /** How often ikcp_segment_delete was called. */
    ghost var deletions: nat

    ghost predicate Valid()
      reads this, heads`next, heads`prev, owned
    {
      Sound(heads, lists, counts, owned, freed, data, deletions)
    }

    /** All segments but node are accounted for, and node is held by the running call. */
    ghost predicate Holding(node: Node)
      reads this, heads`next, heads`prev, owned
    {
      Held(heads, lists, counts, owned, freed, data, deletions, node)
    }

    constructor ()
      ensures Valid() && lists == [[], [], [], []] && owned == {} && freed == {} && fresh(heads)
    {
      var all := NewHeads();
      EmptySound(all);
      hide Sound, Ring;
      heads := all;
      lists, counts := [[], [], [], []], [0, 0, 0, 0];
      owned, freed, data, deletions := {}, {}, map[], 0;
    }

    /** The heads are no members, and the counters are right. */
    lemma Sizes(q: nat)
      requires Valid() && q < 4
      ensures |heads| == 4 && |lists| == 4 && |counts| == 4 && counts[q] == |lists[q]|
      ensures forall n :: n in lists[q] ==> n != heads[q] && n in owned
    {
      assert Ring(heads[q], lists[q]);
    }

    /** So the freed segments are known from the queues: those allocated and linked nowhere. */
    lemma FreedExactly()
      requires Valid()
      ensures forall n :: n in freed <==> n in owned && forall q :: 0 <= q < 4 ==> n !in lists[q]
    {
      assert Accounted(lists, owned, freed);
    }

    // ---- one segment at a time ----

    /** ikcp_segment_new. */
    method NewSegment(sn: nat, frag: Frag) returns (node: Node)
      requires Valid()
      modifies this`owned, this`data
      ensures fresh(node) && node.seg == Fresh(sn, frag) && owned == old(owned) + {node}
      ensures data == old(data)[node := Fresh(sn, frag)]
      ensures Holding(node)
    {
      node := new Node(Fresh(sn, frag));
      assert Loose(node, heads, lists);
      hide Ring, Rings, Separate, Accounted, Loose;
      RingsOfMore(heads, lists, counts, owned, node);
      assert owned + {node} - {node} == owned;
      owned, data := owned + {node}, data[node := Fresh(sn, frag)];
    }

    /** ikcp_segment_delete: the segment had not been freed before. */
    method Drop(node: Node)
      requires Holding(node)
      modifies this`freed, this`deletions
      ensures Valid() && node !in old(freed) && freed == old(freed) + {node}
    {
      Dropped(lists, owned, freed, node);
      hide Ring, Rings, Separate, Accounted, Loose;
      freed, deletions := freed + {node}, deletions + 1;
    }

    /** Insert the held segment after place k of queue q. */
    method LinkAt(q: nat, node: Node, at: Node, ghost k: nat)
      requires Holding(node) && q < 4 && k <= |lists[q]| && at == At(heads[q], lists[q], k)
      modifies this, heads, owned
      ensures owned == old(owned) && freed == old(freed) && data == old(data)
      ensures lists == old(lists)[q := old(lists)[q][..k] + [node] + old(lists)[q][k..]]
      ensures Valid()
    {
      ghost var s := lists[q];
      ghost var r := s[..k] + [node] + s[k..];
      assert s == s[..k] + s[k..];
      Attached(heads, lists, owned, freed, q, node, r);
      assert node != heads[q] && node !in s;
      hide Ring, Loose, Disjoint, Accounted;
      Add(node, at, heads[q], s, k);
      forall i | 0 <= i < 4 && i != q ensures Ring(heads[i], lists[i]) {
        ElsewhereLoose(heads, lists, q, i, node);
        assert old(Ring(heads[i], lists[i]));
      }
      hide Separate;
      RingsReplaced(heads, lists, counts, owned, q, r);
      hide Rings;
      assert Recorded(data, owned);
      hide Recorded;
      assert Sound(heads, lists[q := r], counts[q := |r|], owned, freed, data, deletions);
      hide Sound;
      lists, counts := lists[q := r], counts[q := counts[q] + 1];
    }

    /** Append the held segment to queue q. */
    method Link(q: nat, node: Node)
      requires Holding(node) && q < 4
      modifies this, heads, owned
      ensures owned == old(owned) && freed == old(freed) && data == old(data)
      ensures lists == old(lists)[q := old(lists)[q] + [node]]
      ensures Valid()
    {
      ghost var r := lists[q] + [node];
      Attached(heads, lists, owned, freed, q, node, r);
      assert node != heads[q] && node !in lists[q];
      hide Ring, Loose, Disjoint, Accounted;
      AddTail(node, heads[q], lists[q]);
      forall i | 0 <= i < 4 && i != q ensures Ring(heads[i], lists[i]) {
        ElsewhereLoose(heads, lists, q, i, node);
        assert old(Ring(heads[i], lists[i]));
      }
      hide Separate;
      RingsReplaced(heads, lists, counts, owned, q, r);
      hide Rings;
      assert Recorded(data, owned);
      hide Recorded;
      assert Sound(heads, lists[q := r], counts[q := |r|], owned, freed, data, deletions);
      hide Sound;
      lists, counts := lists[q := r], counts[q := counts[q] + 1];
    }

    /** Take the k-th segment out of queue q. */
    method Unlink(q: nat, entry: Node, ghost k: nat)
      requires Valid() && q < 4 && k < |lists[q]| && lists[q][k] == entry
      modifies this, heads, owned
      ensures owned == old(owned) && freed == old(freed) && data == old(data)
      ensures lists == old(lists)[q := old(lists)[q][..k] + old(lists)[q][k + 1..]]
      ensures Holding(entry)
    {
      ghost var s := lists[q];
      ghost var r := s[..k] + s[k + 1..];
      assert counts[q] == |s| && |counts| == 4;
      WithoutMember(heads[q], s, k);
      Detached(heads, lists, owned, freed, q, entry, r);
      hide Ring, Loose, Disjoint, Accounted;
      Del(entry, heads[q], s, k);
      forall i | 0 <= i < 4 && i != q ensures Ring(heads[i], lists[i]) {
        Elsewhere(heads, lists, q, i);
        assert old(Ring(heads[i], lists[i]));
      }
      hide Separate;
      RingsReplaced(heads, lists, counts, owned, q, r);
      hide Rings;
      assert Recorded(data, owned);
      hide Recorded;
      assert Held(heads, lists[q := r], counts[q := |r|], owned, freed, data, deletions, entry);
      hide Held;
      lists, counts := lists[q := r], counts[q := counts[q] - 1];
    }

    /** Unlink and free. */
    method Free(q: nat, entry: Node, ghost k: nat)
      requires Valid() && q < 4 && k < |lists[q]| && lists[q][k] == entry
      modifies this, heads, owned
      ensures owned == old(owned) && data == old(data)
      ensures Valid()
      ensures lists == old(lists)[q := old(lists)[q][..k] + old(lists)[q][k + 1..]]
      ensures entry !in old(freed) && freed == old(freed) + {entry}
    {
      assert |lists| == 4;
      hide Sound, Held;
      Unlink(q, entry, k);
      Drop(entry);
    }

    method FreeFirst(q: nat, entry: Node)
      requires Valid() && q < 4 && |lists[q]| > 0 && lists[q][0] == entry
      modifies this, heads, owned
      ensures owned == old(owned) && data == old(data)
      ensures Valid() && lists == old(lists)[q := old(lists)[q][1..]]
      ensures entry !in old(freed) && freed == old(freed) + {entry}
    {
      ghost var s := lists[q];
      assert s[..0] + s[1..] == s[1..];
      hide Sound;
      Free(q, entry, 0);
    }

    /** Take the first segment of one queue to the tail of another (snd_queue to snd_buf,
        rcv_buf to rcv_queue). */
    method MoveFirst(q: nat, r: nat) returns (node: Node)
      requires Valid() && q < 4 && r < 4 && q != r && |lists[q]| > 0
      modifies this, heads, owned
      ensures owned == old(owned) && freed == old(freed) && data == old(data)
      ensures Valid() && node == old(lists)[q][0]
      ensures lists == old(lists)[q := old(lists)[q][1..]][r := old(lists)[r] + [old(lists)[q][0]]]
    {
      assert |lists| == 4 && Linked(heads[q], lists[q], 0);
      ghost var s := lists[q];
      assert s[..0] + s[1..] == s[1..];
      node := heads[q].next;
      hide Sound, Held;
      Unlink(q, node, 0);
      Link(r, node);
    }

    /** Is queue q empty, and which is its first segment if not. */
    method First(q: nat) returns (empty: bool, node: Node)
      requires Valid() && q < 4
      ensures empty <==> |lists[q]| == 0
      ensures !empty ==> node == lists[q][0]
      ensures node == At(heads[q], lists[q], 1)
    {
      assert Linked(heads[q], lists[q], 0);
      empty := IsEmpty(heads[q], lists[q]);
      node := heads[q].next;
    }

    /** The segment after the k-th place of queue q, or the head. */
    method Next(q: nat, p: Node, ghost k: nat) returns (next: Node)
      requires Valid() && q < 4 && k <= |lists[q]| && p == At(heads[q], lists[q], k)
      ensures next == At(heads[q], lists[q], k + 1)
    {
      assert Linked(heads[q], lists[q], k);
      next := p.next;
    }

    /** The last segment of queue q, or the head. */
    method Last(q: nat) returns (node: Node)
      requires Valid() && q < 4
      ensures node == At(heads[q], lists[q], |lists[q]|)
    {
      assert Linked(heads[q], lists[q], |lists[q]|);
      node := heads[q].prev;
    }

    /** The place in rcv_buf for the held segment, or that its number is there already. */
    method Place(node: Node) returns (repeated: bool, at: Node, ghost k: nat)
      requires Holding(node)
      ensures |lists| == 4 && |heads| == 4 && k <= |lists[RCV_BUF]| && at == At(heads[RCV_BUF], lists[RCV_BUF], k)
      ensures var c, e := Contents(data, lists[RCV_BUF]), Entry(data, node);
        InsertSeg(Wrapped, c, InSeg(e.sn, e.frag)) == (if repeated then c else c[..k] + [InSeg(e.sn, e.frag)] + c[k..])
    {
      assert Ring(heads[RCV_BUF], lists[RCV_BUF]) && Recorded(data, owned);
      assert Entry(data, node) == node.seg;
      repeated, at, k := FindPlace(node, heads[RCV_BUF], lists[RCV_BUF], data);
    }

    /** Write the fields of a segment; its links stay. */
    method Rewrite(node: Node, seg: OutSeg)
      requires Valid() && node in owned
      modifies this`data, node`seg
      ensures Valid() && data == old(data)[node := seg]
    {
      assert Recorded(data, owned);
      hide Rings, Separate, Accounted;
      node.seg := seg;
      data := data[node := seg];
      assert Recorded(data, owned);
    }

    /** One of the loops of ikcp_release. */
    method FreeAll(q: nat)
      requires Valid() && q < 4
      modifies this, heads, owned
      ensures owned == old(owned) && data == old(data)
      ensures Valid() && lists == old(lists)[q := []]
    {
      NowAtFirst(lists, q);
      ghost var before, s := lists, lists[q];
      hide Sound, Now;
      var empty, node := First(q);
      while !empty
        invariant Valid() && Now(lists, before, q, s) && owned == old(owned) && data == old(data)
        invariant empty <==> |s| == 0
        invariant !empty ==> node == s[0]
        decreases |s|
      {
        ghost var was := lists;
        NowHolds(lists, before, q, s);
        FreeFirst(q, node);
        s := s[1..];
        NowNext(was, lists, before, q, was[q], s);
        NowHolds(lists, before, q, s);
        empty, node := First(q);
      }
      NowHolds(lists, before, q, s);
    }

    /** ikcp_release: every segment ever allocated has then been freed, each by one call. */
    method Release()
      requires Valid()
      modifies this, heads, owned
      ensures owned == old(owned) && data == old(data)
      ensures Valid() && lists == [[], [], [], []]
      ensures freed == owned && deletions == |owned|
    {
      FreeAll(SND_BUF);
      FreeAll(RCV_BUF);
      FreeAll(SND_QUEUE);
      FreeAll(RCV_QUEUE);
      assert lists == [[], [], [], []];
    }
  }
}
