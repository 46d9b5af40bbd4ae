/** Packing segments into datagrams: ikcp_flush appends to its buffer and emits the buffer
    whenever the next segment would not fit the mtu. */
module Packing {
  import opened Wire

  /** The datagrams emitted so far and the segments waiting in the buffer. */
  datatype Pack = Pack(done: seq<seq<Packet>>, cur: seq<Packet>)

  function Put(mtu: nat, k: Pack, p: Packet): Pack {
    if TotalSize(k.cur) + PacketSize(p) > mtu then Pack(Emit(k), [p]) else Pack(k.done, k.cur + [p])
  }

  /** Emitting an empty buffer does nothing. */
  function Emit(k: Pack): seq<seq<Packet>> {
    if |k.cur| > 0 then k.done + [k.cur] else k.done
  }

  function PutAll(mtu: nat, ps: seq<Packet>): Pack {
    if |ps| == 0 then Pack([], []) else Put(mtu, PutAll(mtu, ps[..|ps| - 1]), ps[|ps| - 1])
  }

  function Datagrams(mtu: nat, ps: seq<Packet>): seq<seq<Packet>> {
    Emit(PutAll(mtu, ps))
  }

  function Concat(ds: seq<seq<Packet>>): seq<Packet> {
    if |ds| == 0 then [] else Concat(ds[..|ds| - 1]) + ds[|ds| - 1]
  }

  /** A datagram carries at least one segment and is between one header and one mtu long. */
  predicate Sized(mtu: nat, d: seq<Packet>) {
    |d| > 0 && OVERHEAD <= TotalSize(d) <= mtu
  }

  /** The first segment of the next datagram did not fit into this one. */
  predicate Full(mtu: nat, d: seq<Packet>, next: seq<Packet>) {
    |next| > 0 && TotalSize(d) + PacketSize(next[0]) > mtu
  }

  /** A run of well-sized datagrams, each filled as far as the next segment allowed. */
  predicate Chained(mtu: nat, ds: seq<seq<Packet>>) {
    && (forall i :: 0 <= i < |ds| ==> Sized(mtu, ds[i]))
    && (forall i :: 0 < i < |ds| ==> Full(mtu, ds[i - 1], ds[i]))
  }

  predicate PackOk(mtu: nat, k: Pack) {
    && Chained(mtu, Emit(k))
    && (|k.done| > 0 ==> |k.cur| > 0)
  }

  lemma SplitLast(ps: seq<Packet>)
    requires |ps| > 0
    ensures ps == ps[..|ps| - 1] + [ps[|ps| - 1]]
  {
  }

  lemma TotalSizeSnoc(ps: seq<Packet>, p: Packet)
    ensures TotalSize(ps + [p]) == TotalSize(ps) + PacketSize(p)
  {
    assert (ps + [p])[..|ps|] == ps;
  }

  lemma ConcatSnoc(ds: seq<seq<Packet>>, d: seq<Packet>)
    ensures Concat(ds + [d]) == Concat(ds) + d
  {
    assert (ds + [d])[..|ds|] == ds;
  }

  lemma ChainedSnoc(mtu: nat, ds: seq<seq<Packet>>, d: seq<Packet>)
    requires Chained(mtu, ds) && Sized(mtu, d)
    requires |ds| > 0 ==> Full(mtu, ds[|ds| - 1], d)
    ensures Chained(mtu, ds + [d])
  {
    hide Full, Sized;
    var r := ds + [d];
    forall i | 0 < i < |r| ensures Full(mtu, r[i - 1], r[i]) {
      if i < |ds| {
        assert r[i - 1] == ds[i - 1] && r[i] == ds[i];
      }
    }
  }

  lemma ChainedFront(mtu: nat, ds: seq<seq<Packet>>, d: seq<Packet>)
    requires Chained(mtu, ds + [d])
    ensures Chained(mtu, ds) && Sized(mtu, d)
    ensures |ds| > 0 ==> Full(mtu, ds[|ds| - 1], d)
  {
    hide Full, Sized;
    var r := ds + [d];
    assert r[|ds|] == d && (|ds| > 0 ==> r[|ds| - 1] == ds[|ds| - 1]);
    forall i | 0 <= i < |ds| ensures Sized(mtu, ds[i]) {
      assert r[i] == ds[i];
    }
    forall i | 0 < i < |ds| ensures Full(mtu, ds[i - 1], ds[i]) {
      assert r[i - 1] == ds[i - 1] && r[i] == ds[i];
    }
  }

  lemma PutKeeps(mtu: nat, k: Pack, p: Packet)
    requires PackOk(mtu, k) && PacketSize(p) <= mtu
    ensures PackOk(mtu, Put(mtu, k, p))
  {
    TotalSizeSnoc([], p);
    TotalSizeSnoc(k.cur, p);
    assert [] + [p] == [p];
    if TotalSize(k.cur) + PacketSize(p) > mtu {
      ChainedSnoc(mtu, Emit(k), [p]);
    } else if |k.cur| > 0 {
      ChainedFront(mtu, k.done, k.cur);
      ChainedSnoc(mtu, k.done, k.cur + [p]);
    } else {
      ChainedSnoc(mtu, [], [p]);
      assert k.cur + [p] == [p];
    }
  }

  lemma PutConcat(mtu: nat, k: Pack, p: Packet)
    ensures Concat(Emit(Put(mtu, k, p))) == Concat(Emit(k)) + [p]
  {
    hide TotalSize, PacketSize;
    ConcatSnoc(k.done, k.cur);
    ConcatSnoc(Emit(k), [p]);
    ConcatSnoc(k.done, k.cur + [p]);
  }

  /** The datagrams of a flush hold whole segments, in order and none missing. */
  lemma {:induction false} DatagramsConcat(mtu: nat, ps: seq<Packet>)
    ensures Concat(Datagrams(mtu, ps)) == ps
  {
    if |ps| > 0 {
      var n := |ps| - 1;
      DatagramsConcat(mtu, ps[..n]);
      PutConcat(mtu, PutAll(mtu, ps[..n]), ps[n]);
      SplitLast(ps);
    }
  }

  /** Each datagram is between 24 bytes and the mtu, and none could have taken the segment
      that follows it. */
  lemma {:induction false} DatagramsSized(mtu: nat, ps: seq<Packet>)
    requires forall i :: 0 <= i < |ps| ==> PacketSize(ps[i]) <= mtu
    ensures Chained(mtu, Datagrams(mtu, ps))
    ensures PackOk(mtu, PutAll(mtu, ps))
  {
    if |ps| > 0 {
      var n := |ps| - 1;
      DatagramsSized(mtu, ps[..n]);
      PutKeeps(mtu, PutAll(mtu, ps[..n]), ps[n]);
    }
  }

  lemma {:induction false} ConcatMembers(ds: seq<seq<Packet>>, p: Packet)
    ensures p in Concat(ds) <==> exists i :: 0 <= i < |ds| && p in ds[i]
  {
    if |ds| > 0 {
      var n := |ds| - 1;
      ConcatMembers(ds[..n], p);
      if p in Concat(ds[..n]) {
        var i :| 0 <= i < |ds[..n]| && p in ds[..n][i];
        assert p in ds[i];
      }
      if i :| 0 <= i < |ds| && p in ds[i] {
        if i < n {
          assert p in ds[..n][i];
        }
      }
    }
  }
}
