/** The byte format of a datagram: a series of segments, each a 24-byte little-endian
    header followed by its payload. */
module Wire {
  import opened Numbers

  const OVERHEAD: nat := 24
  const CMD_PUSH: nat := 81
  const CMD_ACK: nat := 82
  const CMD_WASK: nat := 83
  const CMD_WINS: nat := 84

  type Byte = b: nat | b < 256

  type Bytes = seq<Byte>

  /** One segment as it travels.  The conversation number is the same for all segments of
      a connection and is kept apart. */
  datatype Packet = Packet(cmd: nat, frg: nat, wnd: nat, ts: nat, sn: nat, una: nat, data: Bytes)

  predicate KnownCommand(cmd: nat) {
    cmd == CMD_PUSH || cmd == CMD_ACK || cmd == CMD_WASK || cmd == CMD_WINS
  }

  /** Every field fits the width it has on the wire. */
  predicate Encodable(p: Packet) {
    && KnownCommand(p.cmd)
    && p.frg < 256 && p.wnd < 65536
    && p.ts < TWO32 && p.sn < TWO32 && p.una < TWO32
    && |p.data| < TWO31
  }

  // ---- little-endian integers ----

  /** The n low-order bytes of x, least significant first. */
  function EncodeInt(x: nat, n: nat): (d: Bytes)
    ensures |d| == n
  {
    if n == 0 then [] else [x % 256] + EncodeInt(x / 256, n - 1)
  }

  function DecodeInt(d: Bytes, n: nat): nat
    requires n <= |d|
  {
    if n == 0 then 0 else d[0] + 256 * DecodeInt(d[1..], n - 1)
  }

  function Pow256(n: nat): (r: nat)
    ensures r > 0
  {
    if n == 0 then 1 else 256 * Pow256(n - 1)
  }

  lemma {:induction false} IntRoundTrip(x: nat, n: nat, rest: Bytes)
    requires x < Pow256(n)
    ensures DecodeInt(EncodeInt(x, n) + rest, n) == x
  {
    if n > 0 {
      IntRoundTrip(x / 256, n - 1, rest);
      assert (EncodeInt(x, n) + rest)[1..] == EncodeInt(x / 256, n - 1) + rest;
    }
  }

  /** Little-endian: the bytes of a field are its digits to base 256, the lowest first. */
  lemma ByteOrder(x: nat, n: nat)
    requires 1 <= n <= 4
    ensures EncodeInt(x, n)[0] == x % 256
    ensures n > 1 ==> EncodeInt(x, n)[1] == x / 256 % 256
    ensures n > 2 ==> EncodeInt(x, n)[2] == x / 65536 % 256
    ensures n > 3 ==> EncodeInt(x, n)[3] == x / 16777216 % 256
  {
    var y := x / 256;
    var z := y / 256;
    assert z == x / 65536 && z / 256 == x / 16777216;
    if n > 1 {
      assert EncodeInt(x, n)[1] == EncodeInt(y, n - 1)[0];
    }
    if n > 2 {
      assert EncodeInt(x, n)[2] == EncodeInt(y, n - 1)[1] == EncodeInt(z, n - 2)[0];
    }
    if n > 3 {
      assert EncodeInt(x, n)[3] == EncodeInt(y, n - 1)[2] == EncodeInt(z, n - 2)[1] == EncodeInt(z / 256, n - 3)[0];
    }
  }

  /** Decoding never leaves the range of the field, whatever the bytes. */
  lemma {:induction false} DecodeBound(d: Bytes, n: nat)
    requires n <= |d|
    ensures DecodeInt(d, n) < Pow256(n)
  {
    if n > 0 {
      DecodeBound(d[1..], n - 1);
    }
  }

  lemma Widths()
    ensures Pow256(1) == 256 && Pow256(2) == 65536 && Pow256(4) == TWO32
  {
    assert Pow256(1) == 256 * Pow256(0);
    assert Pow256(2) == 256 * Pow256(1);
    assert Pow256(3) == 256 * Pow256(2);
    assert Pow256(4) == 256 * Pow256(3);
  }

  // ---- segments ----

  function EncodeHeader(conv: nat, p: Packet): (d: Bytes)
    ensures |d| == OVERHEAD
  {
    EncodeInt(conv, 4) + EncodeInt(p.cmd, 1) + EncodeInt(p.frg, 1) + EncodeInt(p.wnd, 2)
    + EncodeInt(p.ts, 4) + EncodeInt(p.sn, 4) + EncodeInt(p.una, 4) + EncodeInt(|p.data|, 4)
  }

  function Encode(conv: nat, p: Packet): (d: Bytes)
    ensures |d| == PacketSize(p)
  {
    EncodeHeader(conv, p) + p.data
  }

  function PacketSize(p: Packet): nat { OVERHEAD + |p.data| }

  function EncodeAll(conv: nat, ps: seq<Packet>): Bytes {
    if |ps| == 0 then [] else EncodeAll(conv, ps[..|ps| - 1]) + Encode(conv, ps[|ps| - 1])
  }

  function TotalSize(ps: seq<Packet>): nat {
    if |ps| == 0 then 0 else TotalSize(ps[..|ps| - 1]) + PacketSize(ps[|ps| - 1])
  }

  /** The segments ikcp_input processes before it stops, and the code it then returns. */
  datatype Parsed = Parsed(packets: seq<Packet>, code: int)

  function FieldAt(d: Bytes, at: nat, n: nat): nat
    requires at + n <= |d|
  {
    DecodeInt(d[at..], n)
  }

  /** The segment at the start of d, with the payload length its header claims. */
  function HeaderAt(d: Bytes): Packet
    requires |d| >= OVERHEAD
  {
    var len := FieldAt(d, 20, 4);
    Packet(FieldAt(d, 4, 1), FieldAt(d, 5, 1), FieldAt(d, 6, 2), FieldAt(d, 8, 4), FieldAt(d, 12, 4),
           FieldAt(d, 16, 4), if OVERHEAD + len <= |d| then d[OVERHEAD..OVERHEAD + len] else [])
  }

  /** The outcome of examining one segment: 0 accepts it, a negative code ends the call. */
  function HeaderCode(conv: nat, d: Bytes): int
    requires |d| >= OVERHEAD
  {
    var len := FieldAt(d, 20, 4);
    if FieldAt(d, 0, 4) != conv then -1
    else if |d| - OVERHEAD < len || len >= TWO31 then -2
    else if !KnownCommand(HeaderAt(d).cmd) then -3
    else 0
  }

  function Parse(conv: nat, d: Bytes): (r: Parsed)
    decreases |d|
  {
    if |d| < OVERHEAD then Parsed([], 0)
    else
      var code := HeaderCode(conv, d);
      if code != 0 then Parsed([], code)
      else
        var p := HeaderAt(d);
        var rest := Parse(conv, d[PacketSize(p)..]);
        Parsed([p] + rest.packets, rest.code)
  }

  /** The little-endian number in four bytes. */
  function Word(d: Bytes, at: nat): nat
    requires at + 4 <= |d|
  {
    (d[at] as nat) + 256 * (d[at + 1] as nat) + 65536 * (d[at + 2] as nat) + 16777216 * (d[at + 3] as nat)
  }

  lemma WordIs(d: Bytes, at: nat)
    requires at + 4 <= |d|
    ensures FieldAt(d, at, 4) == Word(d, at)
  {
    var e := d[at..];
    assert DecodeInt(e, 4) == e[0] + 256 * DecodeInt(e[1..], 3);
    assert DecodeInt(e[1..], 3) == e[1] + 256 * DecodeInt(e[1..][1..], 2);
    assert DecodeInt(e[1..][1..], 2) == e[2] + 256 * DecodeInt(e[1..][1..][1..], 1);
    assert DecodeInt(e[1..][1..][1..], 1) == e[3] + 256 * DecodeInt(e[1..][1..][1..][1..], 0);
  }

  /** What is refused, read off the bytes: a foreign conversation, then a payload that is not all
      there or too long for an int, then an unknown command; everything else is accepted. */
  lemma RefusedBytes(conv: nat, d: Bytes)
    requires |d| >= 24
    ensures var code, foreign, len := HeaderCode(conv, d), Word(d, 0) != conv, Word(d, 20);
      var short, unknown := (len > |d| - 24 || len >= 0x8000_0000), d[4] !in {81, 82, 83, 84};
      && (code == -1 <==> foreign)
      && (code == -2 <==> !foreign && short)
      && (code == -3 <==> !foreign && !short && unknown)
      && (code == 0 <==> !foreign && !short && !unknown)
  {
    hide Word;
    WordIs(d, 0);
    WordIs(d, 20);
    assert DecodeInt(d[4..], 1) == d[4] + 256 * DecodeInt(d[4..][1..], 0);
  }

  /** Parsing stops at the first refused segment with its code, and without one when less than a
      header is left; all before it are kept. */
  lemma {:induction false} ParseStops(conv: nat, ps: seq<Packet>, bad: Bytes)
    requires conv < TWO32 && forall p :: p in ps ==> Encodable(p)
    ensures var d := EncodeAll(conv, ps) + bad;
      && (|bad| < 24 ==> Parse(conv, d) == Parsed(ps, 0))
      && (|bad| >= 24 && HeaderCode(conv, bad) != 0 ==> Parse(conv, d) == Parsed(ps, HeaderCode(conv, bad)))
    decreases |ps|
  {
    hide Encodable, HeaderCode, HeaderAt;
    if |ps| == 0 {
      assert EncodeAll(conv, ps) + bad == bad;
    } else {
      var rest := ps[1..];
      ParseStops(conv, rest, bad);
      EncodeAllPrepend(conv, ps[0], rest);
      assert ps == [ps[0]] + rest;
      var tail := EncodeAll(conv, rest) + bad;
      assert EncodeAll(conv, ps) + bad == Encode(conv, ps[0]) + tail;
      HeaderRoundTrip(conv, ps[0], tail);
      assert (Encode(conv, ps[0]) + tail)[PacketSize(ps[0])..] == tail;
    }
  }

  /** Whatever the bytes, every segment that is processed has fields in range. */
  lemma {:induction false} ParsedEncodable(conv: nat, d: Bytes)
    ensures forall p :: p in Parse(conv, d).packets ==> Encodable(p)
    decreases |d|
  {
    if |d| >= OVERHEAD && HeaderCode(conv, d) == 0 {
      var p := HeaderAt(d);
      Widths();
      DecodeBound(d[5..], 1);
      DecodeBound(d[6..], 2);
      DecodeBound(d[8..], 4);
      DecodeBound(d[12..], 4);
      DecodeBound(d[16..], 4);
      ParsedEncodable(conv, d[PacketSize(p)..]);
    }
  }

  lemma FieldRoundTrip(d: Bytes, at: nat, x: nat, n: nat)
    requires at + n <= |d| && d[at..at + n] == EncodeInt(x, n)
    requires x < Pow256(n)
    ensures FieldAt(d, at, n) == x
  {
    IntRoundTrip(x, n, d[at + n..]);
    assert d[at..] == d[at..at + n] + d[at + n..];
  }

  lemma HeaderSlices(conv: nat, p: Packet, rest: Bytes)
    ensures var d := Encode(conv, p) + rest;
      && |d| >= OVERHEAD
      && d[0..4] == EncodeInt(conv, 4) && d[4..5] == EncodeInt(p.cmd, 1)
      && d[5..6] == EncodeInt(p.frg, 1) && d[6..8] == EncodeInt(p.wnd, 2)
      && d[8..12] == EncodeInt(p.ts, 4) && d[12..16] == EncodeInt(p.sn, 4)
      && d[16..20] == EncodeInt(p.una, 4) && d[20..24] == EncodeInt(|p.data|, 4)
      && d[OVERHEAD..OVERHEAD + |p.data|] == p.data
  {
  }

  /** A segment byte by byte. */
  lemma HeaderBytes(conv: nat, p: Packet)
    requires conv < TWO32 && Encodable(p)
    ensures var d := Encode(conv, p);
      && |d| == 24 + |p.data| && d[24..] == p.data
      && Word(d, 0) == conv && d[4] == p.cmd && d[5] == p.frg && d[6] as nat + 256 * d[7] as nat == p.wnd
      && Word(d, 8) == p.ts && Word(d, 12) == p.sn && Word(d, 16) == p.una && Word(d, 20) == |p.data|
    ensures CMD_PUSH == 81 && CMD_ACK == 82 && CMD_WASK == 83 && CMD_WINS == 84
  {
    hide EncodeInt, Encode, Word;
    var d := Encode(conv, p);
    HeaderSlices(conv, p, []);
    assert d + [] == d;
    WordOf(d, 0, conv);
    WordOf(d, 8, p.ts);
    WordOf(d, 12, p.sn);
    WordOf(d, 16, p.una);
    WordOf(d, 20, |p.data|);
    ByteOrder(p.cmd, 1);
    ByteOrder(p.frg, 1);
    ByteOrder(p.wnd, 2);
    assert d[4] == d[4..5][0] && d[5] == d[5..6][0] && d[6] == d[6..8][0] && d[7] == d[6..8][1];
  }

  lemma WordOf(d: Bytes, at: nat, x: nat)
    requires at + 4 <= |d| && x < TWO32 && d[at..at + 4] == EncodeInt(x, 4)
    ensures Word(d, at) == x
  {
    hide Word, FieldAt;
    Widths();
    FieldRoundTrip(d, at, x, 4);
    WordIs(d, at);
  }

  lemma HeaderRoundTrip(conv: nat, p: Packet, rest: Bytes)
    requires conv < TWO32 && Encodable(p)
    ensures HeaderAt(Encode(conv, p) + rest) == p
    ensures HeaderCode(conv, Encode(conv, p) + rest) == 0
  {
    var d := Encode(conv, p) + rest;
    Widths();
    HeaderSlices(conv, p, rest);
    FieldRoundTrip(d, 0, conv, 4);
    FieldRoundTrip(d, 4, p.cmd, 1);
    FieldRoundTrip(d, 5, p.frg, 1);
    FieldRoundTrip(d, 6, p.wnd, 2);
    FieldRoundTrip(d, 8, p.ts, 4);
    FieldRoundTrip(d, 12, p.sn, 4);
    FieldRoundTrip(d, 16, p.una, 4);
    FieldRoundTrip(d, 20, |p.data|, 4);
  }

  lemma {:induction false} EncodeAllPrepend(conv: nat, p: Packet, ps: seq<Packet>)
    ensures EncodeAll(conv, [p] + ps) == Encode(conv, p) + EncodeAll(conv, ps)
  {
    hide Encode;
    if |ps| == 0 {
      assert ([p] + ps)[..0] == [];
      assert EncodeAll(conv, []) == [];
    } else {
      var front := ps[..|ps| - 1];
      assert ([p] + ps)[..|ps|] == [p] + front;
      EncodeAllPrepend(conv, p, front);
    }
  }

  lemma {:induction false} EncodeAllSize(conv: nat, ps: seq<Packet>)
    ensures |EncodeAll(conv, ps)| == TotalSize(ps)
  {
    if |ps| > 0 {
      EncodeAllSize(conv, ps[..|ps| - 1]);
    }
  }

  /** Parsing what was encoded yields the same segments in the same order and succeeds. */
  lemma ParseRoundTrip(conv: nat, ps: seq<Packet>)
    requires conv < TWO32
    requires forall p :: p in ps ==> Encodable(p)
    ensures Parse(conv, EncodeAll(conv, ps)) == Parsed(ps, 0)
  {
    ParseStops(conv, ps, []);
    assert EncodeAll(conv, ps) + [] == EncodeAll(conv, ps);
  }
}
