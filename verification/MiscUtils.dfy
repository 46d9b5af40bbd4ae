/** The obfuscation layer both forwarders put around the engine: a constant XOR over the
    bytes, in place, and an optional one-byte XOR checksum in front of the result. */
module MiscUtils {
  import opened Wire

  const KEY: Byte := 0xA5

  datatype Option<+T> = None | Some(value: T)

  // ---- exclusive or on bytes ----

  /** Exclusive or of the n low-order bits. */
  function XorBits(a: nat, b: nat, n: nat): nat {
    if n == 0 then 0 else (if a % 2 != b % 2 then 1 else 0) + 2 * XorBits(a / 2, b / 2, n - 1)
  }

  function Xor(a: Byte, b: Byte): Byte {
    XorBound(a, b, 8);
    XorBits(a, b, 8)
  }

  function Pow2(n: nat): nat { if n == 0 then 1 else 2 * Pow2(n - 1) }

  lemma {:induction false} XorBound(a: nat, b: nat, n: nat)
    ensures XorBits(a, b, n) < Pow2(n)
    ensures Pow2(8) == 256
  {
    assert Pow2(8) == 2 * 2 * 2 * 2 * Pow2(4);
    if n > 0 {
      XorBound(a / 2, b / 2, n - 1);
    }
  }

  lemma {:induction false} XorBitsGroup(a: nat, b: nat, c: nat, n: nat)
    requires a < Pow2(n) && b < Pow2(n)
    ensures XorBits(a, b, n) == XorBits(b, a, n)
    ensures XorBits(XorBits(a, b, n), c, n) == XorBits(a, XorBits(b, c, n), n)
    ensures XorBits(XorBits(a, b, n), b, n) == a
    ensures XorBits(a, b, n) == 0 <==> a == b
  {
    if n > 0 {
      XorBitsGroup(a / 2, b / 2, c / 2, n - 1);
      XorHalves(a, b, n);
      XorHalves(b, c, n);
    }
  }

  /** The low bit and the others. */
  lemma XorHalves(a: nat, b: nat, n: nat)
    requires n > 0
    ensures XorBits(a, b, n) / 2 == XorBits(a / 2, b / 2, n - 1)
    ensures XorBits(a, b, n) % 2 == if a % 2 != b % 2 then 1 else 0
  {
  }

  /** Exclusive or is a commutative group operation in which each byte is its own inverse. */
  lemma XorGroup(a: Byte, b: Byte, c: Byte)
    ensures Xor(a, b) == Xor(b, a)
    ensures Xor(Xor(a, b), c) == Xor(a, Xor(b, c))
    ensures Xor(Xor(a, b), b) == a
    ensures Xor(a, b) == 0 <==> a == b
  {
    XorBound(a, b, 8);
    XorBitsGroup(a, b, c, 8);
  }

  /** Bit k of x. */
  function Bit(x: nat, k: nat): nat { if k == 0 then x % 2 else Bit(x / 2, k - 1) }

  /** Bit by bit: one where the two differ. */
  lemma {:induction false} XorBit(a: nat, b: nat, n: nat, k: nat)
    requires k < n
    ensures Bit(XorBits(a, b, n), k) == if Bit(a, k) != Bit(b, k) then 1 else 0
  {
    XorHalves(a, b, n);
    if k > 0 {
      XorBit(a / 2, b / 2, n - 1, k - 1);
    }
  }

  // ---- datagrams ----

  function Encrypted(d: Bytes): (r: Bytes)
    ensures |r| == |d|
  {
    seq(|d|, i requires 0 <= i < |d| => Xor(d[i], KEY))
  }

  function XorAll(d: Bytes): Byte {
    if |d| == 0 then 0 else Xor(XorAll(d[..|d| - 1]), d[|d| - 1])
  }

  /** What the output callback hands to the socket for a buffer holding d. */
  function Seal(checksum: bool, d: Bytes): Bytes {
    var e := Encrypted(d);
    if checksum then [XorAll(e)] + e else e
  }

  /** What the feed loop hands to ikcp_input for a received datagram; None is "dropped". */
  function Open(checksum: bool, w: Bytes): Option<Bytes> {
    if !checksum then Some(Encrypted(w))
    else if |w| > 1 && XorAll(w[1..]) == w[0] then Some(Encrypted(w[1..]))
    else None
  }

  /** In place, on len bytes at offset from (the pointer the caller passes). */
  method Encrypt(buf: array<Byte>, from: nat, len: nat)
    requires from + len <= buf.Length
    modifies buf
    ensures buf[from..from + len] == Encrypted(old(buf[from..from + len]))
    ensures forall k :: from <= k < from + len ==> Xor(old(buf[k]), buf[k]) == 0xA5 && buf[k] != old(buf[k])
    ensures buf[..from] == old(buf[..from]) && buf[from + len..] == old(buf[from + len..])
  {
    for i := from to from + len
      invariant forall k :: from <= k < i ==> buf[k] == Xor(old(buf[k]), KEY)
      invariant forall k :: 0 <= k < from || i <= k < buf.Length ==> buf[k] == old(buf[k])
    {
      buf[i] := Xor(buf[i], KEY);
    }
    forall k | from <= k < from + len ensures Xor(old(buf[k]), buf[k]) == 0xA5 && buf[k] != old(buf[k]) {
      KeyBetween(old(buf[k]));
    }
  }

  lemma KeyBetween(b: Byte)
    ensures Xor(b, Xor(b, KEY)) == 0xA5 && Xor(b, KEY) != b
  {
    XorGroup(KEY, b, b);
    XorGroup(b, KEY, b);
    XorGroup(b, b, 0);
  }

  /** Every byte is changed, and in exactly the bits of 0xA5. */
  lemma EncryptedBits(d: Bytes, i: nat)
    requires i < |d|
    ensures Encrypted(d)[i] != d[i] && Xor(d[i], Encrypted(d)[i]) == 0xA5
    ensures forall k: nat :: k < 8 ==> (Bit(Encrypted(d)[i], k) != Bit(d[i], k) <==> k in {0, 2, 5, 7})
  {
    KeyBetween(d[i]);
    forall k: nat | k < 8 ensures Bit(Encrypted(d)[i], k) != Bit(d[i], k) <==> k in {0, 2, 5, 7} {
      XorBit(d[i], KEY, 8, k);
      BitIs(d[i], k);
      KeyBit(k);
    }
  }

  lemma {:induction false} BitIs(x: nat, k: nat)
    ensures Bit(x, k) == 0 || Bit(x, k) == 1
  {
    if k > 0 {
      BitIs(x / 2, k - 1);
    }
  }

  lemma KeyBit(k: nat)
    requires k < 8
    ensures Bit(KEY, k) == if k in {0, 2, 5, 7} then 1 else 0
  {
    assert Bit(0xA5, 0) == 1 && Bit(0x52, 0) == 0 && Bit(0x29, 0) == 1 && Bit(0x14, 0) == 0;
    assert Bit(0x0A, 0) == 0 && Bit(0x05, 0) == 1 && Bit(0x02, 0) == 0 && Bit(0x01, 0) == 1;
    assert Bit(KEY, 1) == Bit(0x52, 0) && Bit(KEY, 2) == Bit(0x52, 1) == Bit(0x29, 0);
    assert Bit(KEY, 3) == Bit(0x52, 2) == Bit(0x29, 1) == Bit(0x14, 0);
    assert Bit(KEY, 4) == Bit(0x52, 3) == Bit(0x29, 2) == Bit(0x14, 1) == Bit(0x0A, 0);
    assert Bit(KEY, 5) == Bit(0x52, 4) == Bit(0x29, 3) == Bit(0x14, 2) == Bit(0x0A, 1) == Bit(0x05, 0);
    assert Bit(KEY, 6) == Bit(0x52, 5) == Bit(0x29, 4) == Bit(0x14, 3) == Bit(0x0A, 2) == Bit(0x05, 1) == Bit(0x02, 0);
    assert Bit(KEY, 7) == Bit(0x52, 6) == Bit(0x29, 5) == Bit(0x14, 4) == Bit(0x0A, 3) == Bit(0x05, 2) == Bit(0x02, 1) == Bit(0x01, 0);
  }

  /** How many bytes have bit k set. */
  function Ones(d: Bytes, k: nat): nat {
    if |d| == 0 then 0 else Ones(d[..|d| - 1], k) + Bit(d[|d| - 1], k)
  }

  /** The checksum is the parity of each bit. */
  lemma {:induction false} XorAllParity(d: Bytes, k: nat)
    requires k < 8
    ensures Bit(XorAll(d), k) == Ones(d, k) % 2
  {
    if |d| == 0 {
      ZeroBit(k);
    } else {
      var front, last := d[..|d| - 1], d[|d| - 1];
      XorAllParity(front, k);
      XorBit(XorAll(front), last, 8, k);
      BitIs(last, k);
    }
  }

  lemma {:induction false} ZeroBit(k: nat)
    ensures Bit(0, k) == 0
  {
    if k > 0 {
      ZeroBit(k - 1);
    }
  }

  method XorCheck(buf: array<Byte>, from: nat, len: nat) returns (result: Byte)
    requires from + len <= buf.Length
    ensures result == XorAll(buf[from..from + len])
  {
    result := 0;
    for i := 0 to len
      invariant result == XorAll(buf[from..from + i])
    {
      assert buf[from..from + i + 1][..i] == buf[from..from + i];
      result := Xor(result, buf[from + i]);
    }
  }

  lemma EncryptedTwice(d: Bytes)
    ensures Encrypted(Encrypted(d)) == d
  {
    forall i | 0 <= i < |d| ensures Encrypted(Encrypted(d))[i] == d[i] {
      XorGroup(d[i], KEY, 0);
    }
  }

  /** Every datagram the engine emits reaches the peer's ikcp_input unchanged. */
  lemma OpenSeal(checksum: bool, d: Bytes)
    requires |d| > 0
    ensures Open(checksum, Seal(checksum, d)) == Some(d)
  {
    EncryptedTwice(d);
    var e := Encrypted(d);
    assert ([XorAll(e)] + e)[1..] == e;
  }

  /** The datagram byte by byte: with the checksum compiled in it comes first, and is the parity of
      each bit over the cipher bytes that follow. */
  lemma SealedBytes(checksum: bool, d: Bytes)
    ensures var w := Seal(checksum, d); var at := if checksum then 1 else 0;
      && |w| == at + |d|
      && Ciphered(d, w[at..])
      && (checksum ==> forall k: nat :: k < 8 ==> Bit(w[0], k) == Ones(w[1..], k) % 2)
  {
    hide Xor, XorAll, Bit, Ones, Ciphered;
    var e := Encrypted(d);
    EncryptedCiphers(d);
    if checksum {
      assert Seal(checksum, d)[1..] == e;
      forall k: nat | k < 8 ensures Bit(XorAll(e), k) == Ones(e, k) % 2 {
        XorAllParity(e, k);
      }
    } else {
      assert e[0..] == e;
    }
  }

  /** Each byte differs from the plain one in exactly the bits of 0xA5. */
  predicate Ciphered(d: Bytes, e: Bytes) {
    |e| == |d| && forall i :: 0 <= i < |d| ==> Xor(d[i], e[i]) == 0xA5
  }

  lemma EncryptedCiphers(d: Bytes)
    ensures Ciphered(d, Encrypted(d))
  {
    hide Xor;
    forall i | 0 <= i < |d| ensures Xor(d[i], Encrypted(d)[i]) == 0xA5 {
      KeyBetween(d[i]);
    }
  }

  /** (x ^ a) ^ b in either order. */
  lemma XorSwap(x: Byte, a: Byte, b: Byte)
    ensures Xor(Xor(x, a), b) == Xor(Xor(x, b), a)
  {
    XorGroup(x, a, b);
    XorGroup(x, b, a);
    XorGroup(a, b, 0);
  }

  /** Replacing one byte changes the checksum by the difference of the two bytes. */
  lemma {:induction false} XorAllUpdate(d: Bytes, i: nat, b: Byte)
    requires i < |d|
    ensures XorAll(d[i := b]) == Xor(XorAll(d), Xor(d[i], b))
  {
    var n := |d| - 1;
    var d' := d[i := b];
    var x := XorAll(d[..n]);
    if i == n {
      assert d'[..n] == d[..n];
      XorGroup(Xor(x, d[n]), d[n], b);
      XorGroup(x, d[n], 0);
    } else {
      assert d'[..n] == d[..n][i := b];
      XorAllUpdate(d[..n], i, b);
      XorSwap(x, Xor(d[i], b), d[n]);
    }
  }

  /** With the checksum compiled in, altering any one byte of a datagram gets it dropped. */
  lemma CorruptionDetected(d: Bytes, i: nat, b: Byte)
    requires var w := Seal(true, d); |d| > 0 && i < |w| && b != w[i]
    ensures Open(true, Seal(true, d)[i := b]) == None
  {
    var e := Encrypted(d);
    var w := [XorAll(e)] + e;
    var w' := w[i := b];
    if i == 0 {
      assert w'[1..] == e;
    } else {
      assert w'[1..] == e[i - 1 := b];
      XorAllUpdate(e, i - 1, b);
      var delta := Xor(e[i - 1], b);
      XorGroup(e[i - 1], b, 0);
      XorGroup(delta, XorAll(e), 0);
      XorGroup(XorAll(e), delta, 0);
      XorGroup(XorAll(e), XorAll(e), 0);
      XorGroup(Xor(XorAll(e), delta), XorAll(e), 0);
    }
  }
}
