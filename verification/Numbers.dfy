/** The 32-bit arithmetic of the protocol engine, and the two ways of numbering segments.

    Sequence numbers live in IUINT32 and are compared through the signed difference
    _itimediff.  Every operation on sequence numbers is written once, over a Numbering:
    Wrapped is the arithmetic of the program, Unbounded the ideal one it stands for.
    Clock values always use the wrapping arithmetic. */
module Numbers {
  const TWO31: int := 0x8000_0000
  const TWO32: int := 0x1_0000_0000

  /** Conversion of an integer to IUINT32. */
  function U32(x: int): (r: nat)
    ensures r < TWO32
  {
    x % TWO32
  }

  /** Conversion of an IUINT32 to IINT32. */
  function S32(x: nat): (r: int)
    ensures -TWO31 <= r < TWO31
  {
    if U32(x) < TWO31 then U32(x) else U32(x) - TWO32
  }

  function TimeDiff(later: int, earlier: int): (d: int)
    ensures -TWO31 <= d < TWO31
  {
    S32(U32(later - earlier))
  }

  /** Division of an IINT32 by two, truncating toward zero as in C. */
  function HalfSigned(x: int): int {
    if x >= 0 then x / 2 else -((-x) / 2)
  }

  function Min(a: int, b: int): int { if a <= b then a else b }

  function Max(a: int, b: int): int { if a >= b then a else b }

  function Bound(lower: int, middle: int, upper: int): int {
    Min(Max(lower, middle), upper)
  }

  datatype Numbering = Unbounded | Wrapped

  function Diff(m: Numbering, a: nat, b: nat): int {
    if m.Unbounded? then a - b else TimeDiff(a, b)
  }

  function Plus(m: Numbering, a: nat, n: nat): nat {
    if m.Unbounded? then a + n else U32(a + n)
  }

  lemma Small(x: int)
    requires 0 <= x < TWO32
    ensures U32(x) == x
  {
  }

  /** A residue has exactly one representative in any window of 2^32 integers. */
  lemma ResidueUnique(a: int, b: int)
    requires U32(a) == U32(b) && -TWO32 < a - b < TWO32
    ensures a == b
  {
  }

  lemma U32Shift(a: int, b: int)
    ensures U32(U32(a) + b) == U32(a + b)
    ensures U32(U32(a) - U32(b)) == U32(a - b)
    ensures U32(a - U32(b)) == U32(a - b)
  {
    var qa, qb := a / TWO32, b / TWO32;
    assert a == qa * TWO32 + U32(a) && b == qb * TWO32 + U32(b);
    ModShift(U32(a) + b, qa);
    ModShift(U32(a) - U32(b), qa - qb);
    ModShift(a - U32(b), -qb);
  }

  lemma ModShift(x: int, k: int)
    ensures U32(x + k * TWO32) == U32(x)
  {
    var q := x / TWO32;
    assert x + k * TWO32 == (q + k) * TWO32 + x % TWO32;
  }

  /** The exactness of _itimediff: on the residues of two integers less than 2^31 apart it
      yields their true difference, and it does so for no other pair. */
  lemma TimeDiffExact(a: int, b: int)
    ensures TimeDiff(U32(a), U32(b)) == TimeDiff(a, b)
    ensures TimeDiff(a, b) == a - b <==> -TWO31 <= a - b < TWO31
  {
    U32Shift(a, b);
    var d := a - b;
    if 0 <= d < TWO31 {
      assert U32(d) == d;
    } else if -TWO31 <= d < 0 {
      ModShift(d, 1);
      assert U32(d) == d + TWO32;
    }
  }

  /** Reading a signed difference off a congruence. */
  lemma DiffIs(a: int, b: int, r: int, k: int)
    requires a - b == r + k * TWO32 && -TWO31 <= r < TWO31
    ensures TimeDiff(a, b) == r
  {
    ModShift(r, k);
    TimeDiffExact(r, 0);
  }
}
