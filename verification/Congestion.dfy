/** The congestion window: growth in ikcp_input, reduction in ikcp_flush. */
module Congestion {
  import opened Numbers

  const THRESH_MIN: nat := 2

  datatype Window = Window(cwnd: nat, incr: nat, ssthresh: nat)

  function Quotient(a: nat, b: nat): (q: nat)
    requires b > 0
    ensures q * b <= a < q * b + b
  {
    assert a == (a / b) * b + a % b;
    a / b
  }

  // ---- ikcp_input, after an advance of snd_una ----

  function SlowStart(mss: nat, w: Window): Window {
    w.(cwnd := U32(w.cwnd + 1), incr := U32(w.incr + mss))
  }

  function Avoidance(mss: nat, w: Window): Window
    requires mss > 0
  {
    var base := Max(w.incr, mss);
    var incr := U32(base + Quotient(U32(mss * mss), base) + mss / 16);
    w.(incr := incr, cwnd := if U32(U32(w.cwnd + 1) * mss) <= incr then Quotient(U32(incr + mss - 1), mss) else w.cwnd)
  }

  function Grow(mss: nat, rmtWnd: nat, w: Window): Window
    requires mss > 0
  {
    if w.cwnd >= rmtWnd then w
    else
      var g := if w.cwnd < w.ssthresh then SlowStart(mss, w) else Avoidance(mss, w);
      if g.cwnd > rmtWnd then g.(cwnd := rmtWnd, incr := U32(rmtWnd * mss)) else g
  }

  // ---- ikcp_flush ----

  function AfterFast(mss: nat, inflight: nat, resent: nat, w: Window): Window {
    var thresh := Max(inflight / 2, THRESH_MIN);
    var cwnd := U32(thresh + resent);
    Window(cwnd, U32(cwnd * mss), thresh)
  }

  function AfterLoss(mss: nat, cwnd: nat, w: Window): Window {
    Window(1, mss, Max(cwnd / 2, THRESH_MIN))
  }

  function AtLeastOne(mss: nat, w: Window): Window {
    if w.cwnd < 1 then w.(cwnd := 1, incr := mss) else w
  }

  function AfterFlush(mss: nat, change: bool, inflight: nat, resent: nat, lost: bool, cwnd: nat, w: Window): Window {
    var w1 := if change then AfterFast(mss, inflight, resent, w) else w;
    var w2 := if lost then AfterLoss(mss, cwnd, w1) else w1;
    AtLeastOne(mss, w2)
  }

  // ---- the invariant ----

  /** incr, the window in bytes, stays within one segment of cwnd segments. */
  predicate WindowOk(mss: nat, w: Window) {
    && w.ssthresh >= THRESH_MIN
    && (w.cwnd - 1) * mss < w.incr < (w.cwnd + 1) * mss
  }

  /** A bound on the window under which none of the 32-bit products overflows. */
  predicate Fits(mss: nat, limit: nat) {
    mss > 0 && mss * mss < TWO32 && (limit + 3) * mss < TWO32
  }

  lemma Scale(mss: nat, a: int, b: int)
    requires a <= b
    ensures a * mss <= b * mss
  {
    assert (b - a) * mss >= 0;
    assert b * mss == a * mss + (b - a) * mss;
  }

  lemma Step(mss: nat, a: int)
    ensures (a + 1) * mss == a * mss + mss
    ensures (a - 1) * mss == a * mss - mss
  {
  }

  lemma Below(mss: nat, a: int, b: int)
    requires mss > 0 && a * mss < b * mss
    ensures a < b
  {
    if a >= b {
      Scale(mss, b, a);
    }
  }

  /** Every product up to limit + 3 segments is exact. */
  lemma Product(mss: nat, limit: nat, a: nat)
    requires Fits(mss, limit) && a <= limit + 3
    ensures 0 <= a * mss < TWO32 && a <= a * mss
    ensures U32(a * mss) == a * mss && U32(a) == a
  {
    Scale(mss, a, limit + 3);
    Scale(a, 1, mss);
    assert a * mss == mss * a && 1 * a == a;
  }

  lemma SlowStartKeeps(mss: nat, limit: nat, w: Window)
    requires Fits(mss, limit) && WindowOk(mss, w) && w.cwnd < limit
    ensures var w' := SlowStart(mss, w); WindowOk(mss, w') && w'.cwnd == w.cwnd + 1 && w'.ssthresh == w.ssthresh
  {
    hide U32;
    var c := w.cwnd;
    Product(mss, limit, c + 1);
    Product(mss, limit, c + 2);
    Step(mss, c);
    Step(mss, c + 1);
    Small(w.incr + mss);
  }

  lemma Cancel(mss: nat, a: int, b: int)
    requires mss > 0 && a * mss <= b * mss
    ensures a <= b
  {
    Step(mss, b);
    if a > b {
      Scale(mss, b + 1, a);
    }
  }

  lemma QuotientBound(mss: nat, base: nat, q: nat)
    requires mss > 0 && q * base <= mss * mss
    ensures mss <= base ==> q <= mss
    ensures 2 * mss <= base ==> 2 * q <= mss
  {
    if mss <= base {
      Scale(q, mss, base);
      Cancel(mss, q, mss);
    }
    if 2 * mss <= base {
      Scale(q, 2 * mss, base);
      assert (2 * q) * mss == (2 * mss) * q;
      Cancel(mss, 2 * q, mss);
    }
  }

  /** The byte window grows by less than two segments. */
  lemma AvoidanceStep(mss: nat, c: nat, base: nat)
    requires mss > 0 && c >= 2 && mss <= base < (c + 1) * mss
    ensures base + Quotient(mss * mss, base) + mss / 16 <= (c + 2) * mss
  {
    QuotientBound(mss, base, Quotient(mss * mss, base));
    Step(mss, c + 1);
    Step(mss, c);
    Scale(mss, 2, c);
  }

  /** The new window after the byte window became incr. */
  lemma CeilKeeps(mss: nat, c: nat, incr: nat)
    requires mss > 0 && (c + 1) * mss <= incr <= (c + 2) * mss
    ensures var n := Quotient(incr + mss - 1, mss); c + 1 <= n <= c + 2 && (n - 1) * mss < incr <= n * mss
  {
    var n := Quotient(incr + mss - 1, mss);
    Step(mss, n);
    Step(mss, c + 2);
    Below(mss, n, c + 3);
    Below(mss, c, n);
    Step(mss, c);
  }

  lemma AvoidanceExact(mss: nat, limit: nat, w: Window)
    requires Fits(mss, limit) && w.cwnd < limit
    requires w.incr >= mss && w.incr + Quotient(mss * mss, w.incr) + mss / 16 <= (w.cwnd + 2) * mss
    ensures var incr := w.incr + Quotient(mss * mss, w.incr) + mss / 16;
      Avoidance(mss, w)
      == w.(incr := incr, cwnd := if (w.cwnd + 1) * mss <= incr then Quotient(incr + mss - 1, mss) else w.cwnd)
  {
    hide U32;
    var square := mss * mss;
    Small(square);
    Product(mss, limit, w.cwnd + 1);
    Product(mss, limit, w.cwnd + 3);
    Step(mss, w.cwnd + 2);
    Small(w.cwnd + 1);
    var incr := w.incr + Quotient(square, w.incr) + mss / 16;
    Small(incr);
    Small(incr + mss - 1);
  }

  lemma AvoidanceKeeps(mss: nat, limit: nat, w: Window)
    requires Fits(mss, limit) && WindowOk(mss, w) && w.ssthresh <= w.cwnd < limit
    ensures var w' := Avoidance(mss, w);
      WindowOk(mss, w') && w.cwnd <= w'.cwnd <= w.cwnd + 2 && w'.ssthresh == w.ssthresh
  {
    hide U32, Avoidance, Quotient;
    var c := w.cwnd;
    Scale(mss, 1, c - 1);
    AvoidanceStep(mss, c, w.incr);
    AvoidanceExact(mss, limit, w);
    var incr := w.incr + Quotient(mss * mss, w.incr) + mss / 16;
    if (c + 1) * mss <= incr {
      CeilKeeps(mss, c, incr);
      Step(mss, Quotient(incr + mss - 1, mss));
    }
  }

  /** A window of exactly c segments. */
  lemma Exact(mss: nat, c: nat)
    requires mss > 0
    ensures (c - 1) * mss < c * mss < (c + 1) * mss
  {
    Step(mss, c);
  }

  /** One ikcp_input keeps the invariant and opens the window by at most one segment in slow
      start, at most two in congestion avoidance, and never beyond the peer's window. */
  lemma GrowKeeps(mss: nat, limit: nat, rmtWnd: nat, w: Window)
    requires Fits(mss, limit) && WindowOk(mss, w) && w.cwnd <= limit && rmtWnd <= limit
    ensures var w' := Grow(mss, rmtWnd, w);
      && WindowOk(mss, w') && w'.cwnd <= limit
      && w.cwnd <= w'.cwnd <= w.cwnd + (if w.cwnd < w.ssthresh then 1 else 2)
      && w'.cwnd <= Max(w.cwnd, rmtWnd)
  {
    if w.cwnd < rmtWnd {
      var g := if w.cwnd < w.ssthresh then SlowStart(mss, w) else Avoidance(mss, w);
      if w.cwnd < w.ssthresh {
        SlowStartKeeps(mss, limit, w);
      } else {
        AvoidanceKeeps(mss, limit, w);
      }
      assert WindowOk(mss, g);
      if g.cwnd > rmtWnd {
        Product(mss, limit, rmtWnd);
        Exact(mss, rmtWnd);
      }
    }
  }

  /** What an acknowledging input does in congestion avoidance: the byte window gains
      mss*mss/incr + mss/16; once it is a whole segment ahead of the window, the window follows it,
      rounded up, as far as the peer's. */
  predicate Opened(mss: nat, rmtWnd: nat, w: Window, w': Window)
    requires mss > 0 && w.incr > 0
  {
    var incr := w.incr + Quotient(mss * mss, w.incr) + mss / 16;
    if incr < (w.cwnd + 1) * mss then w' == w.(incr := incr)
    else
      && w.cwnd < w'.cwnd <= rmtWnd && w'.ssthresh == w.ssthresh
      && (w'.cwnd < rmtWnd ==> w'.incr == incr && (w'.cwnd - 1) * mss < incr <= w'.cwnd * mss)
  }

  lemma BytesPositive(mss: nat, w: Window)
    requires mss > 0 && WindowOk(mss, w) && w.cwnd >= 1
    ensures w.incr > 0
  {
    Scale(mss, 0, w.cwnd - 1);
  }

  /** And how much it opens: not at all while the peer's window is reached, by exactly one segment
      in slow start, and as said above in congestion avoidance. */
  lemma GrowOpens(mss: nat, limit: nat, rmtWnd: nat, w: Window)
    requires Fits(mss, limit) && WindowOk(mss, w) && w.cwnd <= limit && rmtWnd <= limit
    ensures var w' := Grow(mss, rmtWnd, w);
      && (w.cwnd >= rmtWnd ==> w' == w)
      && (w.cwnd < rmtWnd && w.cwnd < w.ssthresh ==> w' == Window(w.cwnd + 1, w.incr + mss, w.ssthresh))
      && (w.cwnd < rmtWnd && w.cwnd >= w.ssthresh ==> w.incr > 0 && Opened(mss, rmtWnd, w, w'))
  {
    hide Avoidance, SlowStart, Opened, WindowOk, U32;
    if w.cwnd < rmtWnd {
      if w.cwnd < w.ssthresh {
        SlowStartExact(mss, limit, w);
      } else {
        AvoidanceOpens(mss, limit, rmtWnd, w);
        CappedOpens(mss, rmtWnd, w, Avoidance(mss, w), Grow(mss, rmtWnd, w));
      }
    }
  }

  lemma SlowStartExact(mss: nat, limit: nat, w: Window)
    requires Fits(mss, limit) && WindowOk(mss, w) && w.cwnd < limit
    ensures SlowStart(mss, w) == Window(w.cwnd + 1, w.incr + mss, w.ssthresh)
  {
    hide U32;
    Product(mss, limit, w.cwnd + 1);
    Product(mss, limit, w.cwnd + 2);
    Step(mss, w.cwnd + 1);
    Small(w.incr + mss);
  }

  lemma AvoidanceOpens(mss: nat, limit: nat, rmtWnd: nat, w: Window)
    requires Fits(mss, limit) && WindowOk(mss, w) && w.ssthresh <= w.cwnd < limit
    ensures w.incr > 0 && Opened(mss, Max(rmtWnd, Avoidance(mss, w).cwnd + 1), w, Avoidance(mss, w))
  {
    hide U32, Avoidance, Quotient;
    var c := w.cwnd;
    BytesPositive(mss, w);
    Scale(mss, 1, c - 1);
    AvoidanceStep(mss, c, w.incr);
    AvoidanceExact(mss, limit, w);
    var incr := w.incr + Quotient(mss * mss, w.incr) + mss / 16;
    if (c + 1) * mss <= incr {
      CeilKeeps(mss, c, incr);
    }
  }

  lemma CappedOpens(mss: nat, rmtWnd: nat, w: Window, g: Window, w': Window)
    requires mss > 0 && w.incr > 0 && w.cwnd < rmtWnd && Opened(mss, Max(rmtWnd, g.cwnd + 1), w, g)
    requires w' == if g.cwnd > rmtWnd then w'.(cwnd := rmtWnd, ssthresh := g.ssthresh) else g
    ensures Opened(mss, rmtWnd, w, w')
  {
    hide Quotient;
  }

  function GrowAll(mss: nat, rmtWnd: nat, w: Window, n: nat): Window
    requires mss > 0
  {
    if n == 0 then w else Grow(mss, rmtWnd, GrowAll(mss, rmtWnd, w, n - 1))
  }

  lemma OpenedGains(mss: nat, rmtWnd: nat, u: Window, v: Window)
    requires mss > 0 && u.incr > 0 && Opened(mss, rmtWnd, u, v)
    ensures v.cwnd > u.cwnd || (v.cwnd == u.cwnd && v.ssthresh == u.ssthresh && v.incr >= u.incr + mss / 16)
  {
    hide Quotient;
  }

  lemma {:induction false} GrowGains(mss: nat, limit: nat, rmtWnd: nat, w: Window, n: nat)
    requires Fits(mss, limit) && WindowOk(mss, w) && w.ssthresh <= w.cwnd < rmtWnd <= limit
    ensures var v := GrowAll(mss, rmtWnd, w, n);
      && WindowOk(mss, v) && v.cwnd <= rmtWnd
      && (v.cwnd > w.cwnd || (v.cwnd == w.cwnd && v.ssthresh == w.ssthresh && v.incr >= w.incr + n * (mss / 16)))
  {
    if n > 0 {
      hide Grow, WindowOk, Opened, Fits;
      assert mss > 0 by { MssFits(mss, limit); }
      GrowGains(mss, limit, rmtWnd, w, n - 1);
      var u := GrowAll(mss, rmtWnd, w, n - 1);
      GrowKeeps(mss, limit, rmtWnd, u);
      if u.cwnd == w.cwnd {
        GrowOpens(mss, limit, rmtWnd, u);
        OpenedGains(mss, rmtWnd, u, Grow(mss, rmtWnd, u));
        Step(mss / 16, n - 1);
      }
    }
  }

  lemma MssFits(mss: nat, limit: nat)
    requires Fits(mss, limit)
    ensures mss > 0
  {
  }

  /** In congestion avoidance below the peer's window, the window opens within any n acknowledging
      inputs for which n * (mss / 16) makes two segments: 32 with the forwarders' mss. */
  lemma AvoidanceOpensWithin(mss: nat, limit: nat, rmtWnd: nat, w: Window, n: nat)
    requires Fits(mss, limit) && WindowOk(mss, w) && w.ssthresh <= w.cwnd < rmtWnd <= limit
    requires n * (mss / 16) >= 2 * mss
    ensures GrowAll(mss, rmtWnd, w, n).cwnd > w.cwnd
  {
    hide GrowAll;
    GrowGains(mss, limit, rmtWnd, w, n);
    Step(mss, w.cwnd);
    Step(mss, w.cwnd + 1);
  }

  lemma AfterFastKeeps(mss: nat, limit: nat, inflight: nat, resent: nat, w: Window)
    requires Fits(mss, limit) && U32(Max(inflight / 2, THRESH_MIN) + resent) <= limit
    ensures var w' := AfterFast(mss, inflight, resent, w); WindowOk(mss, w') && w'.cwnd <= limit
  {
    hide U32;
    var c := U32(Max(inflight / 2, THRESH_MIN) + resent);
    Product(mss, limit, c);
    Exact(mss, c);
  }

  /** A flush keeps the invariant whatever it found lost or skipped. */
  lemma AfterFlushKeeps(mss: nat, limit: nat, change: bool, inflight: nat, resent: nat, lost: bool, cwnd: nat, w: Window)
    requires Fits(mss, limit) && WindowOk(mss, w) && 1 <= limit && w.cwnd <= limit
    requires change ==> U32(Max(inflight / 2, THRESH_MIN) + resent) <= limit
    ensures var w' := AfterFlush(mss, change, inflight, resent, lost, cwnd, w);
      WindowOk(mss, w') && 1 <= w'.cwnd <= limit
  {
    Exact(mss, 1);
    assert 1 * mss == mss;
    if change {
      AfterFastKeeps(mss, limit, inflight, resent, w);
    }
  }
}
