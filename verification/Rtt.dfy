/** Round-trip estimation (ikcp_update_ack): the update of section 2 of RFC 6298 in integer
    arithmetic. */
module RttEstimation {
  import opened Numbers

  const RTO_DEF: nat := 200
  const RTO_MAX: nat := 60000

  datatype Rtt = Rtt(srtt: int, rttval: int, rto: nat)

  /** Integer division of C, which truncates toward zero. */
  function TruncDiv(a: int, n: nat): int
    requires n > 0
  {
    if a >= 0 then a / n else -((-a) / n)
  }

  function Abs(x: int): nat { if x < 0 then -x else x }

  function UpdateAck(interval: nat, minrto: nat, r: Rtt, rtt: int): Rtt {
    var rttval := if r.srtt == 0 then HalfSigned(rtt) else TruncDiv(3 * r.rttval + Abs(rtt - r.srtt), 4);
    var srtt := if r.srtt == 0 then rtt else Max(TruncDiv(7 * r.srtt + rtt, 8), 1);
    Rtt(srtt, rttval, Bound(minrto, U32(srtt + Max(interval, U32(4 * rttval))), RTO_MAX))
  }

  function UpdateAll(interval: nat, minrto: nat, r: Rtt, samples: seq<int>): Rtt {
    if |samples| == 0 then r
    else UpdateAck(interval, minrto, UpdateAll(interval, minrto, r, samples[..|samples| - 1]), samples[|samples| - 1])
  }

  predicate InRange(r: Rtt, lo: int, hi: int) {
    lo <= r.srtt <= hi && 0 <= r.rttval <= hi
  }

  /** The values every step of the C code computes fit an IINT32. */
  predicate NoOverflow(interval: nat, r: Rtt, rtt: int) {
    && -TWO31 <= 7 * r.srtt + rtt < TWO31
    && -TWO31 <= 3 * r.rttval + Abs(rtt - r.srtt) < TWO31
    && -TWO31 <= 4 * r.rttval < TWO31
    && -TWO31 <= r.srtt + Max(interval, 4 * r.rttval) < TWO31
  }

  lemma EstimateBounds(interval: nat, minrto: nat, r: Rtt, rtt: int, lo: nat, hi: nat)
    requires 0 <= lo <= rtt <= hi && hi >= 1
    requires InRange(r, 0, hi) && (r.srtt == 0 || lo <= r.srtt)
    ensures InRange(UpdateAck(interval, minrto, r, rtt), lo, hi)
  {
    if r.srtt > 0 {
      assert 0 <= 3 * r.rttval + Abs(rtt - r.srtt) <= 4 * hi;
      assert 8 * lo <= 7 * r.srtt + rtt <= 8 * hi;
    }
  }

  lemma TimeoutExact(interval: nat, minrto: nat, srtt: nat, rttval: nat)
    requires srtt < 0x1000_0000 && rttval < 0x1000_0000 && interval <= 5000
    ensures Bound(minrto, U32(srtt + Max(interval, U32(4 * rttval))), RTO_MAX)
      == Bound(minrto, srtt + Max(interval, 4 * rttval), RTO_MAX)
  {
    assert U32(4 * rttval) == 4 * rttval;
    var t := srtt + Max(interval, 4 * rttval);
    assert 0 <= t < TWO32;
  }

  lemma StepBounds(interval: nat, minrto: nat, r: Rtt, rtt: int, lo: nat, hi: nat)
    requires 0 <= lo <= rtt <= hi < 0x1000_0000 && hi >= 1 && interval <= 5000
    requires InRange(r, 0, hi) && (r.srtt == 0 || lo <= r.srtt)
    ensures var r' := UpdateAck(interval, minrto, r, rtt);
      && InRange(r', lo, hi)
      && NoOverflow(interval, r, rtt) && NoOverflow(interval, r', rtt)
      && r'.rto == Bound(minrto, r'.srtt + Max(interval, 4 * r'.rttval), RTO_MAX)
  {
    var r' := UpdateAck(interval, minrto, r, rtt);
    EstimateBounds(interval, minrto, r, rtt, lo, hi);
    TimeoutExact(interval, minrto, r'.srtt, r'.rttval);
  }

  /** Over any run of samples in [lo, hi], the estimates stay in range, the smoothed value
      stays between the smallest and the largest sample (or 1), no step overflows, and the
      timeout is the RFC's clamped to [minrto, 60000]. */
  lemma {:induction false} RunBounds(interval: nat, minrto: nat, samples: seq<int>, lo: nat, hi: nat)
    requires hi < 0x1000_0000 && hi >= 1 && interval <= 5000 && minrto <= 60000
    requires forall i :: 0 <= i < |samples| ==> lo <= samples[i] <= hi
    ensures var r := UpdateAll(interval, minrto, Rtt(0, 0, 200), samples);
      && InRange(r, 0, hi)
      && (|samples| > 0 ==>
            && InRange(r, lo, hi)
            && minrto <= r.rto <= 60000
            && r.rto == Bound(minrto, r.srtt + Max(interval, 4 * r.rttval), 60000)
            && NoOverflow(interval, UpdateAll(interval, minrto, Rtt(0, 0, 200), samples[..|samples| - 1]), samples[|samples| - 1]))
  {
    hide UpdateAck, NoOverflow;
    if |samples| > 0 {
      var n := |samples| - 1;
      var front := samples[..n];
      RunBounds(interval, minrto, front, lo, hi);
      var r := UpdateAll(interval, minrto, Rtt(0, 0, RTO_DEF), front);
      assert |front| == 0 ==> r == Rtt(0, 0, RTO_DEF);
      StepBounds(interval, minrto, r, samples[n], lo, hi);
    }
  }

  /** RTTVAR <- 3/4 RTTVAR + 1/4 |SRTT - R| and SRTT <- 7/8 SRTT + 1/8 R, rounded down, with
      SRTT kept at 1 or more; the first sample, and any that follows a zero SRTT, starts over
      with SRTT = R and RTTVAR = R/2. */
  lemma FollowsRfc(interval: nat, minrto: nat, r: Rtt, rtt: nat)
    requires r.srtt >= 0 && r.rttval >= 0
    ensures var r' := UpdateAck(interval, minrto, r, rtt);
      var rttvar := 0.75 * (r.rttval as real) + 0.25 * (Abs(r.srtt - rtt) as real);
      var srtt := 0.875 * (r.srtt as real) + 0.125 * (rtt as real);
      && (r.srtt > 0 ==> r'.rttval as real <= rttvar < r'.rttval as real + 1.0)
      && (r.srtt > 0 && srtt >= 1.0 ==> r'.srtt as real <= srtt < r'.srtt as real + 1.0)
      && (r.srtt > 0 && srtt < 1.0 ==> r'.srtt == 1)
      && (r.srtt == 0 ==> r'.srtt == rtt && r'.rttval == rtt / 2)
  {
    if r.srtt > 0 {
      var a, b := 3 * r.rttval + Abs(rtt - r.srtt), 7 * r.srtt + rtt;
      assert a == 4 * (a / 4) + a % 4 && b == 8 * (b / 8) + b % 8;
      assert 4.0 * (0.75 * (r.rttval as real) + 0.25 * (Abs(r.srtt - rtt) as real)) == a as real;
      assert 8.0 * (0.875 * (r.srtt as real) + 0.125 * (rtt as real)) == b as real;
    }
  }
}
