/** The window the peer announced, over runs of the 32-bit program with arbitrary input. */
module FlowControl {
  import opened Numbers
  import opened Wire
  import opened Fragments
  import opened Timers
  import opened Kcp
  import opened Invariants
  import opened Wraparound
  import opened Robustness
  import opened ZeroWindow

  /** The window field of the last segment accepted so far, or what a fresh block assumes. */
  function Announced(c: Config, calls: seq<Call>): nat
    requires c.mss > 0
  {
    if |calls| == 0 then 128
    else
      var front, last := calls[..|calls| - 1], calls[|calls| - 1];
      if last.CallInput? && |last.datagram| >= OVERHEAD && |Parse(c.conv, last.datagram).packets| > 0 then
        var ps := Parse(c.conv, last.datagram).packets;
        ps[|ps| - 1].wnd
      else Announced(c, front)
  }

  lemma InputWindow(cb: Cb, ps: seq<Packet>, code: int)
    requires cb.cfg.mss > 0
    ensures Input(Wrapped, cb, ps, code).rmtWnd == if |ps| > 0 then ps[|ps| - 1].wnd else cb.rmtWnd
  {
    hide AcceptUna, AcceptAck, SampleRtt;
    InputKeepsConfig(Wrapped, cb, ps);
  }

  lemma CallWindow(cb: Cb, call: Call)
    requires cb.cfg.mss > 0
    ensures Apply(cb, call).rmtWnd ==
      if call.CallInput? && |call.datagram| >= OVERHEAD && |Parse(cb.cfg.conv, call.datagram).packets| > 0 then
        var ps := Parse(cb.cfg.conv, call.datagram).packets;
        ps[|ps| - 1].wnd
      else cb.rmtWnd
  {
    hide Input, Recv, Parse, Advance, Send;
    if call.CallInput? {
      InputWindow(cb, Parse(cb.cfg.conv, call.datagram).packets, Parse(cb.cfg.conv, call.datagram).code);
    }
  }

  lemma {:induction false} WindowKnown(c: Config, calls: seq<Call>)
    requires c.mss > 0
    ensures Run(c, calls).rmtWnd == Announced(c, calls)
  {
    if |calls| > 0 {
      hide Apply, Parse;
      WindowKnown(c, calls[..|calls| - 1]);
      CallWindow(Run(c, calls[..|calls| - 1]), calls[|calls| - 1]);
    }
  }

  /** One 32-bit flush. */
  lemma FlushRespects32(cb: Cb)
    requires CbOk32(cb) && cb.clk.updated
    ensures var f := FlushState(Wrapped, cb); var room := Max(0, Min(cb.cfg.sndWnd, cb.rmtWnd) - Outstanding(cb));
      && |f.snd.queue| <= |cb.snd.queue| && f.snd.queue == cb.snd.queue[|cb.snd.queue| - |f.snd.queue|..]
      && Outstanding(f) == Outstanding(cb) + |cb.snd.queue| - |f.snd.queue|
      && (cb.cfg.nocwnd ==> |cb.snd.queue| - |f.snd.queue| == Min(|cb.snd.queue|, room))
      && (|f.snd.queue| < |cb.snd.queue| ==> Outstanding(f) <= cb.rmtWnd && Outstanding(f) <= cb.cfg.sndWnd)
  {
    hide CbOk, CbOk32, FlushState, Offset;
    LiftOk(cb);
    LiftBase(cb);
    var e := LiftCb(cb);
    FlushFillsWindow(e);
    FlushRespectsWindow(e);
    FlushWraps(e);
    FlushKeeps(e);
    WrapOk(e);
    WrapOk(FlushState(Unbounded, e));
  }

  /** One update: what it numbers, by the window known then. */
  lemma UpdateRespects(y: Cb, now: nat)
    requires CbOk32(y) && y.cfg.mss > 0
    ensures var z := Apply(y, CallUpdate(now)); var n := |y.snd.queue| - |z.snd.queue|;
      && n >= 0
      && (n > 0 ==> Outstanding(z) <= y.rmtWnd && Outstanding(z) <= y.cfg.sndWnd)
      && (y.cfg.nocwnd && Flushes(y, CallUpdate(now)) ==> n == Min(|y.snd.queue|, Max(0, Min(y.cfg.sndWnd, y.rmtWnd) - Outstanding(y))))
  {
    hide CbOk32, FlushState, Advance, Offset;
    TickKeeps32(y, U32(now));
    FlushRespects32(y.(clk := Advance(y.cfg.interval, y.clk, U32(now)).clk));
  }

  lemma RunMore(c: Config, calls: seq<Call>, call: Call)
    requires c.mss > 0
    ensures Run(c, calls + [call]) == Apply(Run(c, calls), call)
  {
    assert (calls + [call])[..|calls|] == calls;
  }

  /** In every run with arbitrary input, an update that numbers any fragment leaves no more
      outstanding than the window field of the last accepted segment, nor than snd_wnd. */
  lemma WindowRespected(c: Config, calls: seq<Call>, now: nat)
    requires ConfigOk(c)
    ensures var y, z := Run(c, calls), Run(c, calls + [CallUpdate(now)]);
      |z.snd.queue| < |y.snd.queue| ==> Outstanding(z) <= Announced(c, calls) && Outstanding(z) <= c.sndWnd
  {
    hide CbOk32, Apply, Run, Announced, Outstanding;
    ReachableOk(c, calls);
    WindowKnown(c, calls);
    UpdateRespects(Run(c, calls), now);
    RunMore(c, calls, CallUpdate(now));
  }

  /** And without a congestion window, as in the forwarders, a flush numbers all that they allow. */
  lemma WindowFilled(c: Config, calls: seq<Call>, now: nat)
    requires ConfigOk(c) && c.nocwnd && Flushes(Run(c, calls), CallUpdate(now))
    ensures var y, z := Run(c, calls), Run(c, calls + [CallUpdate(now)]);
      |y.snd.queue| - |z.snd.queue| == Min(|y.snd.queue|, Max(0, Min(c.sndWnd, Announced(c, calls)) - Outstanding(y)))
  {
    hide CbOk32, Apply, Run, Announced, Outstanding, Flushes;
    ReachableOk(c, calls);
    WindowKnown(c, calls);
    UpdateRespects(Run(c, calls), now);
    RunMore(c, calls, CallUpdate(now));
  }
}
