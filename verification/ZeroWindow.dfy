/** Recovery from a closed window: a request to announce the window survives until the next
    flush, which then emits a WINS; delivering it tells the sender the free space. */
module ZeroWindow {
  import opened Numbers
  import opened Wire
  import opened SendWindow
  import opened ReceiveWindow
  import opened Fragments
  import opened Timers
  import opened Packing
  import opened Transmission
  import opened Kcp
  import opened Invariants
  import opened Delivery
  import opened Robustness

  // ---- raising the request ----

  lemma {:induction false} WaskRequests(m: Numbering, cb: Cb, ps: seq<Packet>)
    ensures InputPackets(m, cb, ps).probe.tell <==> cb.probe.tell || exists p :: p in ps && p.cmd == CMD_WASK
    ensures InputPackets(m, cb, ps).probe.ask == cb.probe.ask
  {
    hide InputPacket;
    if |ps| > 0 {
      var n := |ps| - 1;
      WaskRequests(m, cb, ps[..n]);
      WaskRaises(m, InputPackets(m, cb, ps[..n]), ps[n]);
      assert forall p :: p in ps <==> p in ps[..n] || p == ps[n];
    }
  }

  lemma WaskRaises(m: Numbering, cb: Cb, p: Packet)
    ensures var r := InputPacket(m, cb, p).probe;
      r.ask == cb.probe.ask && (r.tell <==> cb.probe.tell || p.cmd == CMD_WASK)
  {
    hide AcceptUna, AcceptAck, SampleRtt, AcceptPush;
  }

  /** A datagram with a WASK in it raises the request, even one whose tail is malformed. */
  lemma WaskDatagram(m: Numbering, cb: Cb, ps: seq<Packet>, code: int)
    requires cb.cfg.mss > 0
    ensures Input(m, cb, ps, code).probe.tell <==> cb.probe.tell || exists p :: p in ps && p.cmd == CMD_WASK
  {
    hide InputPackets, LargestAck;
    WaskRequests(m, cb, ps);
    InputKeepsConfig(m, cb, ps);
  }

  /** ikcp_recv raises it exactly when the call turned a full rcv_queue into one with room,
      waiting segments having moved up already. */
  lemma RecvRequests(m: Numbering, cb: Cb, len: int)
    ensures var r := RecvOn(m, cb, len);
      var reopened := r.code >= 0 && |cb.rcv.queue| >= cb.cfg.rcvWnd && |r.cb.rcv.queue| < cb.cfg.rcvWnd;
      r.cb.probe.tell <==> cb.probe.tell || reopened
  {
    hide Take, MessageEnd;
    MergeLength(cb.rcv.queue);
  }

  // ---- whole runs of calls ----

  /** The call is an ikcp_update that flushes. */
  predicate Flushes(cb: Cb, call: Call) {
    call.CallUpdate? && Advance(cb.cfg.interval, cb.clk, U32(call.now)).flush
  }

  /** The call gives a reason to announce the window: a datagram that carries a WASK, or an
      ikcp_recv that finds rcv_queue full and leaves room in it. */
  predicate Requests(cb: Cb, call: Call)
    requires cb.cfg.mss > 0
  {
    match call
    case CallInput(d) => |d| >= OVERHEAD && exists p :: p in Parse(cb.cfg.conv, d).packets && p.cmd == CMD_WASK
    case CallRecv(_) => |cb.rcv.queue| >= cb.cfg.rcvWnd && |Apply(cb, call).rcv.queue| < cb.cfg.rcvWnd
    case CallSend(_) => false
    case CallUpdate(_) => false
  }

  /** Some call since the last flush gave a reason. */
  predicate Requested(c: Config, calls: seq<Call>)
    requires c.mss > 0
  {
    |calls| > 0 &&
      var front, last := calls[..|calls| - 1], calls[|calls| - 1];
      !Flushes(Run(c, front), last) && (Requested(c, front) || Requests(Run(c, front), last))
  }

  lemma CallRequests(cb: Cb, call: Call)
    requires cb.cfg.mss > 0
    ensures Apply(cb, call).probe.tell <==> !Flushes(cb, call) && (cb.probe.tell || Requests(cb, call))
  {
    hide Input, RecvOn, Parse, Advance, FlushState;
    match call
    case CallSend(data) =>
    case CallRecv(len) =>
      RecvRequests(Wrapped, cb, len);
      FailedRecv(cb, len);
    case CallInput(d) =>
      if |d| >= OVERHEAD {
        WaskDatagram(Wrapped, cb, Parse(cb.cfg.conv, d).packets, Parse(cb.cfg.conv, d).code);
      }
    case CallUpdate(now) =>
      FlushClears(cb, now);
  }

  lemma FailedRecv(cb: Cb, len: int)
    ensures var r := RecvOn(Wrapped, cb, len); r.code < 0 ==> r.cb.rcv == cb.rcv
  {
    MergeLength(cb.rcv.queue);
  }

  lemma FlushClears(cb: Cb, now: nat)
    ensures var t := Advance(cb.cfg.interval, cb.clk, U32(now)); t.clk.updated
    ensures forall c: Cb :: !FlushState(Wrapped, c).probe.tell
  {
    hide TimeDiff, Numbered, ProbeStep, SweptBuf, Chosen, LinkDead;
  }

  /** In every run with arbitrary input, the request is up exactly when some call since the last
      flush gave a reason. */
  lemma {:induction false} RequestExact(c: Config, calls: seq<Call>)
    requires c.mss > 0
    ensures Run(c, calls).probe.tell <==> Requested(c, calls)
  {
    if |calls| > 0 {
      hide Apply, Flushes, Requests;
      var n := |calls| - 1;
      RequestExact(c, calls[..n]);
      CallRequests(Run(c, calls[..n]), calls[n]);
    }
  }

  /** The datagrams of an update call. */
  function Emitted(cb: Cb, now: nat): seq<seq<Packet>> { Update(Wrapped, cb, U32(now)).out }

  predicate CarriesWins(ds: seq<seq<Packet>>, wnd: nat) {
    exists d, p :: d in ds && p in d && p.cmd == CMD_WINS && p.wnd == wnd
  }

  /** In every run a flush announces the window by a WINS if and only if some call since the flush
      before it gave a reason. */
  lemma WinsExact(c: Config, calls: seq<Call>, now: nat)
    requires c.mss > 0 && Flushes(Run(c, calls), CallUpdate(now))
    ensures var y := Run(c, calls);
      && (Requested(c, calls) ==> CarriesWins(Emitted(y, now), AnnouncedWnd(y)))
      && ((exists d, p :: d in Emitted(y, now) && p in d && p.cmd == CMD_WINS) ==> Requested(c, calls))
  {
    hide Run, Flush, Requested;
    var y := Run(c, calls);
    var z := y.(clk := Advance(y.cfg.interval, y.clk, U32(now)).clk);
    RequestExact(c, calls);
    FlushClears(y, now);
    if y.probe.tell {
      RequestAnswered(Wrapped, z);
    }
    if d, p :| d in Emitted(y, now) && p in d && p.cmd == CMD_WINS {
      WinsAsked(Wrapped, z, d, p);
    }
  }

  lemma {:induction false} StillRequested(c: Config, calls: seq<Call>, quiet: seq<Call>)
    requires c.mss > 0 && Requested(c, calls) && QuietAfter(c, calls, quiet)
    ensures Requested(c, calls + quiet)
  {
    hide Flushes, Requests, Run;
    if |quiet| == 0 {
      assert calls + quiet == calls;
    } else {
      var n := |quiet| - 1;
      StillRequested(c, calls, quiet[..n]);
      assert (calls + quiet)[..|calls| + n] == calls + quiet[..n];
    }
  }

  /** None of the calls in quiet, made after those in calls, flushes. */
  predicate QuietAfter(c: Config, calls: seq<Call>, quiet: seq<Call>)
    requires c.mss > 0
  {
    |quiet| > 0 ==>
      var n := |quiet| - 1;
      QuietAfter(c, calls, quiet[..n]) && !Flushes(Run(c, calls + quiet[..n]), quiet[n])
  }

  // ---- answering it ----

  lemma OneWindow(m: Numbering, y: Cb, p: Packet)
    requires p in FlushPackets(m, y)
    ensures p.wnd == AnnouncedWnd(y)
  {
    hide Numbered, ProbeStep, Choose;
    SweptMembers(SendingOf(y), Numbered(m, y).buf, p);
  }

  /** The flush emits a WINS, within some datagram. */
  lemma RequestAnswered(m: Numbering, y: Cb)
    requires y.clk.updated && y.probe.tell
    ensures exists d, p :: d in Flush(m, y).out && p in d && p.cmd == CMD_WINS && p.wnd == AnnouncedWnd(y)
    ensures !Flush(m, y).cb.probe.tell
  {
    var k := ProbeStep(y.probe, y.rmtWnd, y.clk.current);
    var ps := FlushPackets(m, y);
    var p := ProbePacket(CMD_WINS, y.rcv, AnnouncedWnd(y));
    assert p in ps by {
      hide Numbered;
      assert p in ControlPackets(y.rcv, AnnouncedWnd(y), k);
    }
    hide FlushPackets, Put, PutAll;
    DatagramsConcat(y.cfg.mtu, ps);
    var ds := Datagrams(y.cfg.mtu, ps);
    ConcatMembers(ds, p);
    var i :| 0 <= i < |ds| && p in ds[i];
    assert ds[i] in ds;
  }

  /** Only a request makes a flush emit a WINS. */
  lemma WinsAsked(m: Numbering, y: Cb, d: seq<Packet>, p: Packet)
    requires y.clk.updated && d in Flush(m, y).out && p in d && p.cmd == CMD_WINS
    ensures y.probe.tell
  {
    hide Numbered, Choose, Put, PutAll;
    var ps := FlushPackets(m, y);
    var ds := Datagrams(y.cfg.mtu, ps);
    DatagramsConcat(y.cfg.mtu, ps);
    ConcatMembers(ds, p);
    var i :| 0 <= i < |ds| && ds[i] == d;
    SweptMembers(SendingOf(y), Numbered(m, y).buf, p);
  }

  lemma {:induction false} LastWindow(m: Numbering, x: Cb, ps: seq<Packet>, wnd: nat)
    requires |ps| > 0 && forall p :: p in ps ==> p.wnd == wnd
    ensures InputPackets(m, x, ps).rmtWnd == wnd
  {
    hide AcceptUna, AcceptAck, SampleRtt, AcceptPush;
    assert ps[|ps| - 1] in ps;
  }

  /** Delivering any datagram of that flush sets the sender's view of the window to the free
      space the receiver had when it flushed. */
  lemma WindowLearned(m: Numbering, x: Cb, y: Cb, d: seq<Packet>)
    requires x.cfg.mss > 0 && y.clk.updated && d in Flush(m, y).out && |d| > 0
    requires y.cfg.rcvWnd <= MAX_WND && |y.rcv.queue| <= y.cfg.rcvWnd
    ensures Input(m, x, d, 0).rmtWnd == y.cfg.rcvWnd - |y.rcv.queue|
  {
    hide FlushPackets, InputPackets, LargestAck;
    forall p | p in d ensures p.wnd == AnnouncedWnd(y) {
      var ds := Datagrams(y.cfg.mtu, FlushPackets(m, y));
      DatagramsConcat(y.cfg.mtu, FlushPackets(m, y));
      ConcatMembers(ds, p);
      var i :| 0 <= i < |ds| && ds[i] == d;
      OneWindow(m, y, p);
    }
    LastWindow(m, x, d, AnnouncedWnd(y));
    InputKeepsConfig(m, x, d);
  }

  /** A closed window reopens: once the queue has room, that delivery lets a sender whose own
      congestion window is not in the way (it is off, or has been opened by a first flush) number
      its next fragment. */
  lemma WindowReopens(x: Cb, y: Cb, d: seq<Packet>)
    requires CbOk(x) && CbOk(y) && y.clk.updated && d in Flush(Unbounded, y).out && |d| > 0
    requires y.cfg.rcvWnd <= MAX_WND && |y.rcv.queue| < y.cfg.rcvWnd && (x.cfg.nocwnd || x.win.cwnd >= 1)
    requires x.snd.una == x.snd.nxt && |x.snd.queue| > 0
    ensures var x' := Input(Unbounded, x, d, 0); MoveCount(x'.snd, SendLimit(x')) > 0
  {
    hide CbOk, Input, Flush;
    MssPositive(x);
    QueueFits(y);
    WindowLearned(Unbounded, x, y, d);
    FlushPlausible(y, d);
    InputKeeps(x, d, 0);
    WindowPositive(x, Input(Unbounded, x, d, 0));
  }

  lemma QueueFits(y: Cb)
    requires CbOk(y)
    ensures |y.rcv.queue| <= y.cfg.rcvWnd
  {
  }

  lemma WindowPositive(x: Cb, x': Cb)
    requires CbOk(x) && CbOk(x') && x'.cfg == x.cfg
    ensures x.cfg.sndWnd > 0 && x'.snd.una <= x'.snd.nxt
  {
  }

  lemma FlushPlausible(y: Cb, d: seq<Packet>)
    requires CbOk(y) && y.clk.updated && d in Flush(Unbounded, y).out
    ensures forall p :: p in d ==> Plausible(p)
  {
    hide CbOk, FlushPackets;
    FlushPacketsFit(y);
    forall p | p in d ensures Plausible(p) {
      EmittedPackets(y, d, p);
    }
  }

  /** The other end's view after the bytes of datagram d reach it. */
  function Learned(x: Cb, conv: nat, d: seq<Packet>): nat
    requires x.cfg.mss > 0
  {
    Apply(x, CallInput(EncodeAll(conv, d))).rmtWnd
  }

  lemma BytesLearned(x: Cb, y: Cb, d: seq<Packet>)
    requires x.cfg.mss > 0 && x.cfg.conv == y.cfg.conv && CbOk32(y) && y.clk.updated && d in Flush(Wrapped, y).out && |d| > 0
    ensures Learned(x, y.cfg.conv, d) == AnnouncedWnd(y)
  {
    hide CbOk32, FlushPackets, InputPackets, LargestAck, Encodable, Parse, EncodeAll;
    FlushEncodable32(y);
    ConvBound32(y);
    forall p | p in d ensures p.wnd == AnnouncedWnd(y) && Encodable(p) {
      var ds := Datagrams(y.cfg.mtu, FlushPackets(Wrapped, y));
      DatagramsConcat(y.cfg.mtu, FlushPackets(Wrapped, y));
      ConcatMembers(ds, p);
      var i :| 0 <= i < |ds| && ds[i] == d;
      OneWindow(Wrapped, y, p);
    }
    LastWindow(Wrapped, x, d, AnnouncedWnd(y));
    InputKeepsConfig(Wrapped, x, d);
    ParseRoundTrip(y.cfg.conv, d);
    EncodeAllSize(y.cfg.conv, d);
    SizeOfSome(d);
  }

  lemma SizeOfSome(d: seq<Packet>)
    requires |d| > 0
    ensures TotalSize(d) >= OVERHEAD
  {
  }

  lemma ConvBound32(y: Cb)
    requires CbOk32(y)
    ensures y.cfg.conv < TWO32
  {
  }

  /** Zero-window recovery as a whole: after any calls, a reason to announce the window, and any
      calls that do not flush, the next flushing update emits a WINS; and whichever datagram of
      that flush reaches the other end, in whatever state, that end then knows the free space the
      receiver had at the flush, in the 16 bits of the header field. */
  lemma WindowRecovered(c: Config, before: seq<Call>, reason: Call, quiet: seq<Call>, now: nat, x: Cb, d: seq<Packet>)
    requires ConfigOk(c) && Requests(Run(c, before), reason) && QuietAfter(c, before + [reason], quiet)
    requires var y := Run(c, before + [reason] + quiet); Flushes(y, CallUpdate(now)) && d in Emitted(y, now) && |d| > 0
    requires x.cfg.mss > 0 && x.cfg.conv == c.conv
    ensures var y := Run(c, before + [reason] + quiet); var free := c.rcvWnd - |y.rcv.queue|;
      && 0 <= free && CarriesWins(Emitted(y, now), free % 65536)
      && Learned(x, c.conv, d) == free % 65536
      && (c.rcvWnd <= MAX_WND ==> Learned(x, c.conv, d) == free)
  {
    hide Run, CbOk32, Flush, Requested, CarriesWins, Learned;
    var calls := before + [reason] + quiet;
    var y := Run(c, calls);
    ReasonRequests(c, before, reason);
    StillRequested(c, before + [reason], quiet);
    WinsExact(c, calls, now);
    ReachableOk(c, calls);
    QueueFits32(y);
    var z := y.(clk := Advance(y.cfg.interval, y.clk, U32(now)).clk);
    TickKeeps32(y, U32(now));
    BytesLearned(x, z, d);
  }

  lemma ReasonRequests(c: Config, before: seq<Call>, reason: Call)
    requires c.mss > 0 && Requests(Run(c, before), reason)
    ensures Requested(c, before + [reason])
  {
    hide Run;
    assert (before + [reason])[..|before|] == before;
  }

  lemma QueueFits32(y: Cb)
    requires CbOk32(y)
    ensures |y.rcv.queue| <= y.cfg.rcvWnd && AnnouncedWnd(y) == (y.cfg.rcvWnd - |y.rcv.queue|) % 65536
  {
  }
}
