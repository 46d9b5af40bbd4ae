/** The control block and its entry points. */
module Kcp {
  import opened Numbers
  import opened Wire
  import opened SendWindow
  import opened ReceiveWindow
  import opened Fragments
  import opened RttEstimation
  import opened Congestion
  import opened Timers
  import opened Packing
  import opened Transmission

  const FASTACK_LIMIT: int := 5
  const MAX_RESENT: nat := 0xffffffff

  /** What the setters fix before traffic starts. */
  datatype Config = Config(conv: nat, mtu: nat, mss: nat, sndWnd: nat, rcvWnd: nat, interval: nat,
                           nodelay: nat, minrto: nat, fastresend: int, fastlimit: int, nocwnd: bool,
                           stream: bool, deadLink: nat)

  datatype Cb = Cb(cfg: Config, snd: Sender, rcv: Receiver, rmtWnd: nat, win: Window, probe: Probe,
                   rtt: Rtt, clk: Clock, dead: bool)

  // ---- creation and configuration ----

  function DefaultConfig(conv: nat): Config {
    Config(conv, 1400, 1400 - OVERHEAD, 32, WND_RCV, 100, 0, 100, 0, FASTACK_LIMIT, false, false, 20)
  }

  function ClampInterval(interval: int): nat { Bound(10, interval, 5000) }

  function NoDelay(c: Config, nodelay: int, interval: int, resend: int, nc: int): Config {
    var c1 := if nodelay >= 0 then c.(nodelay := nodelay, minrto := if nodelay != 0 then 30 else 100) else c;
    var c2 := if interval >= 0 then c1.(interval := ClampInterval(interval)) else c1;
    var c3 := if resend >= 0 then c2.(fastresend := resend) else c2;
    if nc >= 0 then c3.(nocwnd := nc != 0) else c3
  }

  function WndSize(c: Config, sndwnd: int, rcvwnd: int): Config {
    var c1 := if sndwnd > 0 then c.(sndWnd := sndwnd) else c;
    if rcvwnd > 0 then c1.(rcvWnd := Max(rcvwnd, WND_RCV)) else c1
  }

  /** The configuration of both forwarders. */
  function ForwarderConfig(): Config {
    NoDelay(WndSize(DefaultConfig(0x5a3331fd), 1024, 1024), 2, 10, 2, 1)
  }

  function Create(c: Config): Cb {
    Cb(c, Sender(0, 0, [], []), Receiver(0, [], [], []), WND_RCV, Window(0, 0, 2),
       Probe(false, false, 0, 0), Rtt(0, 0, RTO_DEF), Clock(0, 100, false), false)
  }

  // ---- ikcp_input ----

  function AcceptUna(m: Numbering, s: Sender, una: nat): Sender {
    ShrinkBuf(s.(buf := ParseUna(m, s.buf, una)))
  }

  function AcceptAck(m: Numbering, s: Sender, sn: nat): Sender {
    ShrinkBuf(ParseAck(m, s, sn))
  }

  function SampleRtt(c: Config, current: nat, r: Rtt, ts: nat): Rtt {
    var rtt := TimeDiff(current, ts);
    if rtt >= 0 then UpdateAck(c.interval, c.minrto, r, rtt) else r
  }

  function InputPacket(m: Numbering, cb: Cb, p: Packet): Cb {
    var c := cb.(rmtWnd := p.wnd, snd := AcceptUna(m, cb.snd, p.una));
    if p.cmd == CMD_ACK then c.(rtt := SampleRtt(cb.cfg, cb.clk.current, cb.rtt, p.ts), snd := AcceptAck(m, c.snd, p.sn))
    else if p.cmd == CMD_PUSH then
      c.(rcv := AcceptPush(m, cb.cfg.rcvWnd, cb.rcv, p.sn, p.ts, Frag(p.frg, p.data)))
    else if p.cmd == CMD_WASK then c.(probe := cb.probe.(tell := true))
    else c
  }

  function InputPackets(m: Numbering, cb: Cb, ps: seq<Packet>): Cb {
    if |ps| == 0 then cb else InputPacket(m, InputPackets(m, cb, ps[..|ps| - 1]), ps[|ps| - 1])
  }

  /** The greatest acknowledged number of a datagram, when it acknowledges any. */
  datatype MaxAck = NoAck | MaxAck(sn: nat)

  function LargestAck(m: Numbering, ps: seq<Packet>): MaxAck {
    if |ps| == 0 then NoAck
    else
      var acc, p := LargestAck(m, ps[..|ps| - 1]), ps[|ps| - 1];
      if p.cmd == CMD_ACK && (acc.NoAck? || Diff(m, p.sn, acc.sn) > 0) then MaxAck(p.sn) else acc
  }

  function ApplyFastack(m: Numbering, s: Sender, a: MaxAck): Sender {
    if a.NoAck? then s else ParseFastack(m, s, a.sn)
  }

  /** The tail of ikcp_input, reached only when every segment was accepted. */
  function FinishInput(m: Numbering, cb: Cb, prevUna: nat, a: MaxAck): Cb
    requires cb.cfg.mss > 0
  {
    cb.(snd := ApplyFastack(m, cb.snd, a),
        win := if Diff(m, cb.snd.una, prevUna) > 0 then Grow(cb.cfg.mss, cb.rmtWnd, cb.win) else cb.win)
  }

  lemma {:induction false} InputKeepsConfig(m: Numbering, cb: Cb, ps: seq<Packet>)
    ensures InputPackets(m, cb, ps).cfg == cb.cfg && InputPackets(m, cb, ps).clk == cb.clk
  {
    if |ps| > 0 {
      InputKeepsConfig(m, cb, ps[..|ps| - 1]);
    }
  }

  /** A datagram already cut into segments; a nonzero code is the error that ended parsing. */
  function Input(m: Numbering, cb: Cb, ps: seq<Packet>, code: int): Cb
    requires cb.cfg.mss > 0
  {
    InputKeepsConfig(m, cb, ps);
    var c := InputPackets(m, cb, ps);
    if code != 0 then c else FinishInput(m, c, cb.snd.una, LargestAck(m, ps))
  }

  datatype InputResult = InputResult(code: int, cb: Cb)

  function InputBytes(cb: Cb, d: Bytes): InputResult
    requires cb.cfg.mss > 0
  {
    if |d| < OVERHEAD then InputResult(-1, cb)
    else
      var r := Parse(cb.cfg.conv, d);
      InputResult(r.code, Input(Wrapped, cb, r.packets, r.code))
  }

  // ---- ikcp_flush and ikcp_update ----

  function WndUnused(cb: Cb): nat {
    if |cb.rcv.queue| < cb.cfg.rcvWnd then cb.cfg.rcvWnd - |cb.rcv.queue| else 0
  }

  /** The window as the 16-bit header field carries it. */
  function AnnouncedWnd(cb: Cb): nat { WndUnused(cb) % 65536 }

  function AckPackets(r: Receiver, wnd: nat): (ps: seq<Packet>)
    ensures |ps| == |r.acks|
  {
    seq(|r.acks|, i requires 0 <= i < |r.acks| => Packet(CMD_ACK, 0, wnd, r.acks[i].ts, r.acks[i].sn, r.nxt, []))
  }

  /** Window probes reuse the number and time stamp of the last acknowledgement. */
  function ProbePacket(cmd: nat, r: Receiver, wnd: nat): Packet {
    var a := if |r.acks| > 0 then r.acks[|r.acks| - 1] else Ack(0, 0);
    Packet(cmd, 0, wnd, a.ts, a.sn, r.nxt, [])
  }

  function ControlPackets(r: Receiver, wnd: nat, p: Probe): seq<Packet> {
    AckPackets(r, wnd)
    + (if p.ask then [ProbePacket(CMD_WASK, r, wnd)] else [])
    + (if p.tell then [ProbePacket(CMD_WINS, r, wnd)] else [])
  }

  function SendLimit(cb: Cb): nat {
    var w := Min(cb.cfg.sndWnd, cb.rmtWnd);
    if cb.cfg.nocwnd then w else Min(cb.win.cwnd, w)
  }

  function Resent(c: Config): nat {
    if c.fastresend > 0 then U32(c.fastresend) else MAX_RESENT
  }

  function SendingOf(cb: Cb): Sending {
    Sending(cb.cfg.nodelay, cb.cfg.fastlimit, Resent(cb.cfg), cb.rtt.rto, cb.clk.current,
            AnnouncedWnd(cb), cb.rcv.nxt)
  }

  /** snd after the loop that numbers queued fragments. */
  function Numbered(m: Numbering, cb: Cb): Sender {
    MoveToBuf(m, cb.snd, SendLimit(cb), cb.rtt.rto, cb.clk.current)
  }

  /** Every segment a flush sends, in order. */
  function FlushPackets(m: Numbering, cb: Cb): seq<Packet> {
    ControlPackets(cb.rcv, AnnouncedWnd(cb), ProbeStep(cb.probe, cb.rmtWnd, cb.clk.current))
    + SweptPackets(SendingOf(cb), Numbered(m, cb).buf)
  }

  function FlushState(m: Numbering, cb: Cb): Cb {
    var s := Numbered(m, cb);
    var p := SendingOf(cb);
    cb.(rcv := cb.rcv.(acks := []),
        probe := ProbeStep(cb.probe, cb.rmtWnd, cb.clk.current).(ask := false, tell := false),
        snd := s.(buf := SweptBuf(p, s.buf)),
        win := AfterFlush(cb.cfg.mss, Chosen(p, s.buf, Fast), U32(s.nxt - s.una), p.resent,
                          Chosen(p, s.buf, Timeout), SendLimit(cb), cb.win),
        dead := cb.dead || LinkDead(p, s.buf, cb.cfg.deadLink))
  }

  datatype Flushed = Flushed(cb: Cb, out: seq<seq<Packet>>)

  function Flush(m: Numbering, cb: Cb): Flushed {
    if !cb.clk.updated then Flushed(cb, [])
    else Flushed(FlushState(m, cb), Datagrams(cb.cfg.mtu, FlushPackets(m, cb)))
  }

  function Update(m: Numbering, cb: Cb, now: nat): Flushed {
    var t := Advance(cb.cfg.interval, cb.clk, now);
    if t.flush then Flush(m, cb.(clk := t.clk)) else Flushed(cb.(clk := t.clk), [])
  }

  // ---- ikcp_send and ikcp_recv on the control block ----

  datatype SendOutcome = SendOutcome(code: int, cb: Cb)

  function SendOn(cb: Cb, data: Bytes): SendOutcome
    requires cb.cfg.mss > 0
  {
    var r := Send(cb.cfg.mss, cb.cfg.stream, cb.snd.queue, data);
    SendOutcome(r.code, cb.(snd := cb.snd.(queue := r.queue)))
  }

  datatype RecvOutcome = RecvOutcome(code: int, data: Bytes, cb: Cb)

  function RecvOn(m: Numbering, cb: Cb, len: int): RecvOutcome {
    var r := Recv(m, cb.cfg.rcvWnd, cb.rcv, cb.probe.tell, len);
    RecvOutcome(r.code, r.data, cb.(rcv := r.rcv, probe := cb.probe.(tell := r.tell)))
  }
}
