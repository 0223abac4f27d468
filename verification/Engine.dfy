/** The KCP engine of kcpsess/ikcp.c as functions on values: one function per C function,
    with the same branches. Class `Kcp.Session` is proved to compute exactly these
    functions (with `Wrapping`); everything the protocol promises is proved about them. */
module Engine {
  import opened Options
  import opened Serial
  import opened Wire

  const RTO_NDL: nat := 30
  const RTO_MIN: nat := 100
  const RTO_DEF: nat := 200
  const RTO_MAX: nat := 60000
  const WND_DEF: nat := 32
  const MTU_DEF: nat := 1400
  const INTERVAL: nat := 100
  const DEADLINK: nat := 20
  const THRESH_INIT: nat := 2
  const THRESH_MIN: nat := 2
  const PROBE_INIT: nat := 7000
  const PROBE_LIMIT: nat := 120000
  const NEVER_RESEND: nat := 0xffff_ffff

  // ---------------------------------------------------------------- state

  /** What is fixed before traffic starts. */
  datatype RawConfig = RawConfig(
    conv: nat, mtu: nat, sndWnd: nat, rcvWnd: nat, nodelay: bool, interval: nat, fastResend: nat,
    noCwnd: bool, stream: bool, minRto: nat, deadLink: nat)
  {
    /** `mss`. */
    function Mss(): int { mtu - OVERHEAD }

    /** `resent` in `ikcp_flush`. */
    function Resent(): nat { if fastResend > 0 then fastResend else NEVER_RESEND }

    predicate Ok() {
      && conv < TWO32 && 50 <= mtu < 0x2000_0000
      && 1 <= sndWnd < 65536 && 1 <= rcvWnd < 65536
      && 10 <= interval <= 5000 && fastResend < TWO31
      && RTO_NDL <= minRto <= RTO_MIN && deadLink < TWO32
    }
  }

  type Config = c: RawConfig | c.Ok()
    witness RawConfig(0, MTU_DEF, WND_DEF, WND_DEF, false, INTERVAL, 0, false, false, RTO_MIN, DEADLINK)

  /** A numbered segment waiting for its acknowledgement. */
  datatype Unacked = Unacked(seg: Seg, resendTs: nat, rto: nat, fastAck: nat, xmit: nat) {
    function Wrap(): Unacked { this.(seg := seg.Wrap()) }
  }

  datatype Ack = Ack(sn: nat, ts: nat) {
    function Wrap(): Ack { this.(sn := U32(sn)) }
  }

  /** `snd_una`, `snd_nxt`, `snd_queue` (not yet numbered) and `snd_buf`. */
  datatype Sender = Sender(una: nat, nxt: nat, queue: seq<Frag>, buf: seq<Unacked>)

  /** `rcv_nxt`, `rcv_buf` (the reorder buffer), `rcv_queue` and the ack list. */
  datatype Receiver = Receiver(nxt: nat, buf: seq<Seg>, queue: seq<Seg>, acks: seq<Ack>)

  /** Windows, timers and estimators: everything that carries no sequence number. */
  datatype Control = Control(
    rmtWnd: nat, cwnd: nat, incr: nat, ssthresh: nat,
    askSend: bool, askTell: bool, probeWait: nat, tsProbe: nat,
    current: nat, tsFlush: nat, updated: bool, xmit: nat, dead: bool,
    srtt: int, rttVar: int, rto: nat)

  datatype State = State(cfg: Config, snd: Sender, rcv: Receiver, ctl: Control)

  /** `ikcp_create` followed by the configuration calls. */
  function Initial(cfg: Config): State {
    State(cfg, Sender(0, 0, [], []), Receiver(0, [], [], []),
          Control(WND_DEF, 0, 0, THRESH_INIT, false, false, 0, 0, 0, INTERVAL, false, 0, false, 0, 0, RTO_DEF))
  }

  // ---------------------------------------------------------------- ikcp_send

  /** What a send leaves: the new queue, the return code, and how many bytes of the
      argument were taken. */
  datatype Sending = Sending(queue: seq<Frag>, code: int, taken: nat)

  /** How many segments a length needs. */
  function FragCount(mss: nat, len: nat): nat
    requires mss > 0
  {
    if len <= mss then 1 else (len + mss - 1) / mss
  }

  /** The fragmenting loop: `count` segments, counting down to 0 in message mode. */
  function Fragments(mss: nat, stream: bool, count: nat, data: seq<byte>): seq<Frag> {
    if count == 0 then []
    else
      var size := Min(|data|, mss);
      [Frag(if stream then 0 else count - 1, data[..size])] + Fragments(mss, stream, count - 1, data[size..])
  }

  /** How many bytes the last queued segment absorbs in stream mode. */
  function Extend(cfg: Config, queue: seq<Frag>, len: nat): nat {
    if cfg.stream && queue != [] && |queue[|queue| - 1].data| < cfg.Mss()
    then Min(len, cfg.Mss() - |queue[|queue| - 1].data|) else 0
  }

  /** The queue with its last segment extended. */
  function ExtendTail(cfg: Config, queue: seq<Frag>, data: seq<byte>): seq<Frag> {
    if cfg.stream && queue != [] && |queue[|queue| - 1].data| < cfg.Mss()
    then queue[..|queue| - 1] + [Frag(0, queue[|queue| - 1].data + data[..Extend(cfg, queue, |data|)])]
    else queue
  }

  function Send(cfg: Config, queue: seq<Frag>, data: seq<byte>): Sending {
    var ext := Extend(cfg, queue, |data|);
    var queue1 := ExtendTail(cfg, queue, data);
    var rest := data[ext..];
    if cfg.stream && rest == [] then Sending(queue1, 0, ext)
    else
      var count := FragCount(cfg.Mss(), |rest|);
      if count > 255 then Sending(queue1, -2, ext)
      else Sending(queue1 + Fragments(cfg.Mss(), cfg.stream, count, rest), 0, |data|)
  }

  // ---------------------------------------------------------------- ikcp_recv

  /** How many segments the merge loop takes from the queue. */
  function MergeCount(queue: seq<Seg>): (n: nat)
    ensures n <= |queue|
    ensures queue != [] ==> n > 0
  {
    if queue == [] then 0 else if queue[0].frg == 0 then 1 else 1 + MergeCount(queue[1..])
  }

  function Payloads(gs: seq<Seg>): (fs: seq<Frag>)
    ensures |fs| == |gs|
  {
    seq(|gs|, i requires 0 <= i < |gs| => gs[i].Pay())
  }

  /** The bytes the merge loop copies out. */
  function Merged(queue: seq<Seg>): seq<byte> {
    Bytes(Payloads(queue[..MergeCount(queue)]))
  }

  /** What the loop of `ikcp_peeksize` adds up. */
  function PeekSum(queue: seq<Seg>): nat {
    if queue == [] then 0
    else |queue[0].data| + if queue[0].frg == 0 then 0 else PeekSum(queue[1..])
  }

  /** `ikcp_peeksize`. */
  function PeekSize(queue: seq<Seg>): int {
    if queue == [] then -1
    else if queue[0].frg == 0 then |queue[0].data|
    else if |queue| < queue[0].frg + 1 then -1
    else PeekSum(queue)
  }

  /** The loop that moves in-order segments from the reorder buffer to the queue. */
  function Drain(ar: Arith, wnd: nat, r: Receiver): Receiver
    decreases |r.buf|
  {
    if r.buf != [] && r.buf[0].sn == r.nxt && |r.queue| < wnd
    then Drain(ar, wnd, r.(nxt := ar.Plus(r.nxt, 1), buf := r.buf[1..], queue := r.queue + [r.buf[0]]))
    else r
  }

  datatype Receiving = Receiving(s: State, code: int, data: seq<byte>)

  /** `ikcp_recv`; a negative `len` asks for a peek. */
  function Recv(ar: Arith, s: State, len: int): Receiving {
    var q := s.rcv.queue;
    if q == [] then Receiving(s, -1, [])
    else
      var peek := PeekSize(q);
      if peek < 0 then Receiving(s, -2, [])
      else if peek > (if len < 0 then -len else len) then Receiving(s, -3, [])
      else
        var q1 := if len < 0 then q else q[MergeCount(q)..];
        var r := Drain(ar, s.cfg.rcvWnd, s.rcv.(queue := q1));
        var tell := |q| >= s.cfg.rcvWnd && |r.queue| < s.cfg.rcvWnd;
        Receiving(s.(rcv := r, ctl := s.ctl.(askTell := s.ctl.askTell || tell)), |Merged(q)|, Merged(q))
  }

  // ---------------------------------------------------------------- acknowledgements

  /** C division, which truncates toward zero. */
  function CDiv(a: int, b: nat): int
    requires b > 0
  {
    if a >= 0 then a / b else -((-a) / b)
  }

  function Abs(x: int): nat { if x < 0 then -x else x }

  /** `ikcp_update_ack`, with every C conversion written out. */
  function UpdateAck(cfg: Config, ctl: Control, rtt: int): Control {
    var first := ctl.srtt == 0;
    var delta := Abs(I32(rtt - ctl.srtt));
    var rttVar := if first then CDiv(rtt, 2) else I32(CDiv(I32(3 * ctl.rttVar) + delta, 4));
    var srtt := if first then rtt else Max(1, CDiv(I32(I32(7 * ctl.srtt) + rtt), 8));
    var rto := U32(srtt + Max(cfg.interval, U32(4 * rttVar)));
    ctl.(srtt := srtt, rttVar := rttVar, rto := Bound(cfg.minRto, rto, RTO_MAX))
  }

  /** `ikcp_shrink_buf`. */
  function Shrink(s: Sender): Sender {
    s.(una := if s.buf != [] then s.buf[0].seg.sn else s.nxt)
  }

  function RemoveSn(ar: Arith, buf: seq<Unacked>, sn: nat): seq<Unacked> {
    if buf == [] then []
    else if sn == buf[0].seg.sn then buf[1..]
    else if ar.Cmp(sn, buf[0].seg.sn) < 0 then buf
    else [buf[0]] + RemoveSn(ar, buf[1..], sn)
  }

  /** The test that opens `ikcp_parse_ack` and `ikcp_parse_fastack`. */
  predicate InFlight(ar: Arith, s: Sender, sn: nat) {
    !(ar.Cmp(sn, s.una) < 0 || ar.Cmp(sn, s.nxt) >= 0)
  }

  /** `ikcp_parse_ack`. */
  function ParseAck(ar: Arith, s: Sender, sn: nat): Sender {
    if InFlight(ar, s, sn) then s.(buf := RemoveSn(ar, s.buf, sn)) else s
  }

  function DropUntil(ar: Arith, buf: seq<Unacked>, una: nat): seq<Unacked> {
    if buf == [] then []
    else if ar.Cmp(una, buf[0].seg.sn) > 0 then DropUntil(ar, buf[1..], una)
    else buf
  }

  /** `ikcp_parse_una`. */
  function ParseUna(ar: Arith, s: Sender, una: nat): Sender {
    s.(buf := DropUntil(ar, s.buf, una))
  }

  function CountSkips(ar: Arith, buf: seq<Unacked>, sn: nat): (r: seq<Unacked>)
    ensures |r| == |buf|
  {
    if buf == [] then []
    else if ar.Cmp(sn, buf[0].seg.sn) < 0 then buf
    else [if sn != buf[0].seg.sn then buf[0].(fastAck := U32(buf[0].fastAck + 1)) else buf[0]]
         + CountSkips(ar, buf[1..], sn)
  }

  /** `ikcp_parse_fastack`. */
  function ParseFastAck(ar: Arith, s: Sender, sn: nat): Sender {
    if InFlight(ar, s, sn) then s.(buf := CountSkips(ar, s.buf, sn)) else s
  }

  // ---------------------------------------------------------------- ikcp_parse_data

  /** The backward scan of the reorder buffer: an equal number is a repeat. */
  function Insert(ar: Arith, buf: seq<Seg>, g: Seg): seq<Seg>
    decreases |buf|
  {
    if buf == [] then [g]
    else
      var n := |buf| - 1;
      if buf[n].sn == g.sn then buf
      else if ar.Cmp(g.sn, buf[n].sn) > 0 then buf + [g]
      else Insert(ar, buf[..n], g) + [buf[n]]
  }

  predicate BelowWindowEnd(ar: Arith, wnd: nat, r: Receiver, sn: nat) {
    ar.Cmp(sn, ar.Plus(r.nxt, wnd)) < 0
  }

  /** `ikcp_parse_data`. */
  function ParseData(ar: Arith, wnd: nat, r: Receiver, g: Seg): Receiver {
    if !BelowWindowEnd(ar, wnd, r, g.sn) || ar.Cmp(g.sn, r.nxt) < 0 then r
    else Drain(ar, wnd, r.(buf := Insert(ar, r.buf, g)))
  }

  // ---------------------------------------------------------------- ikcp_input

  /** The PUSH branch of `ikcp_input`. */
  function InputPush(ar: Arith, wnd: nat, r: Receiver, g: Seg): Receiver {
    if !BelowWindowEnd(ar, wnd, r, g.sn) then r
    else
      var r1 := r.(acks := r.acks + [Ack(g.sn, g.ts)]);
      if ar.Cmp(g.sn, r.nxt) >= 0 then ParseData(ar, wnd, r1, g) else r1
  }

  /** The sender side of one decoded segment. */
  function InputAcks(ar: Arith, s: Sender, g: Seg): Sender {
    var s1 := Shrink(ParseUna(ar, s, g.una));
    if g.cmd == CMD_ACK then Shrink(ParseAck(ar, s1, g.sn)) else s1
  }

  function InputControl(cfg: Config, ctl: Control, g: Seg): Control {
    var c := ctl.(rmtWnd := g.wnd);
    if g.cmd == CMD_ACK then
      var rtt := Diff(ctl.current, g.ts);
      if rtt >= 0 then UpdateAck(cfg, c, rtt) else c
    else if g.cmd == CMD_WASK then c.(askTell := true)
    else c
  }

  /** One turn of the decode loop of `ikcp_input`. */
  function InputSeg(ar: Arith, s: State, g: Seg): State {
    State(s.cfg, InputAcks(ar, s.snd, g),
          if g.cmd == CMD_PUSH then InputPush(ar, s.cfg.rcvWnd, s.rcv, g) else s.rcv,
          InputControl(s.cfg, s.ctl, g))
  }

  function InputSegs(ar: Arith, s: State, gs: seq<Seg>): State
    decreases |gs|
  {
    if gs == [] then s else InputSeg(ar, InputSegs(ar, s, gs[..|gs| - 1]), gs[|gs| - 1])
  }

  /** `flag` and `maxack`: the largest acknowledged number of the datagram. */
  function MaxAck(ar: Arith, gs: seq<Seg>): Option<nat>
    decreases |gs|
  {
    if gs == [] then None
    else
      var m := MaxAck(ar, gs[..|gs| - 1]);
      var g := gs[|gs| - 1];
      if g.cmd != CMD_ACK then m
      else if m.None? then Some(g.sn)
      else if ar.Cmp(g.sn, m.value) > 0 then Some(g.sn) else m
  }

  /** Slow start or congestion avoidance. */
  function GrowStep(cfg: Config, ctl: Control): Control {
    var mss := cfg.Mss();
    if ctl.cwnd < ctl.ssthresh then ctl.(cwnd := U32(ctl.cwnd + 1), incr := U32(ctl.incr + mss))
    else
      var i0 := if ctl.incr < mss then mss else ctl.incr;
      var i1 := U32(i0 + U32(mss * mss) / i0 + mss / 16);
      ctl.(incr := i1, cwnd := if U32(U32(ctl.cwnd + 1) * mss) <= i1 then U32(ctl.cwnd + 1) else ctl.cwnd)
  }

  /** The clamp to the peer's window that follows. */
  function ClampCwnd(cfg: Config, ctl: Control): Control {
    if ctl.cwnd > ctl.rmtWnd then ctl.(cwnd := ctl.rmtWnd, incr := U32(ctl.rmtWnd * cfg.Mss())) else ctl
  }

  /** The congestion window after new data was acknowledged. */
  function GrowCwnd(cfg: Config, ctl: Control): Control {
    if ctl.cwnd >= ctl.rmtWnd then ctl else ClampCwnd(cfg, GrowStep(cfg, ctl))
  }

  /** What follows the decode loop when no segment was malformed. */
  function InputEnd(ar: Arith, s: State, una0: nat, maxAck: Option<nat>): State {
    var s1 := if maxAck.Some? then s.(snd := ParseFastAck(ar, s.snd, maxAck.value)) else s;
    if ar.Cmp(s1.snd.una, una0) > 0 then s1.(ctl := GrowCwnd(s1.cfg, s1.ctl)) else s1
  }

  /** `ikcp_input` on a decoded datagram. */
  function InputParsed(ar: Arith, s: State, p: Parsed): State {
    var s1 := InputSegs(ar, s, p.segs);
    if p.code < 0 then s1 else InputEnd(ar, s1, s.snd.una, MaxAck(ar, p.segs))
  }

  datatype Inputting = Inputting(s: State, code: int)

  /** `ikcp_input` on the bytes of a datagram, all early returns included. */
  function Input(ar: Arith, s: State, b: seq<byte>): Inputting {
    if |b| < OVERHEAD then Inputting(s, -1)
    else
      var p := DecodeAll(s.cfg.conv, b);
      Inputting(InputParsed(ar, s, p), p.code)
  }

  // ---------------------------------------------------------------- ikcp_flush

  /** `ikcp_wnd_unused`. */
  function WndUnused(cfg: Config, r: Receiver): nat {
    if |r.queue| < cfg.rcvWnd then cfg.rcvWnd - |r.queue| else 0
  }

  /** The template header of a flush. */
  function Header(s: State, cmd: nat, sn: nat, ts: nat): Seg {
    Seg(s.cfg.conv, cmd, 0, WndUnused(s.cfg, s.rcv), ts, sn, s.rcv.nxt, [])
  }

  function AckSegs(s: State): (gs: seq<Seg>)
    ensures |gs| == |s.rcv.acks|
  {
    seq(|s.rcv.acks|, i requires 0 <= i < |s.rcv.acks| => Header(s, CMD_ACK, s.rcv.acks[i].sn, s.rcv.acks[i].ts))
  }

  /** The zero-window probe timer. */
  function ProbeTimer(ctl: Control): Control {
    if ctl.rmtWnd != 0 then ctl.(tsProbe := 0, probeWait := 0)
    else if ctl.probeWait == 0 then ctl.(probeWait := PROBE_INIT, tsProbe := U32(ctl.current + PROBE_INIT))
    else if Diff(ctl.current, ctl.tsProbe) >= 0 then
      var w0 := Max(ctl.probeWait, PROBE_INIT);
      var w := Min(U32(w0 + w0 / 2), PROBE_LIMIT);
      ctl.(probeWait := w, tsProbe := U32(ctl.current + w), askSend := true)
    else ctl
  }

  /** The probe commands; their sn and ts are those left by the last ack. */
  function ProbeSegs(s: State, ctl: Control): seq<Seg> {
    var n := |s.rcv.acks|;
    var last := if n == 0 then Ack(0, 0) else s.rcv.acks[n - 1];
    (if ctl.askSend then [Header(s, CMD_WASK, last.sn, last.ts)] else [])
    + (if ctl.askTell then [Header(s, CMD_WINS, last.sn, last.ts)] else [])
  }

  /** `cwnd` in `ikcp_flush`: how far past `snd_una` segments may be numbered. */
  function SendWindow(cfg: Config, ctl: Control): nat {
    var w := Min(cfg.sndWnd, ctl.rmtWnd);
    if cfg.noCwnd then w else Min(ctl.cwnd, w)
  }

  /** A queued segment as it enters the send buffer. */
  function Number(s: State, f: Frag, sn: nat): Unacked {
    Unacked(Seg(s.cfg.conv, CMD_PUSH, f.frg, WndUnused(s.cfg, s.rcv), s.ctl.current, sn, s.rcv.nxt, f.data),
            s.ctl.current, s.ctl.rto, 0, 0)
  }

  /** The loop that moves segments from the queue to the send buffer. */
  function Admit(ar: Arith, s: State, window: nat): Sender
    decreases |s.snd.queue|
  {
    var t := s.snd;
    if ar.Cmp(t.nxt, ar.Plus(t.una, window)) < 0 && t.queue != []
    then Admit(ar, s.(snd := t.(queue := t.queue[1..], buf := t.buf + [Number(s, t.queue[0], t.nxt)],
                                nxt := ar.Plus(t.nxt, 1))), window)
    else t
  }

  /** Why a buffered segment is transmitted now. */
  datatype Reason = Hold | First | Timeout | Fast

  /** What the transmission loop of a flush uses but does not change. */
  datatype Pass = Pass(cfg: Config, current: nat, rto: nat, wnd: nat, una: nat) {
    function Why(u: Unacked): Reason {
      if u.xmit == 0 then First
      else if Diff(current, u.resendTs) >= 0 then Timeout
      else if u.fastAck >= cfg.Resent() then Fast
      else Hold
    }

    function RtoMin(): nat { if cfg.nodelay then 0 else rto / 8 }

    /** The segment after the loop has seen it. */
    function Touch(u: Unacked): Unacked {
      var why := Why(u);
      if why == Hold then u
      else
        var xmit := U32(u.xmit + 1);
        var seg := u.seg.(ts := current, wnd := this.wnd, una := this.una);
        if why == First then Unacked(seg, U32(current + rto + RtoMin()), rto, u.fastAck, xmit)
        else if why == Timeout then
          var rto1 := U32(u.rto + (if cfg.nodelay then rto / 2 else rto));
          Unacked(seg, U32(current + rto1), rto1, u.fastAck, xmit)
        else Unacked(seg, U32(current + u.rto), u.rto, 0, xmit)
    }

    function TouchAll(buf: seq<Unacked>): (r: seq<Unacked>)
      ensures |r| == |buf|
    {
      seq(|buf|, i requires 0 <= i < |buf| => Touch(buf[i]))
    }

    /** The segments transmitted, in buffer order. */
    function DueSegs(buf: seq<Unacked>): seq<Seg>
      decreases |buf|
    {
      if buf == [] then []
      else
        var n := |buf| - 1;
        DueSegs(buf[..n]) + (if Why(buf[n]) == Hold then [] else [Touch(buf[n]).seg])
    }

    function CountWhy(buf: seq<Unacked>, why: Reason): nat
      decreases |buf|
    {
      if buf == [] then 0
      else CountWhy(buf[..|buf| - 1], why) + (if Why(buf[|buf| - 1]) == why then 1 else 0)
    }

    /** Some transmitted segment has been sent `dead_link` times. */
    predicate Dies(buf: seq<Unacked>) {
      exists i :: 0 <= i < |buf| && Why(buf[i]) != Hold && Touch(buf[i]).xmit >= cfg.deadLink
    }
  }

  /** The congestion state after a flush. */
  function CwndAfterFlush(cfg: Config, ctl: Control, fast: bool, lost: bool, inflight: nat, window: nat): Control {
    var mss := cfg.Mss();
    var c1 := if fast then
                var th := Max(inflight / 2, THRESH_MIN);
                var cw := U32(th + cfg.Resent());
                ctl.(ssthresh := th, cwnd := cw, incr := U32(cw * mss))
              else ctl;
    var c2 := if lost then c1.(ssthresh := Max(window / 2, THRESH_MIN), cwnd := 1, incr := mss) else c1;
    if c2.cwnd < 1 then c2.(cwnd := 1, incr := mss) else c2
  }

  datatype Flushing = Flushing(s: State, segs: seq<Seg>) {
    /** The datagrams handed to the output callback, as segments. */
    function Datagrams(): seq<seq<Seg>> { Pack(s.cfg.mtu, segs) }
  }

  /** The loop parameters of a flush. */
  function FlushPass(s: State): Pass {
    Pass(s.cfg, s.ctl.current, s.ctl.rto, WndUnused(s.cfg, s.rcv), s.rcv.nxt)
  }

  /** The window a flush works with. */
  function FlushWindow(s: State): nat { SendWindow(s.cfg, ProbeTimer(s.ctl)) }

  /** The sender after the numbering loop of a flush. */
  function FlushSender(ar: Arith, s: State): Sender { Admit(ar, s, FlushWindow(s)) }

  /** The control block after a flush, `snd` being the sender after the numbering loop. */
  function FlushControl(s: State, snd: Sender): Control {
    var ctl := ProbeTimer(s.ctl);
    var pass := FlushPass(s);
    var timeouts := pass.CountWhy(snd.buf, Timeout);
    var ctl1 := ctl.(askSend := false, askTell := false, xmit := U32(ctl.xmit + timeouts),
                     dead := ctl.dead || pass.Dies(snd.buf));
    CwndAfterFlush(s.cfg, ctl1, pass.CountWhy(snd.buf, Fast) > 0, timeouts > 0,
                   U32(snd.nxt - snd.una), FlushWindow(s))
  }

  /** The segments a flush sends: pending acks, probe commands, then due data. */
  function FlushSegs(s: State, snd: Sender): seq<Seg> {
    AckSegs(s) + ProbeSegs(s, ProbeTimer(s.ctl)) + FlushPass(s).DueSegs(snd.buf)
  }

  /** `ikcp_flush`. */
  function Flush(ar: Arith, s: State): Flushing {
    var snd := FlushSender(ar, s);
    Flushing(State(s.cfg, snd.(buf := FlushPass(s).TouchAll(snd.buf)), s.rcv.(acks := []), FlushControl(s, snd)),
             FlushSegs(s, snd))
  }

  // ---------------------------------------------------------------- ikcp_update, ikcp_check

  /** Did `ikcp_update` decide to flush, and the control block it flushes with. */
  datatype Tick = Tick(due: bool, ctl: Control)

  function UpdateTick(cfg: Config, ctl: Control, now: nat): Tick {
    var c0 := if ctl.updated then ctl.(current := now) else ctl.(current := now, updated := true, tsFlush := now);
    var slap0 := Diff(now, c0.tsFlush);
    var reset := slap0 >= 10000 || slap0 < -10000;
    var c1 := if reset then c0.(tsFlush := now) else c0;
    var slap := if reset then 0 else slap0;
    if slap < 0 then Tick(false, c1)
    else
      var ts := U32(c1.tsFlush + cfg.interval);
      Tick(true, c1.(tsFlush := if Diff(now, ts) >= 0 then U32(now + cfg.interval) else ts))
  }

  /** `ikcp_update`; nothing is sent when no flush is due. */
  function Update(ar: Arith, s: State, now: nat): Flushing {
    var t := UpdateTick(s.cfg, s.ctl, now);
    if t.due then Flush(ar, s.(ctl := t.ctl)) else Flushing(s.(ctl := t.ctl), [])
  }

  /** The nearest retransmission, or none if one is due at once. */
  function NearestResend(buf: seq<Unacked>, now: nat): Option<int>
    decreases |buf|
  {
    if buf == [] then Some(TWO31 - 1)
    else
      var n := |buf| - 1;
      var m := NearestResend(buf[..n], now);
      var diff := Diff(buf[n].resendTs, now);
      if m.None? || diff <= 0 then None else Some(Min(diff, m.value))
  }

  /** `ikcp_check`. */
  function Check(s: State, now: nat): nat {
    if !s.ctl.updated then now
    else
      var slap := Diff(now, s.ctl.tsFlush);
      if slap >= 10000 || slap < -10000 || slap >= 0 then now
      else
        var packet := NearestResend(s.snd.buf, now);
        if packet.None? then now
        else U32(now + Min(Min(packet.value, Diff(s.ctl.tsFlush, now)), s.cfg.interval))
  }
}
