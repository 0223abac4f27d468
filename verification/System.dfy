/** Two endpoints and the network between them.

    A node holds the state `c` of the C program, and beside it the state `u` the program
    would have if its sequence numbers never wrapped; `c` evolves by the 32-bit engine
    alone. The network keeps every datagram ever emitted, so delivering any of them at any
    time covers loss, duplication, reordering and delay. */
module System {
  import opened Serial
  import opened Wire
  import opened Engine
  import opened Window
  import opened Refinement
  import opened Sending

  /** A datagram, and the same segments with the numbers they had before wrapping. */
  datatype Pkt = Pkt(bytes: seq<byte>, tags: seq<Seg>)

  datatype Node = Node(
    c: State,
    u: State,
    log: seq<Frag>,            // the segments numbered so far, by sequence number
    accepted: seq<byte>,       // the bytes `ikcp_send` took
    delivered: seq<byte>,      // the bytes `ikcp_recv` returned
    sent: seq<seq<byte>>,      // the arguments of successful sends
    got: seq<seq<byte>>,       // the results of successful receives
    net: seq<Pkt>)             // every datagram this node emitted

  datatype Sys = Sys(a: Node, b: Node)

  datatype Event =
    | SendE(data: seq<byte>)
    | RecvE(len: int)
    | FlushE
    | UpdateE(now: nat)
    | InputE(pkt: Pkt)

  datatype Step = Step(atA: bool, ev: Event)

  function NewNode(cfg: Config): Node {
    Node(Initial(cfg), Initial(cfg), [], [], [], [], [], [])
  }

  // ---------------------------------------------------------------- transitions

  function NodeSend(n: Node, data: seq<byte>): Node {
    var r := Send(n.c.cfg, n.c.snd.queue, data);
    n.(c := n.c.(snd := n.c.snd.(queue := r.queue)),
       u := n.u.(snd := n.u.snd.(queue := Send(n.u.cfg, n.u.snd.queue, data).queue)),
       accepted := n.accepted + data[..if r.taken <= |data| then r.taken else |data|],
       sent := if r.code == 0 then n.sent + [data] else n.sent)
  }

  function NodeRecv(n: Node, len: int): Node {
    var r := Recv(Wrapping, n.c, len);
    var taken := len >= 0 && r.code >= 0;
    n.(c := r.s, u := Recv(Unbounded, n.u, len).s,
       delivered := if taken then n.delivered + r.data else n.delivered,
       got := if taken then n.got + [r.data] else n.got)
  }

  /** The datagrams of a flush, each with its tags. */
  function Emitted(c: Flushing, u: Flushing): seq<Pkt> {
    var cs, us := c.Datagrams(), u.Datagrams();
    seq(|cs|, i requires 0 <= i < |cs| => Pkt(EncodeAll(cs[i]), if i < |us| then us[i] else []))
  }

  /** A flush or an update. `ctl` is the control block the flush starts from. */
  function NodeFlush(n: Node): Node {
    var c, u := Flush(Wrapping, n.c), Flush(Unbounded, n.u);
    var k := Max(0, u.s.snd.nxt - n.u.snd.nxt);
    n.(c := c.s, u := u.s, log := n.log + n.u.snd.queue[..Min(k, |n.u.snd.queue|)], net := n.net + Emitted(c, u))
  }

  function NodeUpdate(n: Node, now: nat): Node {
    var tc, tu := UpdateTick(n.c.cfg, n.c.ctl, now), UpdateTick(n.u.cfg, n.u.ctl, now);
    var n1 := n.(c := n.c.(ctl := tc.ctl), u := n.u.(ctl := tu.ctl));
    if tc.due then NodeFlush(n1) else n1
  }

  function NodeInput(n: Node, pkt: Pkt): Node {
    n.(c := Input(Wrapping, n.c, pkt.bytes).s, u := InputParsed(Unbounded, n.u, Parsed(pkt.tags, 0)))
  }

  function NodeStep(n: Node, ev: Event): Node {
    match ev
    case SendE(data) => NodeSend(n, data)
    case RecvE(len) => NodeRecv(n, len)
    case FlushE => NodeFlush(n)
    case UpdateE(now) => NodeUpdate(n, now)
    case InputE(pkt) => NodeInput(n, pkt)
  }

  /** No number of the segment is 2^31 or more behind the state it reaches. */
  ghost predicate FreshSeg(s: State, g: Seg) {
    && s.snd.nxt - TWO31 <= g.una
    && (g.cmd == CMD_ACK ==> s.snd.nxt - TWO31 <= g.sn)
    && (g.cmd == CMD_PUSH ==> s.rcv.nxt - |s.rcv.queue| + 2 * s.cfg.rcvWnd - TWO31 <= g.sn)
  }

  ghost predicate Fresh(s: State, gs: seq<Seg>) {
    forall g :: g in gs ==> FreshSeg(s, g)
  }

  /** An event can happen at `n`, whose peer is `m`. */
  ghost predicate Enabled(n: Node, m: Node, ev: Event) {
    match ev
    case UpdateE(now) => now < TWO32
    case InputE(pkt) => pkt in m.net && Fresh(n.u, pkt.tags)
    case _ => true
  }

  function Apply(s: Sys, st: Step): Sys {
    if st.atA then s.(a := NodeStep(s.a, st.ev)) else s.(b := NodeStep(s.b, st.ev))
  }

  ghost predicate StepEnabled(s: Sys, st: Step) {
    if st.atA then Enabled(s.a, s.b, st.ev) else Enabled(s.b, s.a, st.ev)
  }

  function Exec(s: Sys, run: seq<Step>): Sys
    decreases |run|
  {
    if run == [] then s else Exec(Apply(s, run[0]), run[1..])
  }

  /** Every step of the run can happen when its turn comes. */
  ghost predicate IsRun(s: Sys, run: seq<Step>)
    decreases |run|
  {
    run == [] || (StepEnabled(s, run[0]) && IsRun(Apply(s, run[0]), run[1..]))
  }

  // ---------------------------------------------------------------- invariants

  ghost predicate InBuf(buf: seq<Unacked>, sn: int) {
    exists u :: u in buf && u.seg.sn == sn
  }

  /** The send buffer carries the segments that were numbered, unchanged. */
  ghost predicate BufMatches(log: seq<Frag>, buf: seq<Unacked>) {
    forall u :: u in buf ==> u.seg.sn < |log| && u.seg.Pay() == log[u.seg.sn]
  }

  /** Every datagram is the encoding of its wrapped tags, and fits the mtu. */
  ghost predicate NetOk(cfg: Config, net: seq<Pkt>) {
    forall p :: p in net ==> PktOk(cfg, p)
  }

  ghost predicate PktOk(cfg: Config, p: Pkt) {
    && p.bytes == EncodeAll(WrapSegs(p.tags)) && OVERHEAD <= |p.bytes| <= cfg.mtu
    && forall g :: g in p.tags ==> g.Wrap().Fits() && g.conv == cfg.conv
  }

  /** The C state is the wrapped form of a state in working order. */
  ghost predicate Mirrors(c: State, u: State) {
    c == Wrap(u) && Ok(u)
  }

  /** The log and the queue account for every accepted byte. */
  ghost predicate Accounted(cfg: Config, log: seq<Frag>, snd: Sender, accepted: seq<byte>) {
    && |log| == snd.nxt && accepted == Bytes(log + snd.queue)
    && QueueOk(cfg, snd.queue) && QueueOk(cfg, log) && BufMatches(log, snd.buf)
  }

  /** Clock values fit 32 bits. */
  ghost predicate Clocked(s: State) {
    s.ctl.current < TWO32 && forall a :: a in s.rcv.acks ==> a.ts < TWO32
  }

  /** What a node keeps on its own. */
  ghost predicate NodeOk(n: Node) {
    Mirrors(n.c, n.u) && Accounted(n.u.cfg, n.log, n.u.snd, n.accepted) && Clocked(n.u) && NetOk(n.u.cfg, n.net)
  }

  /** Data on its way is what was numbered. */
  ghost predicate DataOnWire(log: seq<Frag>, net: seq<Pkt>) {
    forall p, g :: p in net && g in p.tags && g.cmd == CMD_PUSH ==> IsNumbered(log, g)
  }

  ghost predicate IsNumbered(log: seq<Frag>, g: Seg) {
    g.sn < |log| && g.Pay() == log[g.sn]
  }

  /** What the receiver has is what was numbered. */
  ghost predicate Received(log: seq<Frag>, r: Receiver) {
    && r.nxt <= |log|
    && (forall g :: g in r.buf ==> IsNumbered(log, g))
    && (forall g :: g in r.queue ==> IsNumbered(log, g))
  }

  /** Every numbered segment is still in the send buffer or with the receiver. */
  ghost predicate NothingLost(log: seq<Frag>, buf: seq<Unacked>, r: Receiver) {
    forall sn: int :: 0 <= sn < |log| ==> InBuf(buf, sn) || Held(r, sn)
  }

  /** Acks not yet flushed name held segments. */
  ghost predicate AcksHeld(log: seq<Frag>, r: Receiver) {
    forall a :: a in r.acks ==> a.sn < |log| && Held(r, a.sn)
  }

  /** Acks on their way name held segments, and cumulative ones do not pass `rcv_nxt`. */
  ghost predicate AcksOnWire(log: seq<Frag>, net: seq<Pkt>, r: Receiver) {
    forall p, g :: p in net && g in p.tags ==>
      g.una <= r.nxt && (g.cmd == CMD_ACK ==> g.sn < |log| && Held(r, g.sn))
  }

  /** What was returned to the user is the log up to the receive queue. */
  ghost predicate Delivered(log: seq<Frag>, r: Receiver, delivered: seq<byte>) {
    |r.queue| <= r.nxt <= |log| && delivered == Bytes(log[..r.nxt - |r.queue|])
  }

  /** What holds between a sender and its receiver. */
  ghost predicate LinkOf(log: seq<Frag>, sndNet: seq<Pkt>, buf: seq<Unacked>,
                         r: Receiver, rcvNet: seq<Pkt>, delivered: seq<byte>) {
    && DataOnWire(log, sndNet)
    && Received(log, r)
    && NothingLost(log, buf, r)
    && AcksHeld(log, r)
    && AcksOnWire(log, rcvNet, r)
    && Delivered(log, r, delivered)
  }

  ghost predicate Link(s: Node, r: Node) {
    LinkOf(s.log, s.net, s.u.snd.buf, r.u.rcv, r.net, r.delivered)
  }

  ghost predicate Inv(s: Sys) {
    NodeOk(s.a) && NodeOk(s.b) && s.a.u.cfg.conv == s.b.u.cfg.conv && Link(s.a, s.b) && Link(s.b, s.a)
  }
}
