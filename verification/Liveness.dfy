/** Liveness: over cycles of waiting, a round trip in which nothing is lost, and reading, all that
    was accepted reaches the receiver's queue. Both sides flush in `ikcp_update` only. */
module Liveness {
  import opened Options
  import opened Serial
  import opened Wire
  import opened Engine
  import opened Window
  import opened Refinement
  import opened Sending
  import opened System
  import opened Safety
  import opened Runs
  import opened Progress
  import Congestion

  // ---------------------------------------------------------------- schedules

  /** The node once an update has read the clock, before it flushes. */
  function Ticked(n: Node, now: nat): Node {
    n.(c := n.c.(ctl := UpdateTick(n.c.cfg, n.c.ctl, now).ctl), u := n.u.(ctl := UpdateTick(n.u.cfg, n.u.ctl, now).ctl))
  }

  /** An update at this time flushes. */
  predicate Due(n: Node, now: nat) { UpdateTick(n.c.cfg, n.c.ctl, now).due }

  /** The datagrams of an update that flushes. */
  function Sent(n: Node, now: nat): seq<Pkt> { Out(Ticked(n, now)) }

  /** `a` updates, and `b` gets all it sends. */
  function Depart(s: Sys, now: nat): Sys { Sys(NodeUpdate(s.a, now), DeliverAll(s.b, Sent(s.a, now))) }

  /** `b` updates, and `a` gets all it sends. */
  function Answer(s: Sys, now: nat): Sys { Sys(DeliverAll(s.a, Sent(s.b, now)), NodeUpdate(s.b, now)) }

  /** Some waiting, an update of `a` at `nowA` whose datagrams arrive, some idling, an update of
      `b` at `nowB` whose datagrams arrive, some reading at `b`. */
  datatype Cycle = Cycle(wait: seq<Step>, nowA: nat, idle: seq<Step>, nowB: nat, receive: seq<Step>)

  /** While waiting, clocks advance and updates may flush; what they send may be lost. `b` may
      send, as well. */
  predicate Quiet(st: Step) { st.ev.FlushE? || st.ev.UpdateE? || (!st.atA && st.ev.SendE?) }

  predicate Read(st: Step) { !st.atA && st.ev.RecvE? }

  /** Between the two updates of a round trip `a` may go on updating and `b` may read, send and
      update; but its next flush is the answer. */
  predicate IdleStep(s: Sys, st: Step) {
    if st.atA then Quiet(st) else st.ev.RecvE? || st.ev.SendE? || (st.ev.UpdateE? && !Due(s.b, st.ev.now))
  }

  predicate Idle(s: Sys, idle: seq<Step>)
    decreases |idle|
  {
    idle == [] || (IdleStep(s, idle[0]) && Idle(Apply(s, idle[0]), idle[1..]))
  }

  function PlayCycle(s: Sys, c: Cycle): Sys {
    Exec(Answer(Exec(Depart(Exec(s, c.wait), c.nowA), c.idle), c.nowB), c.receive)
  }

  function Play(s: Sys, cs: seq<Cycle>): Sys
    decreases |cs|
  {
    if cs == [] then s else Play(PlayCycle(s, cs[0]), cs[1..])
  }

  /** The timer of the window probe runs, and has run out. */
  predicate ProbeOut(ctl: Control) { ctl.probeWait != 0 && Diff(ctl.current, ctl.tsProbe) >= 0 }

  /** A flush now transmits the oldest unacknowledged segment; with none left and the peer's
      window last seen closed, it asks for the window. */
  predicate HeadOut(s: State) {
    if s.snd.buf != [] then FlushPass(s).Why(s.snd.buf[0]) != Hold else s.ctl.rmtWnd == 0 ==> ProbeOut(s.ctl)
  }

  ghost predicate HasRoom(n: Node) { |n.u.rcv.queue| < n.u.cfg.rcvWnd }

  /** The update that starts a round trip flushes at a time when the timer of the oldest
      unacknowledged segment, or of the window probe, has run out. */
  predicate Departs(n: Node, now: nat) {
    now < TWO32 && Due(n, now) && HeadOut(Ticked(n, now).u)
  }

  ghost predicate WaitOk(s: Sys, c: Cycle) {
    IsRun(s, c.wait) && (forall st :: st in c.wait ==> Quiet(st)) && Departs(Exec(s, c.wait).a, c.nowA)
  }

  ghost predicate IdleOk(s: Sys, c: Cycle) {
    IsRun(s, c.idle) && Idle(s, c.idle) && c.nowB < TWO32 && Due(Exec(s, c.idle).b, c.nowB)
  }

  /** A cycle as it should be; the reading leaves room in the queue. */
  ghost predicate CycleOk(s: Sys, c: Cycle) {
    && WaitOk(s, c) && IdleOk(Depart(Exec(s, c.wait), c.nowA), c)
    && (forall st :: st in c.receive ==> Read(st)) && HasRoom(PlayCycle(s, c).b)
  }

  ghost predicate PlayOk(s: Sys, cs: seq<Cycle>)
    decreases |cs|
  {
    cs == [] || (CycleOk(s, cs[0]) && PlayOk(PlayCycle(s, cs[0]), cs[1..]))
  }

  /** No pending ack is far behind. */
  ghost predicate Recent(n: Node) { AcksAbove(n.u, n.u.rcv.nxt - RECENT) }

  ghost predicate Going(s: Sys) {
    Inv(s) && Recent(s.a) && Recent(s.b)
  }

  /** How many segments there are to be received in all. */
  function Total(n: Node): nat { |n.log| + |n.u.snd.queue| }

  /** Nothing more was accepted. */
  ghost predicate SameLoad(n: Node, t: Node) {
    Total(t) == Total(n) && t.accepted == n.accepted
  }

  /** The next round trip is bound to carry a new segment, if there is one: all before it is
      acknowledged and the windows are open. */
  ghost predicate Ready(a: Node, b: Node) {
    a.u.snd.una >= b.u.rcv.nxt && a.u.ctl.rmtWnd > 0 && a.u.ctl.cwnd > 0
  }

  // ---------------------------------------------------------------- waiting

  /** What quiet events leave: `n` before, `t` after. */
  ghost predicate Waited(n: Node, t: Node) {
    && t.u.cfg == n.u.cfg && t.u.snd.una == n.u.snd.una
    && t.u.ctl.rmtWnd == n.u.ctl.rmtWnd && (n.u.ctl.cwnd > 0 ==> t.u.ctl.cwnd > 0)
    && t.u.rcv.nxt == n.u.rcv.nxt && t.u.rcv.queue == n.u.rcv.queue
    && (t.u.rcv.acks == n.u.rcv.acks || t.u.rcv.acks == [])
  }

  lemma FlushLeavesWindow(cfg: Config, ctl: Control, fast: bool, lost: bool, inflight: nat, window: nat)
    ensures CwndAfterFlush(cfg, ctl, fast, lost, inflight, window).cwnd > 0
  { }

  lemma FlushControlOpen(s: State, snd: Sender)
    ensures FlushControl(s, snd).cwnd > 0 && FlushControl(s, snd).rmtWnd == s.ctl.rmtWnd
  {
    Congestion.FlushControlFrame(s, snd);
    var ctl, pass := ProbeTimer(s.ctl), FlushPass(s);
    var timeouts := pass.CountWhy(snd.buf, Timeout);
    var ctl1 := ctl.(askSend := false, askTell := false, xmit := U32(ctl.xmit + timeouts),
                     dead := ctl.dead || pass.Dies(snd.buf));
    FlushLeavesWindow(s.cfg, ctl1, pass.CountWhy(snd.buf, Fast) > 0, timeouts > 0, U32(snd.nxt - snd.una),
                      FlushWindow(s));
  }

  lemma FlushWaits(n: Node)
    requires NodeOk(n)
    ensures Waited(n, NodeFlush(n)) && NodeFlush(n).u.ctl.cwnd > 0 && NodeFlush(n).u.rcv.acks == []
    ensures SameLoad(n, NodeFlush(n))
  {
    hide FlushControl, NodeOk, FlushSegs, FlushSender, FlushWindow, Emitted, AdmitCount, Ok, Numbered;
    OkOf(n);
    FlushFrame(n.u);
    FlushLog(n);
    FlushControlOpen(n.u, FlushSender(Unbounded, n.u));
  }

  lemma OkOf(n: Node)
    requires NodeOk(n)
    ensures Ok(n.u) && |n.log| == n.u.snd.nxt
  { }

  /** Reading the clock changes only the clock. */
  lemma TickWaits(n: Node, now: nat)
    requires NodeOk(n) && now < TWO32
    ensures NodeOk(Ticked(n, now)) && Waited(n, Ticked(n, now)) && SameLoad(n, Ticked(n, now))
    ensures Ticked(n, now).u.rcv == n.u.rcv && Ticked(n, now).u.snd == n.u.snd
    ensures Ticked(n, now).u.ctl.askTell == n.u.ctl.askTell
    ensures NodeUpdate(n, now) == if Due(n, now) then NodeFlush(Ticked(n, now)) else Ticked(n, now)
  {
    hide NodeFlush;
    TickClock(n.u.cfg, n.u.ctl, now);
  }

  lemma UpdateWaits(n: Node, now: nat)
    requires NodeOk(n) && now < TWO32
    ensures Waited(n, NodeUpdate(n, now)) && SameLoad(n, NodeUpdate(n, now))
  {
    hide NodeFlush, NodeOk, Ticked, NodeUpdate, Waited, SameLoad;
    TickWaits(n, now);
    if Due(n, now) {
      FlushWaits(Ticked(n, now));
      WaitedMore(n, Ticked(n, now), NodeFlush(Ticked(n, now)));
      SameLoadTwice(n, Ticked(n, now), NodeFlush(Ticked(n, now)));
    }
  }

  lemma QuietWaits(n: Node, atA: bool, ev: Event)
    requires NodeOk(n) && Quiet(Step(atA, ev)) && (ev.UpdateE? ==> ev.now < TWO32)
    ensures Waited(n, NodeStep(n, ev)) && (atA ==> SameLoad(n, NodeStep(n, ev)))
  {
    match ev
    case FlushE => FlushWaits(n);
    case UpdateE(now) => UpdateWaits(n, now);
    case SendE(data) =>
  }

  lemma WaitedMore(n: Node, t: Node, r: Node)
    requires Waited(n, t) && Waited(t, r)
    ensures Waited(n, r)
  { }

  lemma SameLoadTwice(n: Node, t: Node, r: Node)
    requires SameLoad(n, t) && SameLoad(t, r)
    ensures SameLoad(n, r)
  { }

  lemma {:induction false} WaitKeeps(s: Sys, wait: seq<Step>)
    requires Inv(s) && IsRun(s, wait) && forall st :: st in wait ==> Quiet(st)
    ensures var t := Exec(s, wait);
            Inv(t) && Waited(s.a, t.a) && Waited(s.b, t.b) && SameLoad(s.a, t.a)
    decreases |wait|
  {
    if wait != [] {
      var st := wait[0];
      assert st in wait;
      if st.atA {
        StepKeeps(s.a, s.b, st.ev);
        QuietWaits(s.a, true, st.ev);
      } else {
        StepKeeps(s.b, s.a, st.ev);
        QuietWaits(s.b, false, st.ev);
      }
      var s1 := Apply(s, st);
      WaitKeeps(s1, wait[1..]);
      WaitedMore(s.a, s1.a, Exec(s, wait).a);
      WaitedMore(s.b, s1.b, Exec(s, wait).b);
    }
  }

  lemma TickStays(n: Node, m: Node, now: nat)
    requires Paired(n, m) && now < TWO32
    ensures Paired(Ticked(n, now), m)
  {
    hide LinkOf;
    TickClock(n.u.cfg, n.u.ctl, now);
    TickStep(n, m, UpdateTick(n.u.cfg, n.u.ctl, now).ctl);
  }

  // ---------------------------------------------------------------- what comes back to the sender

  ghost predicate Says(pkts: seq<Pkt>, w: nat, una: int) {
    forall p :: p in pkts ==> p.tags != [] && forall g :: g in p.tags ==> g.wnd == w && g.una == una
  }

  /** A cumulative acknowledgement moves `snd_una` to the number it names, or to `snd_nxt`. */
  lemma SegUna(s: State, g: Seg)
    requires Ok(s)
    ensures var t := InputSeg(Unbounded, s, g); t.snd.una >= s.snd.una && t.snd.una >= Min(s.snd.nxt, g.una)
  {
    hide InputPush, InputControl, InputAcks;
    InputSegKeeps(s, g);
    InputAcksKeeps(s.cfg, s.snd, g);
    var t := InputSeg(Unbounded, s, g);
    if t.snd.buf != [] { assert t.snd.buf[0] in t.snd.buf; }
  }

  lemma DatagramUna(s: State, gs: seq<Seg>, una: int)
    requires Ok(s) && gs != [] && forall g :: g in gs ==> g.una == una
    ensures var t := InputParsed(Unbounded, s, Parsed(gs, 0));
            Ok(t) && t.snd.nxt == s.snd.nxt && t.snd.una >= s.snd.una && t.snd.una >= Min(s.snd.nxt, una)
  {
    hide InputSeg, Ok, MaxAck;
    var n := |gs| - 1;
    assert gs[n] in gs;
    InputSegsKeep(s, gs[..n]);
    SegUna(InputSegs(Unbounded, s, gs[..n]), gs[n]);
    InputSegsKeep(s, gs);
    EndKeepsUna(InputSegs(Unbounded, s, gs), s.snd.una, MaxAck(Unbounded, gs));
    InputParsedKeeps(s, Parsed(gs, 0));
    InputFrame(s, gs);
  }

  lemma EndKeepsUna(s: State, una0: nat, m: Option<nat>)
    ensures InputEnd(Unbounded, s, una0, m).snd.una == s.snd.una
  {
    hide GrowCwnd, CountSkips;
  }

  lemma {:induction false} UnaLearned(n: Node, pkts: seq<Pkt>, w: nat, una: int)
    requires Ok(n.u) && Says(pkts, w, una)
    ensures var t := DeliverAll(n, pkts).u.snd;
            t.una >= n.u.snd.una && (pkts != [] ==> t.una >= Min(n.u.snd.nxt, una))
    decreases |pkts|
  {
    hide InputParsed, Ok;
    if pkts != [] {
      assert pkts[0] in pkts;
      DatagramUna(n.u, pkts[0].tags, una);
      UnaLearned(NodeInput(n, pkts[0]), pkts[1..], w, una);
    }
  }

  lemma {:induction false} SegsControl(s: State, gs: seq<Seg>, w: nat)
    requires forall g :: g in gs ==> g.wnd == w
    ensures var c := InputSegs(Unbounded, s, gs).ctl;
            c.rmtWnd == (if gs == [] then s.ctl.rmtWnd else w) && c.cwnd == s.ctl.cwnd
    ensures InputSegs(Unbounded, s, gs).cfg == s.cfg
    decreases |gs|
  {
    hide InputAcks, InputPush, UpdateAck;
    if gs != [] {
      var n := |gs| - 1;
      SegsControl(s, gs[..n], w);
      assert gs[n] in gs;
      var t := InputSegs(Unbounded, s, gs[..n]);
      SegControl(t.cfg, t.ctl, gs[n]);
    }
  }

  lemma SegControl(cfg: Config, ctl: Control, g: Seg)
    ensures InputControl(cfg, ctl, g).rmtWnd == g.wnd && InputControl(cfg, ctl, g).cwnd == ctl.cwnd
  { }

  lemma GrowOpen(cfg: Config, ctl: Control)
    requires ctl.rmtWnd < 65536
    ensures GrowCwnd(cfg, ctl).rmtWnd == ctl.rmtWnd && (ctl.cwnd > 0 ==> GrowCwnd(cfg, ctl).cwnd > 0)
  {
    Congestion.ClampIsDead(cfg, ctl);
    U32Small(ctl.cwnd + 1);
  }

  /** A datagram tells the window; the congestion window stays open. */
  lemma DatagramControl(s: State, gs: seq<Seg>, w: nat)
    requires gs != [] && w < 65536 && forall g :: g in gs ==> g.wnd == w
    ensures var t := InputParsed(Unbounded, s, Parsed(gs, 0));
            t.ctl.rmtWnd == w && (s.ctl.cwnd > 0 ==> t.ctl.cwnd > 0)
  {
    SegsControl(s, gs, w);
    var t := InputSegs(Unbounded, s, gs);
    GrowOpen(t.cfg, t.ctl);
    hide InputSegs, GrowCwnd, MaxAck, ParseFastAck;
  }

  lemma {:induction false} WindowLearned(n: Node, pkts: seq<Pkt>, w: nat, una: int)
    requires Says(pkts, w, una) && w < 65536
    ensures var t := DeliverAll(n, pkts).u;
            t.ctl.rmtWnd == (if pkts == [] then n.u.ctl.rmtWnd else w) && (n.u.ctl.cwnd > 0 ==> t.ctl.cwnd > 0)
    decreases |pkts|
  {
    hide InputParsed;
    if pkts != [] {
      assert pkts[0] in pkts;
      DatagramControl(n.u, pkts[0].tags, w);
      WindowLearned(NodeInput(n, pkts[0]), pkts[1..], w, una);
    }
  }

  lemma WindowBounds(n: Node)
    ensures WndUnused(n.u.cfg, n.u.rcv) < 65536 && (HasRoom(n) ==> WndUnused(n.u.cfg, n.u.rcv) > 0)
  { }

  lemma PktHasTags(cfg: Config, p: Pkt)
    requires PktOk(cfg, p)
    ensures p.tags != []
  { }

  /** Every datagram of a flush tells the free receive window and `rcv_nxt`. */
  lemma OutSays(n: Node)
    requires NodeOk(n)
    ensures Says(Out(n), WndUnused(n.u.cfg, n.u.rcv), n.u.rcv.nxt)
  {
    hide FlushSegs, FlushControl, FlushSender;
    OkOf(n);
    EmittedOk(n);
    FlushSegKinds(n.u);
    forall p | p in Out(n)
      ensures p.tags != [] && forall g :: g in p.tags ==> g.wnd == WndUnused(n.u.cfg, n.u.rcv) && g.una == n.u.rcv.nxt
    {
      PktHasTags(n.u.cfg, p);
      forall g | g in p.tags ensures g.wnd == WndUnused(n.u.cfg, n.u.rcv) && g.una == n.u.rcv.nxt {
        assert FlushSegKind(n.u, Flush(Unbounded, n.u).s.snd.buf, g);
      }
    }
  }

  // ---------------------------------------------------------------- the window probe

  ghost predicate AskIn(gs: seq<Seg>) { exists g :: g in gs && g.cmd == CMD_WASK }

  lemma {:induction false} AskIsHeard(s: State, gs: seq<Seg>)
    ensures var c := InputSegs(Unbounded, s, gs).ctl;
            AskIn(gs) || s.ctl.askTell ==> c.askTell
    decreases |gs|
  {
    hide InputAcks, InputPush, UpdateAck;
    if gs != [] {
      var n := |gs| - 1;
      AskIsHeard(s, gs[..n]);
      assert gs == gs[..n] + [gs[n]];
      var t := InputSegs(Unbounded, s, gs[..n]);
      AskOne(t.cfg, t.ctl, gs[n]);
    }
  }

  lemma AskOne(cfg: Config, ctl: Control, g: Seg)
    ensures g.cmd == CMD_WASK || ctl.askTell ==> InputControl(cfg, ctl, g).askTell
  { }

  lemma AskInDatagram(s: State, gs: seq<Seg>)
    ensures var t := InputParsed(Unbounded, s, Parsed(gs, 0));
            AskIn(gs) || s.ctl.askTell ==> t.ctl.askTell
  {
    AskIsHeard(s, gs);
    var t := InputSegs(Unbounded, s, gs);
    hide InputSegs, MaxAck, ParseFastAck;
  }

  lemma {:induction false} AskHeardInAll(n: Node, pkts: seq<Pkt>)
    ensures (exists p :: p in pkts && AskIn(p.tags)) || n.u.ctl.askTell ==> DeliverAll(n, pkts).u.ctl.askTell
    decreases |pkts|
  {
    hide InputParsed;
    if pkts != [] {
      AskInDatagram(n.u, pkts[0].tags);
      AskHeardInAll(NodeInput(n, pkts[0]), pkts[1..]);
      assert pkts == [pkts[0]] + pkts[1..];
    }
  }

  /** The probe commands of a flush: the question when the window was last seen closed and
      the probe timer has run out, the answer when asked. */
  lemma ProbesSent(s: State)
    ensures var segs := Flush(Unbounded, s).segs;
            && (ProbeOut(s.ctl) && s.ctl.rmtWnd == 0 ==> AskIn(segs))
            && (s.ctl.askTell ==> segs != [])
  {
    hide AckSegs, Pass.DueSegs, FlushSender, FlushControl, WndUnused, Header;
    var ctl := ProbeTimer(s.ctl);
    var ps, segs := ProbeSegs(s, ctl), Flush(Unbounded, s).segs;
    assert segs[|s.rcv.acks|..][..|ps|] == ps;
    if ProbeOut(s.ctl) && s.ctl.rmtWnd == 0 {
      HeaderCmd(s, CMD_WASK, if s.rcv.acks == [] then Ack(0, 0) else s.rcv.acks[|s.rcv.acks| - 1]);
      assert ps[0] in segs;
    }
  }

  lemma HeaderCmd(s: State, cmd: nat, last: Ack)
    ensures Header(s, cmd, last.sn, last.ts).cmd == cmd
  { }

  /** With the window closed and the probe timer run out, the flush asks for the window. */
  lemma FlushAsks(n: Node)
    requires NodeOk(n) && ProbeOut(n.u.ctl) && n.u.ctl.rmtWnd == 0
    ensures exists p :: p in Out(n) && AskIn(p.tags)
  {
    hide Flush, NodeOk, ProbeOut, Out;
    ProbesSent(n.u);
    var g :| g in Flush(Unbounded, n.u).segs && g.cmd == CMD_WASK;
    OutHas(n, g);
    var p :| p in Out(n) && g in p.tags;
    assert AskIn(p.tags);
  }

  /** Asked, or with acks pending, a flush answers. */
  lemma FlushTells(n: Node)
    requires NodeOk(n) && (n.u.ctl.askTell || n.u.rcv.acks != [])
    ensures Out(n) != []
  {
    hide Flush, NodeOk, Out;
    ProbesSent(n.u);
    if n.u.rcv.acks != [] { FlushSendsAcks(n.u, n.u.rcv.acks[0]); }
    OutHas(n, Flush(Unbounded, n.u).segs[0]);
  }

  // ---------------------------------------------------------------- small facts

  lemma WaitedGives(n: Node, t: Node)
    requires Waited(n, t)
    ensures t.u.ctl.rmtWnd == n.u.ctl.rmtWnd && t.u.rcv.nxt == n.u.rcv.nxt && t.u.cfg == n.u.cfg
    ensures t.u.rcv.queue == n.u.rcv.queue
    ensures n.u.rcv.acks == [] ==> t.u.rcv.acks == []
    ensures t.u.snd.una == n.u.snd.una && HasRoom(t) == HasRoom(n) && (Recent(n) ==> Recent(t))
    ensures n.u.ctl.cwnd > 0 ==> t.u.ctl.cwnd > 0
  { }

  /** When the sender is ready, its flush numbers a new segment. */
  lemma ReadyNumbers(a: Node, b: Node)
    requires Paired(a, b) && Ready(a, b) && Total(a) > b.u.rcv.nxt
    ensures NodeFlush(a).u.snd.nxt > b.u.rcv.nxt
  {
    hide Flush, FlushWindow, LinkOf, NodeOk, Ready, Total, NodeFlush;
    PairedGivesOk(a, b);
    PairedNumbers(a, b);
    NumbersAndTotal(a, b);
    FlushFrame(a.u);
    FlushedNumber(a);
    ReadyOpens(a, b);
  }

  lemma FlushedNumber(n: Node)
    ensures NodeFlush(n).u == Flush(Unbounded, n.u).s
  { }

  lemma ReadyOpens(a: Node, b: Node)
    requires Ready(a, b)
    ensures FlushWindow(a.u) > 0 && a.u.snd.una >= b.u.rcv.nxt
  { }

  /** What was numbered can only grow by what is queued. */
  lemma NumbersAndTotal(a: Node, b: Node)
    requires Paired(a, b)
    ensures b.u.rcv.nxt <= a.u.snd.nxt <= Total(a) == a.u.snd.nxt + |a.u.snd.queue|
  { }

  lemma PairedNumbers(n: Node, m: Node)
    requires Paired(n, m)
    ensures m.u.rcv.nxt <= n.u.snd.nxt
  { }

  lemma PairedGivesNode(n: Node, m: Node)
    requires Paired(n, m)
    ensures NodeOk(n) && NodeOk(m)
  { }

  lemma GoingGives(s: Sys)
    requires Going(s)
    ensures Paired(s.a, s.b) && Recent(s.a) && Recent(s.b)
    ensures AcksAbove(s.a.u, s.a.u.rcv.nxt - RECENT) && AcksAbove(s.b.u, s.b.u.rcv.nxt - RECENT)
  { }

  lemma RecentIsMore(n: Node)
    requires Recent(n)
    ensures AcksAbove(n.u, n.u.rcv.nxt - RECENT - SLACK)
  { }

  lemma InputQueue(s: State, gs: seq<Seg>)
    ensures InputParsed(Unbounded, s, Parsed(gs, 0)).snd.queue == s.snd.queue
  {
    InputSegsQueue(s, gs);
    hide InputSegs, MaxAck, CountSkips, GrowCwnd;
  }

  lemma {:induction false} DeliverLoad(n: Node, pkts: seq<Pkt>)
    ensures SameLoad(n, DeliverAll(n, pkts))
    decreases |pkts|
  {
    hide InputParsed;
    if pkts != [] {
      InputQueue(n.u, pkts[0].tags);
      DeliverLoad(NodeInput(n, pkts[0]), pkts[1..]);
    }
  }

  lemma PairedIsInv(s: Sys)
    requires Paired(s.a, s.b)
    ensures Inv(s)
  { }

  lemma PairedOf(s: Sys)
    requires Inv(s)
    ensures Paired(s.a, s.b)
  { }

  lemma NothingPending(n: Node)
    requires n.u.rcv.acks == []
    ensures Recent(n)
  { }

  /** After the answering flush arrived, the acks the sender has pending are recent. */
  lemma RecentAgain(n: Node, m: Node, t: Node)
    requires Paired(n, m) && m.u.rcv.acks == [] && Absorbed(m.u, t.u, Out(n)) && Ok(t.u)
    ensures Recent(t)
  {
    WindowsClose(n, m);
    SenderSpan(n.u.cfg, n.u.snd);
    assert t.u.rcv.nxt <= m.u.rcv.nxt + t.u.cfg.rcvWnd;
    forall k | k in t.u.rcv.acks ensures t.u.rcv.nxt - RECENT <= k.sn {
      OutPushes(n, k.sn);
    }
  }

  // ---------------------------------------------------------------- the departing update

  /** The flush transmits the oldest unacknowledged segment. */
  lemma HeadSent(s: State)
    requires Ok(s) && s.snd.buf != [] && HeadOut(s)
    ensures PushIn(Flush(Unbounded, s).segs, s.snd.una)
  {
    hide FlushControl, Admit, FlushWindow, Pass.Why, Pass.DueSegs;
    WindowAtMost(s);
    AdmitKeeps(s, FlushWindow(s));
    var p, buf := FlushPass(s), FlushSender(Unbounded, s).buf;
    assert buf[0] == s.snd.buf[0] && s.snd.buf[0] in s.snd.buf;
    DueSegsHave(p, buf, 0);
    var g := p.Touch(buf[0]).seg;
    assert g in FlushSegs(s, FlushSender(Unbounded, s));
  }

  lemma WindowAtMost(s: State)
    ensures FlushWindow(s) <= s.cfg.sndWnd
  { }

  /** The flush transmits what it numbers. */
  lemma NewSent(s: State)
    requires Flush(Unbounded, s).s.snd.nxt > s.snd.nxt
    ensures PushIn(Flush(Unbounded, s).segs, s.snd.nxt)
  {
    hide FlushControl, FlushWindow, Pass.DueSegs;
    AdmitForm(s, FlushWindow(s));
    hide Admit;
    var p, buf := FlushPass(s), FlushSender(Unbounded, s).buf;
    var k := |s.snd.buf|;
    assert buf[k] == Number(s, s.snd.queue[0], s.snd.nxt);
    DueSegsHave(p, buf, k);
    var g := p.Touch(buf[k]).seg;
    assert g in FlushSegs(s, FlushSender(Unbounded, s));
  }

  /** What the departing update and the delivery of its datagrams achieve, from `s` to `t`: in the
      end `b` has something to answer, or `a` has nothing to hear; and from a ready sender a new
      segment has arrived. */
  ghost predicate Departed(s: Sys, t: Sys) {
    && t.a.u.cfg == s.a.u.cfg && SameLoad(s.a, t.a)
    && t.a.u.snd.una == s.a.u.snd.una && t.a.u.ctl.rmtWnd == s.a.u.ctl.rmtWnd
    && t.a.u.ctl.cwnd > 0 && t.a.u.rcv.acks == []
    && t.b.u.cfg == s.b.u.cfg && s.b.u.rcv.nxt <= t.b.u.rcv.nxt
    && t.b.u.rcv.nxt - |t.b.u.rcv.queue| == s.b.u.rcv.nxt - |s.b.u.rcv.queue|
    && AcksAbove(t.b.u, t.b.u.rcv.nxt - RECENT - 65536)
    && (HasRoom(s.b) ==>
          || t.b.u.rcv.acks != [] || t.b.u.ctl.askTell
          || (s.a.u.snd.una >= s.b.u.rcv.nxt && s.a.u.ctl.rmtWnd > 0))
    && (HasRoom(s.b) && Ready(s.a, s.b) && Total(s.a) > s.b.u.rcv.nxt ==> t.b.u.rcv.nxt > s.b.u.rcv.nxt)
  }

  lemma DepartDoes(s: Sys, now: nat)
    requires Going(s) && Departs(s.a, now)
    ensures Inv(Depart(s, now)) && Departed(s, Depart(s, now))
  {
    hide *;
    var a, b := s.a, s.b;
    var a0 := Ticked(a, now);
    var t := Depart(s, now);
    GoingGives(s);
    DepartsGives(a, now);
    PairedGivesNode(a, b);
    TickWaits(a, now);
    TickStays(a, b, now);
    WaitedGives(a, a0);
    RecentIsMore(a0);
    var a1, b1 := FlushAndDeliver(a0, b);
    DepartIs(s, now);
    PairedIsInv(t);
    PairedGivesOk(a1, b1);
    FlushWaits(a0);
    WaitedGives(a0, a1);
    SameLoadTwice(a, a0, a1);
    StillRecent(a0, b, b1.u);
    BaseStays(b.u, b1.u, Out(a0));
    if HasRoom(b) {
      SomethingToAnswer(a0, b, b1);
      if Ready(a, b) && Total(a) > b.u.rcv.nxt {
        StillReady(a, a0, b);
        NewArrives(a0, b, a1, b1);
      }
    }
    DepartedIs(s, t);
  }

  lemma DepartsGives(n: Node, now: nat)
    requires Departs(n, now)
    ensures now < TWO32 && Due(n, now) && HeadOut(Ticked(n, now).u)
  { }

  lemma DepartIs(s: Sys, now: nat)
    ensures Depart(s, now) == Sys(NodeUpdate(s.a, now), DeliverAll(s.b, Out(Ticked(s.a, now))))
  { }

  /** The receiver has an ack or its window to tell, unless nothing is unacknowledged and the
      window is known to be open. */
  lemma SomethingToAnswer(a: Node, b: Node, b1: Node)
    requires Paired(a, b) && HeadOut(a.u) && HasRoom(b)
    requires b1 == DeliverAll(b, Out(a)) && Absorbed(b.u, b1.u, Out(a))
    ensures || b1.u.rcv.acks != [] || b1.u.ctl.askTell
            || (a.u.snd.una >= b.u.rcv.nxt && a.u.ctl.rmtWnd > 0)
  {
    hide Paired, HeadOut, Absorbed, Out, DeliverAll, HasRoom, PushIn, PushInAny, AckListed, NodeOk, ProbeOut;
    PairedGivesNode(a, b);
    PairedGivesOk(a, b);
    if a.u.snd.buf != [] {
      RoomGives(b);
      UnaBehind(a, b);
      HeadSent(a.u);
      OutHasPush(a, a.u.snd.una);
      PushListed(b.u, b1.u, Out(a), a.u.snd.una);
      ListedSome(b1.u.rcv, a.u.snd.una);
    } else {
      NothingUnacked(a, b);
      if a.u.ctl.rmtWnd == 0 {
        HeadGivesProbe(a.u);
        AskArrives(a, b);
      }
    }
  }

  lemma RoomGives(n: Node)
    requires HasRoom(n)
    ensures |n.u.rcv.queue| < n.u.cfg.rcvWnd
  { }

  lemma PushListed(s: State, t: State, pkts: seq<Pkt>, sn: int)
    requires Absorbed(s, t, pkts) && PushInAny(pkts, sn) && sn < s.rcv.nxt + s.cfg.rcvWnd
    ensures AckListed(t.rcv, sn)
  { }

  lemma ListedSome(r: Receiver, sn: int)
    requires AckListed(r, sn)
    ensures r.acks != []
  { }

  lemma NothingUnacked(a: Node, b: Node)
    requires Paired(a, b) && a.u.snd.buf == []
    ensures a.u.snd.una >= b.u.rcv.nxt
  { }

  lemma HeadGivesProbe(s: State)
    requires HeadOut(s) && s.snd.buf == [] && s.ctl.rmtWnd == 0
    ensures ProbeOut(s.ctl)
  { }

  /** A sender that saw the window closed asks, and its question is heard. */
  lemma AskArrives(a: Node, b: Node)
    requires NodeOk(a) && ProbeOut(a.u.ctl) && a.u.ctl.rmtWnd == 0
    ensures DeliverAll(b, Out(a)).u.ctl.askTell
  {
    hide *;
    FlushAsks(a);
    AskHeardInAll(b, Out(a));
  }

  /** From a ready sender, the segment `rcv_nxt` waits for arrives. */
  lemma NewArrives(a: Node, b: Node, a1: Node, b1: Node)
    requires Paired(a, b) && HeadOut(a.u) && HasRoom(b) && Ready(a, b) && Total(a) > b.u.rcv.nxt
    requires a1 == NodeFlush(a) && Paired(a1, b1) && Absorbed(b.u, b1.u, Out(a))
    ensures b1.u.rcv.nxt > b.u.rcv.nxt
  {
    hide Paired, HeadOut, Absorbed, Out, NodeFlush, Flush, PushIn, PushInAny, AckListed, NodeOk, Total, Ready;
    PairedGivesNode(a, b);
    PairedGivesOk(a, b);
    UnaBehind(a, b);
    ReadyOpens(a, b);
    NumbersAndTotal(a, b);
    if a.u.snd.buf != [] {
      HeadSent(a.u);
    } else {
      NothingUnacked(a, b);
      NobodyUnacked(a.u);
      ReadyNumbers(a, b);
      FlushedNumber(a);
      NewSent(a.u);
    }
    OutHasPush(a, b.u.rcv.nxt);
    PushListed(b.u, b1.u, Out(a), b.u.rcv.nxt);
    BaseStays(b.u, b1.u, Out(a));
    if b1.u.rcv.nxt == b.u.rcv.nxt { ListedIsFull(a1, b1); }
  }

  lemma NobodyUnacked(s: State)
    requires Ok(s) && s.snd.buf == []
    ensures s.snd.una == s.snd.nxt
  { }

  /** The receiver acknowledges the segment it waits for only when its queue is full. */
  lemma ListedIsFull(n: Node, m: Node)
    requires Paired(n, m) && AckListed(m.u.rcv, m.u.rcv.nxt)
    ensures |m.u.rcv.queue| == m.u.cfg.rcvWnd
  {
    hide DataOnWire, AcksOnWire, Received, NothingLost, Delivered, SndOk, NetOk, Clocked, BufMatches;
    var k :| k in m.u.rcv.acks && k.sn == m.u.rcv.nxt;
    HeldIsFull(m.u.cfg.rcvWnd, m.u.rcv);
  }

  lemma StillReady(n: Node, t: Node, b: Node)
    requires Ready(n, b) && Waited(n, t) && SameLoad(n, t)
    ensures Ready(t, b) && Total(t) == Total(n)
  { }

  lemma DepartedIs(s: Sys, t: Sys)
    requires t.a.u.cfg == s.a.u.cfg && SameLoad(s.a, t.a)
    requires t.a.u.snd.una == s.a.u.snd.una && t.a.u.ctl.rmtWnd == s.a.u.ctl.rmtWnd
    requires t.a.u.ctl.cwnd > 0 && t.a.u.rcv.acks == []
    requires t.b.u.cfg == s.b.u.cfg && s.b.u.rcv.nxt <= t.b.u.rcv.nxt
    requires t.b.u.rcv.nxt - |t.b.u.rcv.queue| == s.b.u.rcv.nxt - |s.b.u.rcv.queue|
    requires AcksAbove(t.b.u, t.b.u.rcv.nxt - RECENT - 65536)
    requires HasRoom(s.b) ==>
               || t.b.u.rcv.acks != [] || t.b.u.ctl.askTell
               || (s.a.u.snd.una >= s.b.u.rcv.nxt && s.a.u.ctl.rmtWnd > 0)
    requires HasRoom(s.b) && Ready(s.a, s.b) && Total(s.a) > s.b.u.rcv.nxt ==> t.b.u.rcv.nxt > s.b.u.rcv.nxt
    ensures Departed(s, t)
  { }

  // ---------------------------------------------------------------- idling

  /** What idling leaves at the receiver. */
  ghost predicate Idled(n: Node, t: Node) {
    && t.u.cfg == n.u.cfg && t.u.rcv.acks == n.u.rcv.acks && (n.u.ctl.askTell ==> t.u.ctl.askTell)
    && n.u.rcv.nxt <= t.u.rcv.nxt && n.u.rcv.nxt - |n.u.rcv.queue| <= t.u.rcv.nxt - |t.u.rcv.queue|
    && forall sn: int :: Held(t.u.rcv, sn) <==> Held(n.u.rcv, sn)
  }

  lemma IdledMore(n: Node, t: Node, r: Node)
    requires Idled(n, t) && Idled(t, r)
    ensures Idled(n, r)
  {
    hide Held;
  }

  lemma IdledNone(n: Node)
    ensures Idled(n, n)
  { }

  lemma RecvIdles(n: Node, m: Node, len: int)
    requires Paired(n, m)
    ensures Idled(n, NodeRecv(n, len))
  {
    hide Paired, Held, Recv, RcvOk, NodeRecv;
    PairedGivesRcv(n, m);
    RecvNode(n, len);
    RecvKeeps(n.u, len);
    RecvFrame(n.u, len);
    RecvBase(n, m, len);
    RecvAsks(n.u, len);
  }

  lemma PairedGivesRcv(n: Node, m: Node)
    requires Paired(n, m)
    ensures RcvOk(n.u.cfg.rcvWnd, n.u.rcv)
  { }

  lemma RecvNode(n: Node, len: int)
    ensures NodeRecv(n, len).u == Recv(Unbounded, n.u, len).s
  { }

  lemma RecvAsks(s: State, len: int)
    ensures s.ctl.askTell ==> Recv(Unbounded, s, len).s.ctl.askTell
  {
    hide Drain, PeekSize, MergeCount, Merged;
  }

  lemma RecvBase(n: Node, m: Node, len: int)
    requires Paired(n, m)
    ensures var t := Recv(Unbounded, n.u, len).s.rcv; n.u.rcv.nxt - |n.u.rcv.queue| <= t.nxt - |t.queue|
  {
    hide Recv;
    RecvDelivers(m.log, n.u, len);
  }

  lemma TickIdles(n: Node, now: nat)
    requires NodeOk(n) && now < TWO32 && !Due(n, now)
    ensures Idled(n, NodeUpdate(n, now))
  {
    hide Ticked, NodeUpdate, Held, NodeOk;
    TickWaits(n, now);
    TickConfig(n, now);
    IdledNone(n);
  }

  lemma TickConfig(n: Node, now: nat)
    ensures Ticked(n, now).u.cfg == n.u.cfg
  { }

  lemma IdleStepDoes(s: Sys, st: Step)
    requires Inv(s) && StepEnabled(s, st) && IdleStep(s, st)
    ensures var t := Apply(s, st);
            Inv(t) && Waited(s.a, t.a) && SameLoad(s.a, t.a) && Idled(s.b, t.b)
  {
    hide NodeSend, NodeRecv, NodeFlush, NodeUpdate, NodeInput, Waited, SameLoad, Idled, NodeOk, Link, Due;
    PairedOf(s);
    if st.atA {
      StepKeeps(s.a, s.b, st.ev);
      QuietWaits(s.a, true, st.ev);
      IdledNone(s.b);
    } else {
      StepKeeps(s.b, s.a, st.ev);
      WaitedNone(s.a);
      match st.ev
      case RecvE(len) => RecvIdles(s.b, s.a, len);
      case UpdateE(now) => TickIdles(s.b, now);
      case SendE(data) => SendIdles(s.b, data);
    }
  }

  lemma WaitedNone(n: Node)
    ensures Waited(n, n) && SameLoad(n, n)
  { }

  lemma SendIdles(n: Node, data: seq<byte>)
    ensures Idled(n, NodeSend(n, data))
  { }

  lemma {:induction false} IdleKeeps(s: Sys, idle: seq<Step>)
    requires Inv(s) && IsRun(s, idle) && Idle(s, idle)
    ensures var t := Exec(s, idle);
            Inv(t) && Waited(s.a, t.a) && SameLoad(s.a, t.a) && Idled(s.b, t.b)
    decreases |idle|
  {
    hide Apply, IdleStep, StepEnabled, Inv, Waited, SameLoad, Idled;
    if idle == [] {
      WaitedNone(s.a);
      IdledNone(s.b);
    } else {
      var s1 := Apply(s, idle[0]);
      IdleStepDoes(s, idle[0]);
      IdleKeeps(s1, idle[1..]);
      var t := Exec(s, idle);
      WaitedMore(s.a, s1.a, t.a);
      SameLoadTwice(s.a, s1.a, t.a);
      IdledMore(s.b, s1.b, t.b);
    }
  }

  /** Reading moves `rcv_nxt` no further than the window end. */
  lemma IdledNear(n: Node, t: Node)
    requires NodeOk(n) && Idled(n, t)
    ensures t.u.rcv.nxt <= n.u.rcv.nxt + n.u.cfg.rcvWnd
  {
    hide SndOk;
    var r := n.u.rcv;
    if t.u.rcv.nxt > r.nxt {
      assert Held(t.u.rcv, t.u.rcv.nxt - 1);
      var sn := t.u.rcv.nxt - 1;
      if sn >= r.nxt { var g :| g in r.buf && g.sn == sn; }
    }
  }

  lemma IdledRecent(n: Node, t: Node)
    requires NodeOk(n) && Idled(n, t) && AcksAbove(n.u, n.u.rcv.nxt - RECENT - 65536)
    ensures AcksAbove(t.u, t.u.rcv.nxt - RECENT - SLACK)
  {
    hide NodeOk, Held;
    IdledNear(n, t);
  }

  // ---------------------------------------------------------------- the answering update

  /** What the answering update and the delivery of its datagrams achieve, from `s` to `t`. */
  ghost predicate Answered(s: Sys, t: Sys) {
    && t.a.u.cfg == s.a.u.cfg && SameLoad(s.a, t.a) && Recent(t.a)
    && t.a.u.ctl.cwnd > 0 && t.a.u.snd.una >= s.a.u.snd.una
    && t.b.u.cfg == s.b.u.cfg && t.b.u.rcv == s.b.u.rcv.(acks := [])
    && (HasRoom(s.b) && s.a.u.ctl.rmtWnd > 0 ==> t.a.u.ctl.rmtWnd > 0)
    && (s.b.u.ctl.askTell || s.b.u.rcv.acks != [] ==>
          t.a.u.snd.una >= s.b.u.rcv.nxt && (HasRoom(s.b) ==> t.a.u.ctl.rmtWnd > 0))
  }

  lemma AnswerDoes(s: Sys, now: nat)
    requires Inv(s) && now < TWO32 && Due(s.b, now) && AcksAbove(s.b.u, s.b.u.rcv.nxt - RECENT - SLACK)
    requires s.a.u.rcv.acks == [] && s.a.u.ctl.cwnd > 0
    ensures Inv(Answer(s, now)) && Answered(s, Answer(s, now))
  {
    hide *;
    var a, b := s.a, s.b;
    var b0 := Ticked(b, now);
    var t := Answer(s, now);
    PairedOf(s);
    PairedGivesNode(a, b);
    PairedGivesOk(a, b);
    PairedNumbers(a, b);
    PairedSym(a, b);
    TickWaits(b, now);
    TickStays(b, a, now);
    TickConfig(b, now);
    SameAcks(b.u, b0.u);
    WaitedGives(b, b0);
    var b1, a1 := FlushAndDeliver(b0, a);
    AnswerIs(s, now);
    PairedSym(b1, a1);
    PairedIsInv(t);
    PairedGivesOk(a1, b1);
    RecentAgain(b0, a, a1);
    BaseStays(a.u, a1.u, Out(b0));
    DeliverLoad(a, Out(b0));
    SameReceiver(b0);
    AnswerOpens(b0, a);
    AnsweredIs(s, t);
  }

  lemma SameAcks(s: State, t: State)
    requires t.rcv == s.rcv
    ensures forall bound: int :: AcksAbove(t, bound) == AcksAbove(s, bound)
  { }

  lemma AnswerIs(s: Sys, now: nat)
    ensures Answer(s, now) == Sys(DeliverAll(s.a, Out(Ticked(s.b, now))), NodeUpdate(s.b, now))
  { }

  /** What the datagrams of `b` do for the windows of `a`: they acknowledge all `b` has received,
      and tell its window. */
  lemma AnswerOpens(b: Node, a: Node)
    requires NodeOk(b) && Ok(a.u) && b.u.rcv.nxt <= a.u.snd.nxt
    ensures var t := DeliverAll(a, Out(b)).u;
            && t.snd.una >= a.u.snd.una && (a.u.ctl.cwnd > 0 ==> t.ctl.cwnd > 0)
            && (HasRoom(b) && a.u.ctl.rmtWnd > 0 ==> t.ctl.rmtWnd > 0)
            && (b.u.ctl.askTell || b.u.rcv.acks != [] ==>
                  t.snd.una >= b.u.rcv.nxt && (HasRoom(b) ==> t.ctl.rmtWnd > 0))
  {
    hide *;
    var w := WndUnused(b.u.cfg, b.u.rcv);
    OutSays(b);
    WindowBounds(b);
    WindowLearned(a, Out(b), w, b.u.rcv.nxt);
    UnaLearned(a, Out(b), w, b.u.rcv.nxt);
    MinIs(a.u.snd.nxt, b.u.rcv.nxt);
    if b.u.ctl.askTell || b.u.rcv.acks != [] { FlushTells(b); }
  }

  lemma MinIs(x: int, y: int)
    ensures y <= x ==> Min(x, y) == y
  { }

  lemma AnsweredIs(s: Sys, t: Sys)
    requires t.a.u.cfg == s.a.u.cfg && SameLoad(s.a, t.a) && Recent(t.a)
    requires t.a.u.ctl.cwnd > 0 && t.a.u.snd.una >= s.a.u.snd.una
    requires t.b.u.cfg == s.b.u.cfg && t.b.u.rcv == s.b.u.rcv.(acks := [])
    requires HasRoom(s.b) && s.a.u.ctl.rmtWnd > 0 ==> t.a.u.ctl.rmtWnd > 0
    requires s.b.u.ctl.askTell || s.b.u.rcv.acks != [] ==>
               t.a.u.snd.una >= s.b.u.rcv.nxt && (HasRoom(s.b) ==> t.a.u.ctl.rmtWnd > 0)
    ensures Answered(s, t)
  { }

  // ---------------------------------------------------------------- reading

  lemma {:induction false} ReadsKeep(s: Sys, receive: seq<Step>)
    requires Inv(s) && s.b.u.rcv.acks == [] && forall st :: st in receive ==> Read(st)
    ensures var t := Exec(s, receive);
            && IsRun(s, receive) && Inv(t) && t.a == s.a
            && t.b.u.rcv.acks == [] && t.b.u.cfg == s.b.u.cfg && s.b.u.rcv.nxt <= t.b.u.rcv.nxt
    decreases |receive|
  {
    if receive != [] {
      var st := receive[0];
      assert st in receive;
      StepKeeps(s.b, s.a, st.ev);
      ReadKeeps(s.b, st.ev.len);
      hide Inv;
      ReadsKeep(Apply(s, st), receive[1..]);
    }
  }

  lemma ReadKeeps(n: Node, len: int)
    requires NodeOk(n)
    ensures var t := NodeRecv(n, len).u;
            t.rcv.acks == n.u.rcv.acks && t.cfg == n.u.cfg && n.u.rcv.nxt <= t.rcv.nxt
  {
    OkOf(n);
    RecvKeeps(n.u, len);
    RecvFrame(n.u, len);
  }

  /** In stream mode a buffer of one mss reads from any queue that is not empty, so reading can
      always leave room. (In message mode see `Messages.FullQueueIsRead`.) */
  lemma StreamIsRead(s: Node, r: Node, len: int)
    requires Paired(s, r) && s.u.cfg.stream && r.u.rcv.queue != [] && len >= s.u.cfg.Mss()
    ensures Recv(Unbounded, r.u, len).code >= 0
    ensures |Recv(Unbounded, r.u, len).data| == |r.u.rcv.queue[0].data|
  {
    hide Paired, Recv;
    StreamHead(s, r);
    WholeHead(r.u.rcv.queue);
    RecvHead(r.u, len);
  }

  lemma StreamHead(s: Node, r: Node)
    requires Paired(s, r) && s.u.cfg.stream && r.u.rcv.queue != []
    ensures r.u.rcv.queue[0].frg == 0 && |r.u.rcv.queue[0].data| <= s.u.cfg.Mss()
  {
    hide NothingLost, AcksHeld, AcksOnWire, DataOnWire, Ok, NetOk, BufMatches, Clocked, Delivered;
    var g := r.u.rcv.queue[0];
    assert IsNumbered(s.log, g);
    assert s.log[g.sn] in s.log;
    assert FragOk(s.u.cfg, g.Pay());
  }

  lemma WholeHead(queue: seq<Seg>)
    requires queue != [] && queue[0].frg == 0
    ensures PeekSize(queue) == |Merged(queue)| == |queue[0].data|
  {
    assert Payloads(queue[..1])[0] == queue[0].Pay();
    assert Bytes(Payloads(queue[..1])[1..]) == [];
  }

  lemma RecvHead(s: State, len: int)
    requires s.rcv.queue != [] && 0 <= PeekSize(s.rcv.queue) <= len
    ensures Recv(Unbounded, s, len).code >= 0 && Recv(Unbounded, s, len).data == Merged(s.rcv.queue)
  {
    hide PeekSize, Merged, Drain;
  }

  // ---------------------------------------------------------------- one cycle

  /** How far a cycle brings a connection: from `s` to `t`. */
  ghost predicate Moved(s: Sys, t: Sys) {
    && t.a.u.cfg == s.a.u.cfg && SameLoad(s.a, t.a) && s.b.u.rcv.nxt <= t.b.u.rcv.nxt
    && (HasRoom(s.b) ==> t.b.u.rcv.nxt > s.b.u.rcv.nxt || Ready(t.a, t.b))
    && (HasRoom(s.b) && Ready(s.a, s.b) && Total(s.a) > s.b.u.rcv.nxt ==> t.b.u.rcv.nxt > s.b.u.rcv.nxt)
  }

  /** The states a cycle goes through. */
  ghost predicate Stages(s: Sys, c: Cycle, s1: Sys, s2: Sys, s3: Sys, s4: Sys, t: Sys) {
    && s1 == Exec(s, c.wait) && s2 == Depart(s1, c.nowA) && s3 == Exec(s2, c.idle)
    && s4 == Answer(s3, c.nowB) && t == Exec(s4, c.receive) == PlayCycle(s, c)
  }

  lemma CycleGives(s: Sys, c: Cycle) returns (s1: Sys, s2: Sys, s3: Sys, s4: Sys, t: Sys)
    requires CycleOk(s, c)
    ensures Stages(s, c, s1, s2, s3, s4, t)
    ensures IsRun(s, c.wait) && (forall st :: st in c.wait ==> Quiet(st)) && Departs(s1.a, c.nowA)
    ensures IsRun(s2, c.idle) && Idle(s2, c.idle) && c.nowB < TWO32 && Due(s3.b, c.nowB)
    ensures (forall st :: st in c.receive ==> Read(st)) && HasRoom(t.b)
  {
    hide Exec, IsRun, Idle, Depart, Answer, Departs, Due, HasRoom;
    s1 := Exec(s, c.wait);
    s2 := Depart(s1, c.nowA);
    s3 := Exec(s2, c.idle);
    s4 := Answer(s3, c.nowB);
    t := Exec(s4, c.receive);
  }

  /** A cycle, up to its answer: what holds at each stage. */
  lemma CycleStages(s: Sys, c: Cycle) returns (s1: Sys, s2: Sys, s3: Sys, s4: Sys, t: Sys)
    requires Going(s) && CycleOk(s, c)
    ensures Stages(s, c, s1, s2, s3, s4, t)
    ensures Going(s1) && Waited(s.a, s1.a) && Waited(s.b, s1.b) && SameLoad(s.a, s1.a)
    ensures Inv(s2) && Departed(s1, s2)
    ensures Inv(s3) && Waited(s2.a, s3.a) && SameLoad(s2.a, s3.a) && Idled(s2.b, s3.b)
    ensures Inv(s4) && Answered(s3, s4)
    ensures IsRun(s4, c.receive) && Inv(t) && t.a == s4.a && t.b.u.rcv.acks == [] && HasRoom(t.b)
    ensures t.b.u.cfg == s4.b.u.cfg && s4.b.u.rcv.nxt <= t.b.u.rcv.nxt
  {
    hide *;
    s1, s2, s3, s4, t := CycleGives(s, c);
    StagesGive(s, c, s1, s2, s3, s4, t);
    GoingGives(s);
    WaitKeeps(s, c.wait);
    WaitedGives(s.a, s1.a);
    WaitedGives(s.b, s1.b);
    GoingStill(s, s1);
    DepartDoes(s1, c.nowA);
    DepartedGives(s1, s2);
    IdleKeeps(s2, c.idle);
    PairedOf(s2);
    PairedGivesNode(s2.a, s2.b);
    IdledRecent(s2.b, s3.b);
    WaitedGives(s2.a, s3.a);
    AnswerDoes(s3, c.nowB);
    AnsweredGives(s3, s4);
    ReadsKeep(s4, c.receive);
  }

  lemma StagesGive(s: Sys, c: Cycle, s1: Sys, s2: Sys, s3: Sys, s4: Sys, t: Sys)
    requires Stages(s, c, s1, s2, s3, s4, t)
    ensures s1 == Exec(s, c.wait) && s2 == Depart(s1, c.nowA) && s3 == Exec(s2, c.idle)
    ensures s4 == Answer(s3, c.nowB) && t == Exec(s4, c.receive) == PlayCycle(s, c)
  { }

  lemma GoingStill(s: Sys, t: Sys)
    requires Going(s) && Inv(t) && (Recent(s.a) ==> Recent(t.a)) && (Recent(s.b) ==> Recent(t.b))
    ensures Going(t)
  { }

  lemma DepartedGives(s: Sys, t: Sys)
    requires Departed(s, t)
    ensures t.a.u.cfg == s.a.u.cfg && t.a.u.ctl.cwnd > 0 && t.a.u.rcv.acks == []
    ensures AcksAbove(t.b.u, t.b.u.rcv.nxt - RECENT - 65536)
  { }

  lemma AnsweredGives(s: Sys, t: Sys)
    requires Answered(s, t)
    ensures t.a.u.cfg == s.a.u.cfg && t.b.u.rcv.acks == []
  { }

  /** One cycle: the connection stays in order, and what is received never shrinks; it grows,
      or else the next cycle is ready to make it grow. */
  lemma CycleMoves(s: Sys, c: Cycle)
    requires Going(s) && CycleOk(s, c)
    ensures var t := PlayCycle(s, c);
            Going(t) && HasRoom(t.b) && Moved(s, t)
  {
    hide *;
    var s1, s2, s3, s4, t := CycleStages(s, c);
    StagesGive(s, c, s1, s2, s3, s4, t);
    NothingPending(t.b);
    RoundMoves(s1, s2, s3, s4, t);
    GoingAgain(s3, s4, t);
    MovedToo(s, s1, t);
  }

  lemma GoingAgain(s3: Sys, s4: Sys, t: Sys)
    requires Answered(s3, s4) && Inv(t) && t.a == s4.a && Recent(t.b)
    ensures Going(t)
  {
    hide Inv, Recent;
  }

  /** The round trip of a cycle. */
  lemma RoundMoves(s1: Sys, s2: Sys, s3: Sys, s4: Sys, t: Sys)
    requires Departed(s1, s2) && Answered(s3, s4)
    requires Waited(s2.a, s3.a) && SameLoad(s2.a, s3.a) && Idled(s2.b, s3.b)
    requires t.a == s4.a && t.b.u.cfg == s4.b.u.cfg && s4.b.u.rcv.nxt <= t.b.u.rcv.nxt
    ensures Moved(s1, t)
  {
    hide AcksAbove, SameLoad, Held, Recent, Total;
    SameLoadTwice(s1.a, s2.a, s3.a);
    SameLoadTwice(s1.a, s3.a, s4.a);
  }

  lemma MovedToo(s: Sys, s1: Sys, t: Sys)
    requires SameLoad(s.a, s1.a) && Waited(s.a, s1.a) && Waited(s.b, s1.b) && Moved(s1, t)
    ensures Moved(s, t)
  { }

  // ---------------------------------------------------------------- all cycles

  /** How many cycles are still needed. */
  ghost function Need(s: Sys): int {
    if HasRoom(s.b) then 2 * (Total(s.a) - s.b.u.rcv.nxt) - if Ready(s.a, s.b) then 1 else 0
    else 2 * (Total(s.a) - s.b.u.rcv.nxt) + 1
  }

  lemma NeedFalls(s: Sys, t: Sys)
    requires Moved(s, t) && Total(s.a) > s.b.u.rcv.nxt && HasRoom(t.b)
    ensures Need(t) < Need(s)
  {
    hide Ready, HasRoom;
  }

  lemma {:induction false} AllReceived(s: Sys, cs: seq<Cycle>)
    requires Going(s) && PlayOk(s, cs) && |cs| >= Need(s)
    ensures var t := Play(s, cs);
            Inv(t) && SameLoad(s.a, t.a) && t.b.u.rcv.nxt == Total(t.a)
    decreases |cs|
  {
    hide CycleOk, PlayCycle, Need, Moved, Ready, HasRoom;
    GoingGives(s);
    NumbersAndTotal(s.a, s.b);
    if cs == [] {
      NeedIsLeft(s);
    } else {
      var t := PlayCycle(s, cs[0]);
      CycleMoves(s, cs[0]);
      MovedLoad(s, t);
      GoingGives(t);
      NumbersAndTotal(t.a, t.b);
      if Total(s.a) > s.b.u.rcv.nxt { NeedFalls(s, t); } else { NeedIsLeft(t); }
      AllReceived(t, cs[1..]);
    }
  }

  lemma NeedIsLeft(s: Sys)
    ensures Need(s) <= 0 ==> Total(s.a) <= s.b.u.rcv.nxt
    ensures Total(s.a) <= s.b.u.rcv.nxt && HasRoom(s.b) ==> Need(s) <= 0
  { }

  lemma MovedLoad(s: Sys, t: Sys)
    requires Moved(s, t)
    ensures SameLoad(s.a, t.a) && s.b.u.rcv.nxt <= t.b.u.rcv.nxt
  { }

  /** Everything received: the receiver's bytes are the accepted bytes. */
  lemma ReceivedIsAccepted(s: Node, r: Node)
    requires Paired(s, r) && r.u.rcv.nxt == Total(s)
    ensures r.delivered + Bytes(Payloads(r.c.rcv.queue)) == s.accepted
  {
    hide DataOnWire, NothingLost, AcksHeld, AcksOnWire, SndOk, NetOk, BufMatches, Clocked;
    QueueIsLogSlice(s.log, r.u.cfg.rcvWnd, r.u.rcv);
    SamePayloads(r.u.rcv.queue);
    AllOfLog(s.log, s.u.snd.queue, r.u.rcv.nxt - |r.u.rcv.queue|);
  }

  lemma SamePayloads(queue: seq<Seg>)
    ensures Payloads(WrapSegs(queue)) == Payloads(queue)
  { }

  lemma AllOfLog(log: seq<Frag>, queue: seq<Frag>, base: nat)
    requires queue == [] && base <= |log|
    ensures Bytes(log[..base]) + Bytes(log[base..|log|]) == Bytes(log + queue)
  {
    BytesConcat(log[..base], log[base..|log|]);
    assert log[..base] + log[base..|log|] == log == log + queue;
  }

  // ---------------------------------------------------------------- cycles are runs

  /** An update of one side and the delivery of all it sends. */
  lemma UpdateRun(s: Sys, atA: bool, now: nat) returns (run: seq<Step>)
    requires now < TWO32
    requires if atA then Due(s.a, now) && Deliverable(s.b, NodeUpdate(s.a, now), Sent(s.a, now))
             else Due(s.b, now) && Deliverable(s.a, NodeUpdate(s.b, now), Sent(s.b, now))
    ensures IsRun(s, run) && Exec(s, run) == if atA then Depart(s, now) else Answer(s, now)
  {
    hide *;
    var st := Step(atA, UpdateE(now));
    UpdateApplies(s, atA, now);
    OneStep(s, st);
    var rest := DeliverRun(Apply(s, st), !atA, if atA then Sent(s.a, now) else Sent(s.b, now));
    RunConcat(s, [st], rest);
    run := [st] + rest;
    PlayedUpdate(s, now);
  }

  lemma UpdateApplies(s: Sys, atA: bool, now: nat)
    requires now < TWO32
    ensures var st := Step(atA, UpdateE(now));
            && StepEnabled(s, st)
            && Apply(s, st) == if atA then Sys(NodeUpdate(s.a, now), s.b) else Sys(s.a, NodeUpdate(s.b, now))
  {
    hide NodeUpdate;
  }

  lemma PlayedUpdate(s: Sys, now: nat)
    ensures Depart(s, now) == Sys(NodeUpdate(s.a, now), DeliverAll(s.b, Sent(s.a, now)))
    ensures Answer(s, now) == Sys(DeliverAll(s.a, Sent(s.b, now)), NodeUpdate(s.b, now))
  { }

  /** What an update sends can be delivered. */
  lemma SentIsDeliverable(n: Node, m: Node, now: nat)
    requires Paired(n, m) && now < TWO32 && Due(n, now) && AcksAbove(n.u, n.u.rcv.nxt - RECENT - SLACK)
    ensures Deliverable(m, NodeUpdate(n, now), Sent(n, now))
  {
    hide *;
    PairedGivesNode(n, m);
    TickWaits(n, now);
    TickStays(n, m, now);
    SameAcks(n.u, Ticked(n, now).u);
    FlushIsDeliverable(Ticked(n, now), m);
    SentIs(n, now);
  }

  lemma SentIs(n: Node, now: nat)
    ensures Sent(n, now) == Out(Ticked(n, now))
  { }

  lemma CycleRun(s: Sys, c: Cycle) returns (run: seq<Step>)
    requires Going(s) && CycleOk(s, c)
    ensures IsRun(s, run) && Exec(s, run) == PlayCycle(s, c)
  {
    hide *;
    var s1, s2, s3, s4, t := CycleStages(s, c);
    var r1, r2, r3, r4, r := CycleGives(s, c);
    StagesGive(s, c, s1, s2, s3, s4, t);
    StagesGive(s, c, r1, r2, r3, r4, r);
    GoingGives(s1);
    RecentIsMore(s1.a);
    DepartsGives(s1.a, c.nowA);
    SentIsDeliverable(s1.a, s1.b, c.nowA);
    var out := UpdateRun(s1, true, c.nowA);
    RunConcat(s, c.wait, out);
    RunConcat(s, c.wait + out, c.idle);
    DepartedGives(s1, s2);
    PairedOf(s2);
    PairedGivesNode(s2.a, s2.b);
    IdledRecent(s2.b, s3.b);
    PairedOf(s3);
    PairedSym(s3.a, s3.b);
    SentIsDeliverable(s3.b, s3.a, c.nowB);
    var back := UpdateRun(s3, false, c.nowB);
    RunConcat(s, c.wait + out + c.idle, back);
    RunConcat(s, c.wait + out + c.idle + back, c.receive);
    run := c.wait + out + c.idle + back + c.receive;
  }

  lemma {:induction false} PlayRun(s: Sys, cs: seq<Cycle>) returns (run: seq<Step>)
    requires Going(s) && PlayOk(s, cs)
    ensures IsRun(s, run) && Exec(s, run) == Play(s, cs)
    decreases |cs|
  {
    hide CycleOk, PlayCycle, IsRun, Exec, Going, HasRoom;
    if cs == [] {
      run := [];
      EmptyRun(s);
    } else {
      var first := CycleRun(s, cs[0]);
      CycleMoves(s, cs[0]);
      var rest := PlayRun(PlayCycle(s, cs[0]), cs[1..]);
      RunConcat(s, first, rest);
      run := first + rest;
    }
  }

  lemma EmptyRun(s: Sys)
    ensures IsRun(s, []) && Exec(s, []) == s
  { }

  /** Liveness. After any run of two endpoints, let the sender accept nothing more, and let cycles
      follow: some waiting, during which everything sent may be lost; an update of the sender that
      flushes when the timer of its oldest unacknowledged segment (or of the window probe) has run
      out, and then the next flushing update of the receiver, both without loss; and some reading
      that leaves room in the receiver's queue. Two cycles for every segment not yet received are
      enough, and one more if the queue is full at the start: then all bytes ever accepted are read
      or in the queue, and nothing else is. */
  lemma EverythingArrives(ca: Config, cb: Config, run: seq<Step>, cs: seq<Cycle>) returns (more: seq<Step>)
    requires ca.conv == cb.conv && IsRun(Sys(NewNode(ca), NewNode(cb)), run)
    requires var s := Exec(Sys(NewNode(ca), NewNode(cb)), run);
             && Recent(s.a) && Recent(s.b) && PlayOk(s, cs)
             && |cs| >= 2 * (Total(s.a) - s.b.u.rcv.nxt) + if HasRoom(s.b) then 0 else 1
    ensures var s0 := Sys(NewNode(ca), NewNode(cb));
            var s, t := Exec(s0, run), Exec(s0, run + more);
            && IsRun(s0, run + more) && t == Play(Exec(s0, run), cs)
            && t.b.delivered + Bytes(Payloads(t.b.c.rcv.queue)) == t.a.accepted == s.a.accepted
            && (t.b.c.rcv.queue == [] ==> t.b.delivered == s.a.accepted)
  {
    hide IsRun, Exec, PlayOk, Play, Recent, HasRoom, Paired, NodeOk, Link;
    var s0 := Sys(NewNode(ca), NewNode(cb));
    InitOk(ca, cb);
    RunKeeps(s0, run);
    var s := Exec(s0, run);
    AllReceived(s, cs);
    var t := Play(s, cs);
    ReceivedIsAccepted(t.a, t.b) by { PairedOf(t); }
    more := PlayRun(s, cs);
    RunConcat(s0, run, more);
  }
}
