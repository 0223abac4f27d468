/** Cycles as `Liveness` asks for always exist: from every reachable state there is a time at which
    the next update starts a round trip, and in stream mode there are enough cycles to deliver
    everything. */
module Delivery {
  import opened Serial
  import opened Engine
  import opened Window
  import opened System
  import opened Runs
  import opened Progress
  import opened Liveness
  import Congestion
  import Messages

  // ---------------------------------------------------------------- the clock

  lemma DiffWrapped(x: int, y: int)
    ensures Diff(U32(x), y) == Diff(x, y)
  {
    U32Congruent(U32(x) - y, x - y, -(x / TWO32));
  }

  lemma DiffNegated(x: int, y: int)
    requires -TWO31 < Diff(x, y) < 0
    ensures Diff(y, x) > 0
  {
    var q := (x - y) / TWO32;
    assert x - y == q * TWO32 + U32(x - y);
    var u: int := U32(x - y);
    U32Congruent(y - x, -u, -q);
    U32Small(-u);
  }

  /** What the update that starts a round trip waits for: the deadline of the oldest
      unacknowledged segment or of the window probe. */
  function Deadline(s: State): nat {
    if s.snd.buf != [] then s.snd.buf[0].resendTs else s.ctl.tsProbe
  }

  /** An update flushes at time `now` exactly when it is the first, when the flush time has come,
      or when it is so far off that the clock is set anew. */
  lemma DueExactly(n: Node, now: nat)
    ensures Due(n, now) <==>
              !n.c.ctl.updated || Diff(now, n.c.ctl.tsFlush) >= 0 || Diff(now, n.c.ctl.tsFlush) < -10000
  {
    DiffSelf(now);
  }

  lemma DiffSelf(x: int)
    ensures Diff(x, x) == 0
  { }

  /** The update at time `now` starts a round trip exactly when it flushes and, at that time, the
      oldest unacknowledged segment is new, overdue or skipped often enough, or, with none left and
      the window closed, the probe timer runs and has run out. */
  lemma DepartsExactly(n: Node, now: nat)
    requires NodeOk(n)
    ensures Departs(n, now) <==>
              && now < TWO32 && Due(n, now)
              && if n.u.snd.buf != [] then
                   var x := n.u.snd.buf[0];
                   x.xmit == 0 || Diff(now, x.resendTs) >= 0 || x.fastAck >= n.u.cfg.Resent()
                 else n.u.ctl.rmtWnd == 0 ==> n.u.ctl.probeWait != 0 && Diff(now, n.u.ctl.tsProbe) >= 0
  {
    hide NodeOk;
    TickClock(n.u.cfg, n.u.ctl, now);
    TickProbes(n, now);
  }

  lemma TickProbes(n: Node, now: nat)
    ensures var c := Ticked(n, now).u.ctl;
            c.rmtWnd == n.u.ctl.rmtWnd && c.probeWait == n.u.ctl.probeWait && c.tsProbe == n.u.ctl.tsProbe
  { }

  /** There is such a time, unless a closed window has not started its probe timer yet. */
  lemma SomeNow(n: Node) returns (now: nat)
    requires NodeOk(n) && (n.u.snd.buf != [] || n.u.ctl.rmtWnd > 0 || n.u.ctl.probeWait != 0)
    ensures Departs(n, now)
  {
    hide NodeOk, UpdateTick, Ticked, Due, Departs;
    var d, f := Deadline(n.u), n.c.ctl.tsFlush;
    if -10000 <= Diff(d, f) < 0 {
      now := U32(f);
      DiffWrapped(f, f);
      DiffWrapped(f, d);
      DiffSelf(f);
      DiffNegated(d, f);
    } else {
      now := U32(d);
      DiffWrapped(d, f);
      DiffWrapped(d, d);
      DiffSelf(d);
    }
    DueExactly(n, now);
    DepartsExactly(n, now);
  }

  /** There is a time at which the next update flushes. */
  lemma SomeDue(n: Node) returns (now: nat)
    ensures now < TWO32 && Due(n, now)
  {
    hide Due;
    var f := n.c.ctl.tsFlush;
    now := U32(f);
    DiffWrapped(f, f);
    DiffSelf(f);
    DueExactly(n, now);
  }

  // ---------------------------------------------------------------- waiting for the probe timer

  ghost predicate Timed(n: Node) {
    n.u.snd.buf != [] || n.u.ctl.rmtWnd > 0 || n.u.ctl.probeWait != 0
  }

  lemma FlushStartsProbe(s: State, snd: Sender)
    requires s.ctl.rmtWnd == 0 && s.ctl.probeWait == 0
    ensures FlushControl(s, snd).probeWait == PROBE_INIT
  {
    hide CwndAfterFlush, Pass.CountWhy, Pass.Dies, FlushWindow;
    var ctl, pass := ProbeTimer(s.ctl), FlushPass(s);
    var timeouts := pass.CountWhy(snd.buf, Timeout);
    var ctl1 := ctl.(askSend := false, askTell := false, xmit := U32(ctl.xmit + timeouts),
                     dead := ctl.dead || pass.Dies(snd.buf));
    Congestion.CwndAfterFlushFrame(s.cfg, ctl1, pass.CountWhy(snd.buf, Fast) > 0, timeouts > 0,
                                   U32(snd.nxt - snd.una), FlushWindow(s));
  }

  /** One flushing update starts the probe timer when the window is closed. */
  lemma UpdateTimes(n: Node, now: nat)
    requires NodeOk(n) && now < TWO32 && Due(n, now) && n.u.ctl.rmtWnd == 0 && n.u.ctl.probeWait == 0
    ensures Timed(NodeUpdate(n, now))
  {
    hide FlushControl, FlushSegs, FlushSender, Emitted, NodeOk, Ticked, NodeUpdate;
    TickWaits(n, now);
    TickProbes(n, now);
    var s := Ticked(n, now).u;
    FlushStartsProbe(s, FlushSender(Unbounded, s));
  }

  lemma SomeWait(s: Sys) returns (wait: seq<Step>)
    requires Inv(s)
    ensures IsRun(s, wait) && (forall st :: st in wait ==> Quiet(st)) && Timed(Exec(s, wait).a)
  {
    hide *;
    EmptyRun(s);
    if Timed(s.a) {
      wait := [];
    } else {
      var now := SomeDue(s.a);
      PairedOf(s);
      PairedGivesNode(s.a, s.b);
      NotTimed(s.a);
      UpdateTimes(s.a, now);
      UpdateApplies(s, true, now);
      OneStep(s, Step(true, UpdateE(now)));
      QuietUpdate(true, now);
      wait := [Step(true, UpdateE(now))];
    }
  }

  lemma NotTimed(n: Node)
    requires !Timed(n)
    ensures n.u.ctl.rmtWnd == 0 && n.u.ctl.probeWait == 0
  { }

  lemma QuietUpdate(atA: bool, now: nat)
    ensures Quiet(Step(atA, UpdateE(now)))
  { }

  // ---------------------------------------------------------------- reading everything

  /** A receive of the next segment leaves less to read. */
  lemma ReadShrinks(s: Node, r: Node, len: int)
    requires Paired(s, r) && s.u.cfg.stream && r.u.rcv.queue != [] && len >= s.u.cfg.Mss()
    ensures var t := NodeRecv(r, len).u.rcv;
            |t.queue| + |t.buf| < |r.u.rcv.queue| + |r.u.rcv.buf|
  {
    hide Paired, NodeRecv, Drain, PeekSize, Merged, MergeCount, RcvOk;
    StreamIsRead(s, r, len);
    RecvNode(r, len);
    PairedSym(s, r);
    PairedGivesRcv(r, s);
    RecvTakes(r.u, len);
  }

  lemma RecvTakes(s: State, len: int)
    requires RcvOk(s.cfg.rcvWnd, s.rcv) && s.rcv.queue != [] && len >= 0 && Recv(Unbounded, s, len).code >= 0
    ensures var t := Recv(Unbounded, s, len).s.rcv; |t.queue| + |t.buf| < |s.rcv.queue| + |s.rcv.buf|
  {
    hide PeekSize, Merged;
    var q1 := s.rcv.queue[MergeCount(s.rcv.queue)..];
    assert RcvShape(s.cfg.rcvWnd, s.rcv.(queue := q1));
    hide Drain, MergeCount;
    var n := DrainForm(s.cfg.rcvWnd, s.rcv.(queue := q1));
  }

  lemma {:induction false} ReadAll(s: Sys) returns (receive: seq<Step>)
    requires Inv(s) && s.b.u.rcv.acks == [] && s.a.u.cfg.stream
    ensures (forall st :: st in receive ==> Read(st)) && Exec(s, receive).b.u.rcv.queue == []
    decreases |s.b.u.rcv.queue| + |s.b.u.rcv.buf|
  {
    hide Inv, NodeRecv, NodeStep;
    if s.b.u.rcv.queue == [] {
      receive := [];
      EmptyRun(s);
    } else {
      var st := Step(false, RecvE(s.a.u.cfg.Mss()));
      PairedOf(s);
      ReadShrinks(s.a, s.b, s.a.u.cfg.Mss());
      ReadOne(s, s.a.u.cfg.Mss());
      var rest := ReadAll(Apply(s, st));
      receive := [st] + rest;
      assert receive[0] == st && receive[1..] == rest;
    }
  }

  lemma ReadOne(s: Sys, len: int)
    requires Inv(s) && s.b.u.rcv.acks == []
    ensures var st := Step(false, RecvE(len));
            && Apply(s, st) == s.(b := NodeRecv(s.b, len))
            && Inv(Apply(s, st)) && Apply(s, st).b.u.rcv.acks == []
  {
    hide NodeRecv;
    StepKeeps(s.b, s.a, RecvE(len));
    ReadKeeps(s.b, len);
  }

  // ---------------------------------------------------------------- cycles exist

  lemma CycleExists(s: Sys) returns (c: Cycle)
    requires Going(s) && s.a.u.cfg.stream
    ensures CycleOk(s, c) && PlayCycle(s, c).b.u.rcv.queue == []
  {
    hide *;
    GoingGives(s);
    GoingInv(s);
    var wait := SomeWait(s);
    var s1 := Exec(s, wait);
    WaitKeeps(s, wait);
    WaitedGives(s.a, s1.a);
    WaitedGives(s.b, s1.b);
    GoingStill(s, s1);
    PairedOf(s1);
    PairedGivesNode(s1.a, s1.b);
    TimedGives(s1.a);
    var nowA := SomeNow(s1.a);
    var s2 := Depart(s1, nowA);
    DepartDoes(s1, nowA);
    DepartedGives(s1, s2);
    EmptyRun(s2);
    var nowB := SomeDue(s2.b);
    RecentEnough(s2.b);
    AnswerDoes(s2, nowB);
    var s4 := Answer(s2, nowB);
    AnsweredGives(s2, s4);
    var receive := ReadAll(s4);
    c := Cycle(wait, nowA, [], nowB, receive);
    CycleIs(s, c, s1, s2, s4);
  }

  lemma GoingInv(s: Sys)
    requires Going(s)
    ensures Inv(s)
  { }

  lemma TimedGives(n: Node)
    requires Timed(n)
    ensures n.u.snd.buf != [] || n.u.ctl.rmtWnd > 0 || n.u.ctl.probeWait != 0
  { }

  lemma RecentEnough(n: Node)
    requires AcksAbove(n.u, n.u.rcv.nxt - RECENT - 65536)
    ensures AcksAbove(n.u, n.u.rcv.nxt - RECENT - SLACK)
  { }

  lemma CycleIs(s: Sys, c: Cycle, s1: Sys, s2: Sys, s4: Sys)
    requires IsRun(s, c.wait) && (forall st :: st in c.wait ==> Quiet(st)) && s1 == Exec(s, c.wait)
    requires Departs(s1.a, c.nowA) && s2 == Depart(s1, c.nowA) && c.idle == []
    requires c.nowB < TWO32 && Due(s2.b, c.nowB) && s4 == Answer(s2, c.nowB)
    requires (forall st :: st in c.receive ==> Read(st)) && Exec(s4, c.receive).b.u.rcv.queue == []
    ensures CycleOk(s, c) && PlayCycle(s, c).b.u.rcv.queue == []
  {
    hide Departs, Due, Depart, Answer;
    EmptyRun(s2);
  }

  /** As many cycles as wanted. */
  lemma {:induction false} SomeSchedule(s: Sys, n: nat) returns (cs: seq<Cycle>)
    requires Going(s) && s.a.u.cfg.stream
    ensures PlayOk(s, cs) && |cs| == n
    ensures n > 0 ==> Play(s, cs).b.u.rcv.queue == []
    decreases n
  {
    hide CycleOk, PlayCycle, Moved, Going;
    if n == 0 {
      cs := [];
    } else {
      var c := CycleExists(s);
      CycleMoves(s, c);
      var t := PlayCycle(s, c);
      MovedConfig(s, t);
      var rest := SomeSchedule(t, n - 1);
      cs := [c] + rest;
      assert cs[0] == c && cs[1..] == rest;
      if n == 1 { assert rest == []; }
    }
  }

  lemma MovedConfig(s: Sys, t: Sys)
    requires Moved(s, t)
    ensures t.a.u.cfg == s.a.u.cfg
  { }

  lemma {:induction false} RunConfig(s: Sys, run: seq<Step>)
    requires Inv(s) && IsRun(s, run)
    ensures Exec(s, run).a.u.cfg == s.a.u.cfg
    decreases |run|
  {
    hide NodeStep;
    if run != [] {
      if run[0].atA {
        StepKeeps(s.a, s.b, run[0].ev);
        Messages.StepKeepsConfig(s.a, run[0].ev);
      } else {
        StepKeeps(s.b, s.a, run[0].ev);
      }
      RunConfig(Apply(s, run[0]), run[1..]);
    }
  }

  /** In stream mode no run leads into a dead end: after any run there is a continuation, in which
      the sender accepts nothing more, that delivers everything ever accepted to the last byte. */
  lemma DeliveryPossible(ca: Config, cb: Config, run: seq<Step>) returns (more: seq<Step>)
    requires ca.conv == cb.conv && ca.stream && IsRun(Sys(NewNode(ca), NewNode(cb)), run)
    requires var s := Exec(Sys(NewNode(ca), NewNode(cb)), run); Recent(s.a) && Recent(s.b)
    ensures var s0 := Sys(NewNode(ca), NewNode(cb));
            var s, t := Exec(s0, run), Exec(s0, run + more);
            IsRun(s0, run + more) && t.b.delivered == t.a.accepted == s.a.accepted
  {
    hide IsRun, Exec, PlayOk, Play, Recent, HasRoom, Paired, NodeOk, Link;
    var s0 := Sys(NewNode(ca), NewNode(cb));
    InitOk(ca, cb);
    RunKeeps(s0, run);
    RunConfig(s0, run);
    var s := Exec(s0, run);
    PairedOf(s);
    NumbersAndTotal(s.a, s.b);
    var cs := SomeSchedule(s, 2 * (Total(s.a) - s.b.u.rcv.nxt) + 1);
    more := EverythingArrives(ca, cb, run, cs);
    MirrorsQueue(Play(s, cs).b) by { PlayInv(s, cs); }
  }

  lemma PlayInv(s: Sys, cs: seq<Cycle>)
    requires Going(s) && PlayOk(s, cs)
    ensures NodeOk(Play(s, cs).b)
  {
    hide *;
    var run := PlayRun(s, cs);
    GoingInv(s);
    RunKeeps(s, run);
    PairedOf(Play(s, cs));
    PairedGivesNode(Play(s, cs).a, Play(s, cs).b);
  }

  lemma MirrorsQueue(n: Node)
    requires NodeOk(n)
    ensures n.u.rcv.queue == [] ==> n.c.rcv.queue == []
  { }
}
