/** How an endpoint reacts, in every state it can reach: what a flush does to the congestion window
    and the flight, what a datagram does to the window and the round-trip estimate, and when the
    windows are asked for and announced. */
module Reaction {
  import opened Options
  import opened Serial
  import opened Wire
  import opened Engine
  import opened Window
  import opened Refinement
  import opened Congestion
  import opened Endpoint
  import opened Timers
  import Loops
  import Schedule

  // ---------------------------------------------------------------- a flush and the congestion window

  lemma {:induction false} CountsSome(p: Pass, buf: seq<Unacked>, why: Reason)
    ensures p.CountWhy(buf, why) > 0 <==> exists i :: 0 <= i < |buf| && p.Why(buf[i]) == why
    decreases |buf|
  {
    hide Pass.Why;
    if buf != [] {
      var n := |buf| - 1;
      CountsSome(p, buf[..n], why);
      assert forall i :: 0 <= i < n ==> buf[..n][i] == buf[i];
    }
  }

  /** Some segment that was in flight before the flush is transmitted for this reason. */
  ghost predicate InFlightFor(s: State, why: Reason) {
    exists i :: 0 <= i < |s.snd.buf| && FlushPass(s).Why(s.snd.buf[i]) == why
  }

  /** New segments are neither overdue nor skipped. */
  lemma OldOnly(s: State, why: Reason)
    requires why == Timeout || why == Fast
    ensures FlushPass(s).CountWhy(FlushSender(Wrapping, s).buf, why) > 0 <==> InFlightFor(s, why)
  {
    hide FlushSender, Pass.CountWhy;
    var p, buf := FlushPass(s), FlushSender(Wrapping, s).buf;
    CountsSome(p, buf, why);
    BufferParts(s);
    if i :| 0 <= i < |buf| && p.Why(buf[i]) == why { assert i < |s.snd.buf|; }
    if InFlightFor(s, why) {
      var i :| 0 <= i < |s.snd.buf| && p.Why(s.snd.buf[i]) == why;
      assert buf[i] == s.snd.buf[i];
    }
  }

  lemma BufferParts(s: State)
    ensures var n, buf := |s.snd.buf|, FlushSender(Wrapping, s).buf;
            && n <= |buf| && (forall i :: 0 <= i < n ==> buf[i] == s.snd.buf[i])
            && forall i :: n <= i < |buf| ==> buf[i].xmit == 0
  {
    hide Admit;
    AdmitNew(s, FlushWindow(s));
    var n, buf := |s.snd.buf|, FlushSender(Wrapping, s).buf;
    assert forall i :: 0 <= i < n ==> buf[..n][i] == buf[i];
  }

  /** How many segments may be in flight. */
  function Limit(s: State): nat {
    var w := Min(s.cfg.sndWnd, s.ctl.rmtWnd);
    if s.cfg.noCwnd then w else Min(w, s.ctl.cwnd)
  }

  /** How the congestion window reacts. An overdue segment is taken for a loss: the window falls to
      one segment and the threshold to half the flight limit. A segment resent early is taken for
      congestion: the threshold is half of what is in flight, and the window that plus the number of
      skips. Otherwise both stay, except that the window is at least one segment. */
  ghost predicate Reacts(cfg: Config, ctl: Control, c: Control, fast: bool, lost: bool, inflight: nat, limit: int) {
    var half := Max(inflight / 2, 2);
    if lost then
      c.cwnd == 1 && c.incr == cfg.Mss() && c.ssthresh == Max(limit / 2, 2)
    else if fast then
      && c.ssthresh == half && c.incr == U32(c.cwnd * cfg.Mss())
      && c.cwnd == half + (if cfg.fastResend > 0 then cfg.fastResend else -1)
    else
      && c.ssthresh == ctl.ssthresh && c.cwnd == Max(ctl.cwnd, 1)
      && c.incr == if ctl.cwnd == 0 then cfg.Mss() else ctl.incr
  }

  lemma WindowReacts(cfg: Config, ctl: Control, fast: bool, lost: bool, inflight: nat, window: nat)
    requires inflight < TWO32
    ensures var c := CwndAfterFlush(cfg, ctl, fast, lost, inflight, window);
            && Reacts(cfg, ctl, c, fast, lost, inflight, window)
            && c == ctl.(cwnd := c.cwnd, incr := c.incr, ssthresh := c.ssthresh)
  {
    var th := Max(inflight / 2, 2);
    if cfg.fastResend > 0 {
      U32Small(th + cfg.fastResend);
    } else {
      U32Congruent(th + NEVER_RESEND, th - 1, 1);
      U32Small(th - 1);
    }
  }

  /** The control block after a flush. */
  lemma ControlAfter(s: State, snd: Sender)
    ensures var c, p, probe := FlushControl(s, snd), FlushPass(s), ProbeTimer(s.ctl);
            && c.xmit == U32(s.ctl.xmit + p.CountWhy(snd.buf, Timeout)) && c.dead == (s.ctl.dead || p.Dies(snd.buf))
            && !c.askSend && !c.askTell && c.probeWait == probe.probeWait && c.tsProbe == probe.tsProbe
            && Reacts(s.cfg, s.ctl, c, p.CountWhy(snd.buf, Fast) > 0, p.CountWhy(snd.buf, Timeout) > 0,
                      U32(snd.nxt - snd.una), FlushWindow(s))
  {
    hide Pass.CountWhy, Pass.Dies, ProbeTimer, CwndAfterFlush, FlushWindow;
    Loops.ControlOfFlush(s, snd);
    ProbeTimerFrame(s.ctl);
    var p := FlushPass(s);
    var lost, fast := p.CountWhy(snd.buf, Timeout), p.CountWhy(snd.buf, Fast);
    var ctl := ProbeTimer(s.ctl).(askSend := false, askTell := false);
    var counted := ctl.(xmit := U32(ctl.xmit + lost), dead := ctl.dead || p.Dies(snd.buf));
    WindowReacts(s.cfg, counted, fast > 0, lost > 0, U32(snd.nxt - snd.una), FlushWindow(s));
  }

  /** The congestion window after a flush, from the segments that were in flight before it. */
  lemma LossReacts(s: State)
    ensures var d := Flush(Wrapping, s).s;
            Reacts(s.cfg, s.ctl, d.ctl, InFlightFor(s, Fast), InFlightFor(s, Timeout),
                   Off(d.snd.nxt, d.snd.una), Limit(s))
  {
    hide InFlightFor, FlushSender, Pass.CountWhy, Pass.Dies, ProbeTimer, FlushControl, FlushWindow, Reacts, FlushSegs;
    OldOnly(s, Timeout);
    OldOnly(s, Fast);
    LimitIs(s);
    ControlAfter(s, FlushSender(Wrapping, s));
  }

  lemma LimitIs(s: State)
    ensures FlushWindow(s) == Limit(s)
  { }

  /** With the flush of the event the segment has been transmitted `dead_link` times or more. */
  ghost predicate SentOften(cfg: Config, evs: seq<Event>, ev: Event, s: State, sn: nat) {
    Sends(s, sn) && U32(|History(cfg, evs + [ev], sn)|) >= cfg.deadLink
  }

  /** What a flush counts: one transmission of `xmit` for each overdue segment. The link is dead
      from the first flush on that transmits some segment for the `dead_link`-th time. */
  lemma FlushCounts(cfg: Config, evs: seq<Event>, ev: Event, s: State)
    requires FlushedFrom(Exec(Initial(cfg), evs), ev) == Some(s)
    ensures var d, buf := Flush(Wrapping, s).s, FlushSender(Wrapping, s).buf;
            && d.ctl.xmit == U32(s.ctl.xmit + |Places(FlushPass(s), s.snd.buf, Timeout)|)
            && (d.ctl.dead <==>
                  s.ctl.dead || exists i :: 0 <= i < |buf| && SentOften(cfg, evs, ev, s, buf[i].seg.sn))
  {
    hide FlushSender, Pass.CountWhy, Pass.Dies, ProbeTimer, FlushControl, FlushWindow, Exec, FlushedFrom, FlushSegs;
    hide Places, SentOften, Reacts;
    ControlAfter(s, FlushSender(Wrapping, s));
    TimeoutsAre(s);
    DiesExactly(cfg, evs, ev, s);
  }

  /** The positions of the segments transmitted for this reason. */
  ghost function Places(p: Pass, buf: seq<Unacked>, why: Reason): set<nat> {
    set i | 0 <= i < |buf| && p.Why(buf[i]) == why
  }

  lemma {:induction false} CountIs(p: Pass, buf: seq<Unacked>, why: Reason)
    ensures p.CountWhy(buf, why) == |Places(p, buf, why)|
    decreases |buf|
  {
    hide Pass.Why, Places;
    PlacesStep(p, buf, why);
    if buf != [] { CountIs(p, buf[..|buf| - 1], why); }
  }

  lemma PlacesStep(p: Pass, buf: seq<Unacked>, why: Reason)
    ensures if buf == [] then Places(p, buf, why) == {}
            else var n := |buf| - 1;
                 |Places(p, buf, why)| == |Places(p, buf[..n], why)| + if p.Why(buf[n]) == why then 1 else 0
  {
    hide Pass.Why;
    if buf != [] {
      var n := |buf| - 1;
      var head := Places(p, buf[..n], why);
      assert Places(p, buf, why) == if p.Why(buf[n]) == why then head + {n} else head;
    }
  }

  lemma TimeoutsAre(s: State)
    ensures FlushPass(s).CountWhy(FlushSender(Wrapping, s).buf, Timeout) == |Places(FlushPass(s), s.snd.buf, Timeout)|
  {
    hide FlushSender, Pass.CountWhy;
    var p, buf := FlushPass(s), FlushSender(Wrapping, s).buf;
    CountIs(p, buf, Timeout);
    BufferParts(s);
    assert Places(p, buf, Timeout) == Places(p, s.snd.buf, Timeout);
  }

  lemma DiesExactly(cfg: Config, evs: seq<Event>, ev: Event, s: State)
    requires FlushedFrom(Exec(Initial(cfg), evs), ev) == Some(s)
    ensures var buf := FlushSender(Wrapping, s).buf;
            FlushPass(s).Dies(buf) <==> exists i :: 0 <= i < |buf| && SentOften(cfg, evs, ev, s, buf[i].seg.sn)
  {
    hide FlushSender, Pass.Touch, Pass.Why, Exec, FlushedFrom, Sends, History;
    var p, buf := FlushPass(s), FlushSender(Wrapping, s).buf;
    forall i | 0 <= i < |buf|
      ensures Sends(s, buf[i].seg.sn) <==> p.Why(buf[i]) != Hold
      ensures p.Touch(buf[i]).xmit == U32(|History(cfg, evs + [ev], buf[i].seg.sn)|)
    {
      SendsExactly(cfg, evs, ev, s, i);
      XmitIs(cfg, evs, ev, s, i);
    }
    FlushedConfig(cfg, evs, ev, s);
  }

  lemma FlushedConfig(cfg: Config, evs: seq<Event>, ev: Event, s: State)
    requires FlushedFrom(Exec(Initial(cfg), evs), ev) == Some(s)
    ensures s.cfg == cfg && s.snd == Exec(Initial(cfg), evs).snd && s.rcv == Exec(Initial(cfg), evs).rcv
  {
    hide UpdateTick;
    ExecConfig(cfg, evs);
  }

  lemma XmitIs(cfg: Config, evs: seq<Event>, ev: Event, s: State, i: nat)
    requires FlushedFrom(Exec(Initial(cfg), evs), ev) == Some(s) && i < |FlushSender(Wrapping, s).buf|
    ensures var u := FlushSender(Wrapping, s).buf[i];
            FlushPass(s).Touch(u).xmit == U32(|History(cfg, evs + [ev], u.seg.sn)|)
  {
    hide FlushSender, Pass.Why, Exec, FlushedFrom, History, FlushControl, FlushSegs, Ordered;
    RunTimed(cfg, evs + [ev]);
    HistoryMore(cfg, evs, ev, 0);
    FlushedOrdered(cfg, evs, ev, s);
    assert Flush(Wrapping, s).s.snd.buf[i] == FlushPass(s).Touch(FlushSender(Wrapping, s).buf[i]);
  }

  // ---------------------------------------------------------------- how much is in flight

  /** A flush numbers segments as long as there are any and the flight is below all its limits: the
      own window, the peer's, and the congestion window unless that is turned off. */
  lemma FlushFills(cfg: Config, evs: seq<Event>, ev: Event, s: State)
    requires FlushedFrom(Exec(Initial(cfg), evs), ev) == Some(s)
    ensures var d := Flush(Wrapping, s).s.snd;
            var flight, flight1 := Off(s.snd.nxt, s.snd.una), Off(d.nxt, d.una);
            && d.una == s.snd.una && flight <= flight1 <= flight + |s.snd.queue|
            && d.queue == s.snd.queue[flight1 - flight..]
            && (flight1 > flight ==>
                  flight1 <= cfg.sndWnd && flight1 <= s.ctl.rmtWnd && (cfg.noCwnd || flight1 <= s.ctl.cwnd))
            && (d.queue != [] ==>
                  flight1 >= cfg.sndWnd || flight1 >= s.ctl.rmtWnd || (!cfg.noCwnd && flight1 >= s.ctl.cwnd))
  {
    hide Exec, FlushedFrom, Shadow, Flush, FlushWindow, Off;
    var u := RunShadow(cfg, evs);
    var w := FlushedShadow(Exec(Initial(cfg), evs), u, ev, s);
    FlushedConfig(cfg, evs, ev, s);
    LimitIs(s);
    FillsAt(s, w);
  }

  lemma FlushedShadow(c: State, u: State, ev: Event, s: State) returns (w: State)
    requires Shadow(c, u) && FlushedFrom(c, ev) == Some(s)
    ensures Shadow(s, w)
  {
    hide Shadow, UpdateTick;
    w := u;
    if ev.UpdateE? {
      var t := UpdateTick(c.cfg, c.ctl, U32(ev.now));
      TickNow(c.cfg, c.ctl, U32(ev.now));
      ShadowClock(c, u, t.ctl);
      w := u.(ctl := t.ctl);
    }
  }

  lemma TickNow(cfg: Config, ctl: Control, now: nat)
    ensures UpdateTick(cfg, ctl, now).ctl.current == now
  { }

  lemma SameWindow(s: State, u: State)
    requires Shadow(s, u)
    ensures FlushWindow(s) == FlushWindow(u)
  { }

  lemma FillsAt(s: State, u: State)
    requires Shadow(s, u)
    ensures var d, n := Flush(Wrapping, s).s.snd, AdmitCount(u, FlushWindow(s));
            && d.una == s.snd.una && d.queue == s.snd.queue[n..]
            && Off(s.snd.nxt, s.snd.una) == u.snd.nxt - u.snd.una
            && Off(d.nxt, d.una) == u.snd.nxt + n - u.snd.una
            && n == Min(|s.snd.queue|, Max(0, FlushWindow(s) - (u.snd.nxt - u.snd.una)))
  {
    hide FlushSegs, FlushControl, FlushWindow;
    FlushWraps(u);
    FlushKeepsSender(u);
    SameWindow(s, u);
    var v := Flush(Unbounded, u).s;
    SenderSpan(u.cfg, u.snd);
    SenderSpan(v.cfg, v.snd);
    OffIs(u.snd.nxt, u.snd.una);
    OffIs(v.snd.nxt, v.snd.una);
  }

  // ---------------------------------------------------------------- asking for the peer's window

  /** The probe timer was started at time `t` and runs for `w` milliseconds. */
  ghost predicate Armed(ctl: Control, t: int, w: nat) {
    PROBE_INIT <= w <= PROBE_LIMIT && ctl.probeWait == w && ctl.tsProbe == U32(t + w)
  }

  /** The probe timer of a closed window. The first flush that finds the window closed starts it with
      seven seconds; the first one after it has run out asks, and starts it again half as long again,
      up to two minutes; any other leaves it running. An open window stops it. */
  lemma ProbeReacts(s: State, t: int, w: nat, now: int)
    requires s.ctl.current == U32(now) && t <= now < t + TWO31
    ensures var d := Flush(Wrapping, s).s.ctl;
            && !d.askSend && !d.askTell
            && (s.ctl.rmtWnd > 0 ==> d.probeWait == 0 && Asks(s.ctl) == s.ctl.askSend)
            && (s.ctl.rmtWnd == 0 && s.ctl.probeWait == 0 ==> Armed(d, now, 7000) && Asks(s.ctl) == s.ctl.askSend)
            && (s.ctl.rmtWnd == 0 && Armed(s.ctl, t, w) ==>
                  if now - t >= w then Asks(s.ctl) && Armed(d, now, Min(w + w / 2, 120000))
                  else Asks(s.ctl) == s.ctl.askSend && Armed(d, t, w))
  {
    hide FlushSender, FlushControl, FlushSegs, Reacts, Diff;
    ControlAfter(s, FlushSender(Wrapping, s));
    Schedule.U32Add(now, PROBE_INIT);
    if Armed(s.ctl, t, w) {
      Schedule.DiffNear(now, t + w);
      U32Small(w + w / 2);
      Schedule.U32Add(now, Min(w + w / 2, 120000));
    }
  }

  ghost predicate SameProbe(a: Control, b: Control) {
    a.probeWait == b.probeWait && a.tsProbe == b.tsProbe && a.askSend == b.askSend
  }

  lemma {:induction false} SegsProbe(s: State, gs: seq<Seg>)
    ensures SameProbe(InputSegs(Wrapping, s, gs).ctl, s.ctl)
    decreases |gs|
  {
    hide InputAcks, InputPush;
    if gs != [] { SegsProbe(s, gs[..|gs| - 1]); }
  }

  lemma GrowProbe(cfg: Config, ctl: Control)
    ensures SameProbe(GrowCwnd(cfg, ctl), ctl)
  { }

  /** Only a flush moves the probe timer. */
  lemma StepProbe(c: State, ev: Event)
    requires FlushedFrom(c, ev).None?
    ensures SameProbe(Step(c, ev).ctl, c.ctl)
  {
    hide Send, Drain, Merged, Engine.PeekSize, DecodeAll, MaxAck, InputSegs, GrowCwnd, ParseFastAck;
    match ev
    case InputE(bytes) =>
      if |bytes| >= OVERHEAD {
        var gs := DecodeAll(c.cfg.conv, bytes).segs;
        SegsProbe(c, gs);
        InputSegsQueue(c, gs);
        GrowProbe(c.cfg, InputSegs(Wrapping, c, gs).ctl);
      }
    case _ =>
  }

  /** Between events nothing but a timer that has run out makes the next flush ask. */
  lemma {:induction false} NothingAsked(cfg: Config, evs: seq<Event>)
    ensures !Exec(Initial(cfg), evs).ctl.askSend
    decreases |evs|
  {
    hide Step;
    if evs != [] {
      var n := |evs| - 1;
      NothingAsked(cfg, evs[..n]);
      var c := Exec(Initial(cfg), evs[..n]);
      if FlushedFrom(c, evs[n]).None? { StepProbe(c, evs[n]); } else { FlushedAsks(c, evs[n]); }
    }
  }

  lemma FlushedAsks(c: State, ev: Event)
    requires FlushedFrom(c, ev).Some?
    ensures !Step(c, ev).ctl.askSend
  {
    hide FlushSender, FlushControl, FlushSegs, Reacts, UpdateTick;
    var s := FlushedFrom(c, ev).value;
    ControlAfter(s, FlushSender(Wrapping, s));
  }

  // ---------------------------------------------------------------- announcing the own window

  /** A receive that makes room in a full queue owes the peer an announcement, and nothing else in a
      receive does; the next flush makes it, as `Endpoint.FlushParse` says. */
  lemma RecvAnnounces(c: State, len: int)
    ensures var r := Recv(Wrapping, c, len);
            && r.s.ctl == c.ctl.(askTell := r.s.ctl.askTell)
            && (r.s.ctl.askTell <==>
                  c.ctl.askTell || (r.code >= 0 && |c.rcv.queue| >= c.cfg.rcvWnd > |r.s.rcv.queue|))
  {
    hide Drain, Merged, Engine.PeekSize;
  }

  // ---------------------------------------------------------------- round-trip times

  /** The round-trip times in a datagram: the age of the time stamp of each ack, unless it lies in the
      future. */
  function Samples(current: nat, gs: seq<Seg>): seq<int>
    decreases |gs|
  {
    if gs == [] then []
    else
      var n := |gs| - 1;
      Samples(current, gs[..n])
      + (if gs[n].cmd == CMD_ACK && Diff(current, gs[n].ts) >= 0 then [Diff(current, gs[n].ts)] else [])
  }

  /** A sample is the time since the acknowledged transmission. */
  lemma SampleIsElapsed(now: int, sent: int, g: Seg)
    requires g.cmd == CMD_ACK && g.ts == U32(sent) && -TWO31 <= now - sent < TWO31
    ensures Samples(U32(now), [g]) == if sent <= now then [now - sent] else []
  {
    DiffIsExact(now, sent);
    assert [g][..0] == [];
    assert Samples(U32(now), []) == [];
  }

  ghost predicate SameEstimate(a: Control, b: Control) {
    a.srtt == b.srtt && a.rttVar == b.rttVar && a.rto == b.rto
  }

  /** The estimator reads and writes nothing but its own fields. */
  lemma UpdateAckLocal(cfg: Config, a: Control, b: Control, rtt: int)
    requires SameEstimate(a, b)
    ensures SameEstimate(UpdateAck(cfg, a, rtt), UpdateAck(cfg, b, rtt))
  { }

  lemma {:induction false} EstimateMore(cfg: Config, ctl: Control, a: seq<int>, rtt: int)
    ensures Estimate(cfg, ctl, a + [rtt]) == UpdateAck(cfg, Estimate(cfg, ctl, a), rtt)
  {
    assert (a + [rtt])[..|a|] == a;
  }

  /** The acks of a datagram feed the estimator, one after the other. */
  lemma {:induction false} SegsEstimate(ctl0: Control, s: State, before: seq<int>, gs: seq<Seg>)
    requires SameEstimate(s.ctl, Estimate(s.cfg, ctl0, before))
    ensures var t := InputSegs(Wrapping, s, gs);
            && t.ctl.current == s.ctl.current && t.cfg == s.cfg
            && SameEstimate(t.ctl, Estimate(s.cfg, ctl0, before + Samples(s.ctl.current, gs)))
    decreases |gs|
  {
    hide InputAcks, InputPush, UpdateAck, Diff, Estimate;
    if gs == [] {
      assert before + [] == before;
    } else {
      var n := |gs| - 1;
      SegsEstimate(ctl0, s, before, gs[..n]);
      var t, e := InputSegs(Wrapping, s, gs[..n]), Estimate(s.cfg, ctl0, before + Samples(s.ctl.current, gs[..n]));
      var rtt := Diff(s.ctl.current, gs[n].ts);
      if gs[n].cmd == CMD_ACK && rtt >= 0 {
        EstimateMore(s.cfg, ctl0, before + Samples(s.ctl.current, gs[..n]), rtt);
        assert before + (Samples(s.ctl.current, gs[..n]) + [rtt]) == before + Samples(s.ctl.current, gs[..n]) + [rtt];
        UpdateAckLocal(s.cfg, t.ctl.(rmtWnd := gs[n].wnd), e, rtt);
        UpdateAckFrame(s.cfg, t.ctl.(rmtWnd := gs[n].wnd), rtt);
      } else {
        assert Samples(s.ctl.current, gs[..n]) + [] == Samples(s.ctl.current, gs[..n]);
      }
    }
  }

  lemma UpdateAckFrame(cfg: Config, ctl: Control, rtt: int)
    ensures var c := UpdateAck(cfg, ctl, rtt); c == ctl.(srtt := c.srtt, rttVar := c.rttVar, rto := c.rto)
  { }

  /** The round-trip times of a run. */
  function RunSamples(cfg: Config, evs: seq<Event>): seq<int>
    decreases |evs|
  {
    if evs == [] then []
    else
      var n := |evs| - 1;
      var c := Exec(Initial(cfg), evs[..n]);
      RunSamples(cfg, evs[..n])
      + (if evs[n].InputE? && |evs[n].bytes| >= OVERHEAD
         then Samples(c.ctl.current, DecodeAll(cfg.conv, evs[n].bytes).segs) else [])
  }

  lemma GrowEstimate(cfg: Config, ctl: Control)
    ensures SameEstimate(GrowCwnd(cfg, ctl), ctl)
  { }

  lemma InputEstimate(ctl0: Control, c: State, before: seq<int>, bytes: seq<byte>)
    requires SameEstimate(c.ctl, Estimate(c.cfg, ctl0, before)) && |bytes| >= OVERHEAD
    ensures SameEstimate(Input(Wrapping, c, bytes).s.ctl,
                         Estimate(c.cfg, ctl0, before + Samples(c.ctl.current, DecodeAll(c.cfg.conv, bytes).segs)))
  {
    hide InputSegs, DecodeAll, MaxAck, GrowCwnd, ParseFastAck, Estimate, Samples;
    var gs := DecodeAll(c.cfg.conv, bytes).segs;
    SegsEstimate(ctl0, c, before, gs);
    GrowEstimate(c.cfg, InputSegs(Wrapping, c, gs).ctl);
  }

  /** No other event touches the estimate. */
  lemma StepEstimate(c: State, ev: Event)
    requires !(ev.InputE? && |ev.bytes| >= OVERHEAD)
    ensures SameEstimate(Step(c, ev).ctl, c.ctl)
  {
    hide Send, Drain, Merged, Engine.PeekSize, Flush;
    match ev
    case FlushE => FlushEstimate(c);
    case UpdateE(now) => FlushEstimate(c.(ctl := UpdateTick(c.cfg, c.ctl, U32(now)).ctl));
    case _ =>
  }

  lemma FlushEstimate(s: State)
    ensures SameEstimate(Flush(Wrapping, s).s.ctl, s.ctl)
  {
    hide FlushControl, FlushSegs, FlushSender;
    FlushControlFrame(s, FlushSender(Wrapping, s));
  }

  /** Over any run, the smoothed round-trip time, its deviation and the timeout are those of the
      estimator fed with the ages of all acks, in order. */
  lemma {:induction false} EstimateOfRun(cfg: Config, evs: seq<Event>)
    ensures SameEstimate(Exec(Initial(cfg), evs).ctl, Estimate(cfg, Initial(cfg).ctl, RunSamples(cfg, evs)))
    decreases |evs|
  {
    hide Step, Estimate, Samples, DecodeAll;
    if evs == [] {
      assert Estimate(cfg, Initial(cfg).ctl, []) == Initial(cfg).ctl by { EstimateNone(cfg); }
    } else {
      var n := |evs| - 1;
      EstimateOfRun(cfg, evs[..n]);
      ExecConfig(cfg, evs[..n]);
      var c := Exec(Initial(cfg), evs[..n]);
      if evs[n].InputE? && |evs[n].bytes| >= OVERHEAD {
        InputEstimate(Initial(cfg).ctl, c, RunSamples(cfg, evs[..n]), evs[n].bytes);
        StepInput(c, evs[n]);
      } else {
        StepEstimate(c, evs[n]);
        assert RunSamples(cfg, evs[..n]) + [] == RunSamples(cfg, evs[..n]);
      }
    }
  }

  lemma EstimateNone(cfg: Config)
    ensures Estimate(cfg, Initial(cfg).ctl, []) == Initial(cfg).ctl
  { }

  lemma StepInput(c: State, ev: Event)
    requires ev.InputE?
    ensures Step(c, ev) == Input(Wrapping, c, ev.bytes).s
  {
    hide Input;
  }

  /** While every ack of a run is between `lo` and `hi` old, below 2^28 ms, so is the smoothed
      round-trip time, and the timeout lies between its bounds. */
  lemma EstimateInRange(cfg: Config, evs: seq<Event>, lo: nat, hi: nat)
    requires 8 * hi < TWO31 && RunSamples(cfg, evs) != []
    requires forall i :: 0 <= i < |RunSamples(cfg, evs)| ==> lo <= RunSamples(cfg, evs)[i] <= hi
    ensures var c := Exec(Initial(cfg), evs).ctl;
            lo <= c.srtt <= hi && 0 <= c.rttVar <= hi && cfg.minRto <= c.rto <= RTO_MAX
  {
    hide Exec, Estimate, RunSamples;
    EstimateOfRun(cfg, evs);
    EstimatorInRange(cfg, Initial(cfg).ctl, RunSamples(cfg, evs), lo, hi);
  }

  // ---------------------------------------------------------------- a datagram and the congestion window

  lemma {:induction false} SegsWindow(s: State, gs: seq<Seg>)
    ensures var c := InputSegs(Wrapping, s, gs).ctl;
            && c.cwnd == s.ctl.cwnd && c.incr == s.ctl.incr && c.ssthresh == s.ctl.ssthresh
            && c.rmtWnd == if gs == [] then s.ctl.rmtWnd else gs[|gs| - 1].wnd
    decreases |gs|
  {
    hide InputAcks, InputPush;
    if gs != [] { SegsWindow(s, gs[..|gs| - 1]); }
  }

  /** Whether a datagram acknowledged new data, in 32 bits and in fact. */
  lemma UnaMoved(cfg: Config, evs: seq<Event>, bytes: seq<byte>)
    ensures var c := Exec(Initial(cfg), evs);
            var d := Input(Wrapping, c, bytes).s;
            Diff(d.snd.una, c.snd.una) > 0 <==> d.snd.una != c.snd.una
  {
    hide Input, Exec;
    var c := Exec(Initial(cfg), evs);
    var u := RunShadow(cfg, evs);
    var v := InputShadow(c, u, bytes);
    SenderSpan(u.cfg, u.snd);
    SenderSpan(v.cfg, v.snd);
    DiffIsExact(v.snd.una, u.snd.una);
    WrapInjective(v.snd.una, u.snd.una);
  }

  /** What a datagram does to the windows, in every reachable state: the peer's window is the one last
      announced in it; the congestion window grows, as `Congestion.Grows` says, exactly when the
      datagram is well-formed and moves `snd_una`. One shorter than a header does nothing. */
  lemma InputReacts(cfg: Config, evs: seq<Event>, bytes: seq<byte>)
    requires CwndFits(cfg)
    ensures |bytes| < 24 ==> var c := Exec(Initial(cfg), evs); Input(Wrapping, c, bytes) == Inputting(c, -1)
    ensures |bytes| >= 24 ==>
            var c, p := Exec(Initial(cfg), evs), DecodeAll(cfg.conv, bytes);
            var r := Input(Wrapping, c, bytes);
            var d := r.s;
            && r.code == p.code
            && d.ctl.rmtWnd == (if p.segs == [] then c.ctl.rmtWnd else p.segs[|p.segs| - 1].wnd)
            && if p.code >= 0 && d.snd.una != c.snd.una then Grows(cfg, c.ctl.(rmtWnd := d.ctl.rmtWnd), d.ctl)
               else d.ctl.cwnd == c.ctl.cwnd && d.ctl.incr == c.ctl.incr && d.ctl.ssthresh == c.ctl.ssthresh
  {
    hide Exec, InputSegs, DecodeAll, MaxAck, GrowCwnd, Grows, CwndFits, Diff, CountSkips;
    var c, p := Exec(Initial(cfg), evs), DecodeAll(cfg.conv, bytes);
    ExecConfig(cfg, evs);
    TuningInvariant(cfg, evs);
    UnaMoved(cfg, evs, bytes);
    SegsWindow(c, p.segs);
    InputSegsQueue(c, p.segs);
    var t := InputSegs(Wrapping, c, p.segs);
    WindowFits(cfg, c.ctl, t.ctl, p.segs);
    GrowsExactly(cfg, t.ctl);
    GrowsFrom(cfg, t.ctl, c.ctl.(rmtWnd := t.ctl.rmtWnd), GrowCwnd(cfg, t.ctl));
  }

  lemma WindowFits(cfg: Config, ctl: Control, c: Control, gs: seq<Seg>)
    requires CwndOk(cfg, ctl) && (forall i :: 0 <= i < |gs| ==> gs[i].Fits())
    requires c.cwnd == ctl.cwnd && c.incr == ctl.incr && c.ssthresh == ctl.ssthresh
    requires c.rmtWnd == if gs == [] then ctl.rmtWnd else gs[|gs| - 1].wnd
    ensures CwndOk(cfg, c)
  { }

  lemma GrowsFrom(cfg: Config, a: Control, b: Control, c: Control)
    requires Grows(cfg, a, c) && a.rmtWnd == b.rmtWnd
    requires a.cwnd == b.cwnd && a.incr == b.incr && a.ssthresh == b.ssthresh
    ensures Grows(cfg, b, c)
  { }

  // ---------------------------------------------------------------- the start

  /** A fresh endpoint that has only been given data to send. */
  ghost predicate Untouched(cfg: Config, c: State) {
    c == Initial(cfg).(snd := c.snd) && c.snd == Sender(0, 0, c.snd.queue, [])
  }

  lemma {:induction false} OnlySends(cfg: Config, evs: seq<Event>)
    requires forall ev :: ev in evs ==> ev.SendE?
    ensures Untouched(cfg, Exec(Initial(cfg), evs))
    decreases |evs|
  {
    hide Send;
    if evs != [] {
      var n := |evs| - 1;
      assert evs[n] in evs;
      OnlySends(cfg, evs[..n]);
    }
  }

  /** The first update of a connection, whatever was given to send before. With congestion control it
      transmits nothing and opens the window to one segment; without, it transmits as much as the own
      window and 32 segments allow. The first timeout is 200 ms, slow start ends at two segments. */
  lemma FirstUpdate(cfg: Config, evs: seq<Event>, now: nat)
    requires forall ev :: ev in evs ==> ev.SendE?
    ensures var c, d := Exec(Initial(cfg), evs), Exec(Initial(cfg), evs + [UpdateE(now)]);
            && Off(d.snd.nxt, 0) == Min(|c.snd.queue|, if cfg.noCwnd then Min(cfg.sndWnd, 32) else 0)
            && d.ctl.cwnd == 1 && d.ctl.incr == cfg.Mss() && d.ctl.ssthresh == 2
            && d.ctl.rto == 200 && d.ctl.srtt == 0 && d.ctl.rmtWnd == 32
  {
    hide Exec, Flush, InFlightFor;
    var c := Exec(Initial(cfg), evs);
    OnlySends(cfg, evs);
    FirstDue(c.cfg, c.ctl, U32(now));
    var s := c.(ctl := UpdateTick(c.cfg, c.ctl, U32(now)).ctl);
    hide UpdateTick;
    HistoryMore(cfg, evs, UpdateE(now), 0);
    FlushedOrdered(cfg, evs, UpdateE(now), s);
    FlushFills(cfg, evs, UpdateE(now), s);
    LossReacts(s);
    NoneInFlight(s);
    FlushEstimate(s);
    FlushKeepsPeer(s);
    U32Small(0);
  }

  lemma FirstDue(cfg: Config, ctl: Control, now: nat)
    requires !ctl.updated
    ensures var t := UpdateTick(cfg, ctl, now);
            && t.due && t.ctl == ctl.(current := now, updated := true, tsFlush := t.ctl.tsFlush)
  { }

  lemma NoneInFlight(s: State)
    requires s.snd.buf == []
    ensures !InFlightFor(s, Fast) && !InFlightFor(s, Timeout)
  { }

  lemma FlushKeepsPeer(s: State)
    ensures Flush(Wrapping, s).s.ctl.rmtWnd == s.ctl.rmtWnd
  {
    hide FlushControl, FlushSegs, FlushSender;
    FlushControlFrame(s, FlushSender(Wrapping, s));
  }
}
