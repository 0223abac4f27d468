/** The flush clock of `ikcp_update` and `ikcp_check`, on a wrapping 32-bit clock. */
module Schedule {
  import opened Serial
  import opened Wire
  import opened Engine
  import E = Endpoint
  import Congestion

  /** The 32-bit flush time stands for the true time `due`, at most one interval after
      the last update at `last`. */
  ghost predicate ClockOk(cfg: Config, ctl: Control, due: int, last: int) {
    ctl.updated && ctl.tsFlush == U32(due) && last < due <= last + cfg.interval
  }

  /** The 32-bit difference of two times less than 2^32 apart. */
  lemma DiffNear(now: int, due: int)
    requires -TWO31 <= now - due < TWO32
    ensures Diff(U32(now), U32(due)) == if now - due < TWO31 then now - due else now - due - TWO32
  {
    U32Congruent(U32(now) - U32(due), now - due, due / TWO32 - now / TWO32);
    U32Small(now - due);
  }

  lemma U32Add(now: int, k: int)
    ensures U32(U32(now) + k) == U32(now + k)
  {
    U32Congruent(U32(now) + k, now + k, -(now / TWO32));
  }

  /** One update. It flushes exactly when the flush time has come, unless the clock was
      left alone for so long that the 32-bit difference looks like a few seconds to go. */
  lemma TickFlushes(cfg: Config, ctl: Control, due: int, last: int, now: int)
    requires ClockOk(cfg, ctl, due, last) && last <= now < due + TWO32
    ensures UpdateTick(cfg, ctl, U32(now)).due <==> due <= now < due + TWO32 - 10000
  {
    DiffNear(now, due);
  }

  /** The flush time after an update: it moves on by whole intervals as long as updates are less
      than one interval late, so lateness does not add up; only a later one starts anew. */
  lemma TickAdvances(cfg: Config, ctl: Control, due: int, last: int, now: int) returns (due1: int)
    requires ClockOk(cfg, ctl, due, last) && last <= now < due + TWO32 - 10000
    ensures ClockOk(cfg, UpdateTick(cfg, ctl, U32(now)).ctl, due1, now)
    ensures due1 == if now < due then due else if now < due + cfg.interval then due + cfg.interval
                    else now + cfg.interval
  {
    DiffNear(now, due);
    U32Add(now, cfg.interval);
    U32Add(due, cfg.interval);
    if now < due {
      due1 := due;
    } else if now - due >= 10000 {
      DiffNear(now, now + cfg.interval);
      due1 := now + cfg.interval;
    } else {
      DiffNear(now, due + cfg.interval);
      due1 := if now >= due + cfg.interval then now + cfg.interval else due + cfg.interval;
    }
  }

  /** A clock set back by more than ten seconds starts the schedule anew. */
  lemma ClockSetBack(cfg: Config, ctl: Control, due: int, now: int)
    requires ctl.updated && ctl.tsFlush == U32(due) && due - TWO31 < now < due - 10000
    ensures var t := UpdateTick(cfg, ctl, U32(now));
            t.due && ClockOk(cfg, t.ctl, now + cfg.interval, now)
  {
    DiffNear(due, now);
    U32Congruent(U32(now) - U32(due), now - due, due / TWO32 - now / TWO32);
    U32Small(now - due);
    U32Add(now, cfg.interval);
    DiffNear(now, now + cfg.interval);
  }

  /** The first update always flushes. */
  lemma FirstTick(cfg: Config, ctl: Control, now: int)
    requires !ctl.updated
    ensures var t := UpdateTick(cfg, ctl, U32(now));
            t.due && ClockOk(cfg, t.ctl, now + cfg.interval, now)
  {
    DiffNear(now, now);
    U32Add(now, cfg.interval);
    DiffNear(now, now + cfg.interval);
  }

  /** The control block and the number of flushes after updates at the given times. */
  datatype Ticks = Ticks(ctl: Control, flushes: nat)

  function Tick(cfg: Config, ctl: Control, times: seq<nat>): Ticks
    decreases |times|
  {
    if times == [] then Ticks(ctl, 0)
    else
      var n := |times| - 1;
      var before := Tick(cfg, ctl, times[..n]);
      var t := UpdateTick(cfg, before.ctl, U32(times[n]));
      Ticks(t.ctl, before.flushes + (if t.due then 1 else 0))
  }

  /** Times never go back, and no two consecutive updates are 2^32 - 10000 ms apart. */
  predicate Steady(times: seq<nat>) {
    forall i :: 0 < i < |times| ==> times[i - 1] <= times[i] <= times[i - 1] + TWO32 - 10000
  }

  /** No two consecutive updates are more than one interval apart. */
  predicate Punctual(cfg: Config, times: seq<nat>) {
    forall i :: 0 < i < |times| ==> times[i] <= times[i - 1] + cfg.interval
  }

  /** One flush per interval between the first and the last update, and one more. */
  function RateBound(cfg: Config, times: seq<nat>): int
    requires times != []
  {
    (times[|times| - 1] - times[0]) / cfg.interval + 1
  }

  /** Over any steady sequence of updates the flush time stays within one interval, and
      the flushes are never more frequent than one per interval. While no two updates are more
      than one interval apart the schedule does not drift: the flush times are those of a clock
      started with the first update, and there is exactly one flush per interval of it. */
  lemma {:induction false} FlushRate(cfg: Config, ctl: Control, times: seq<nat>) returns (due: int)
    requires !ctl.updated && times != [] && Steady(times)
    ensures var r := Tick(cfg, ctl, times);
            var t0, t := times[0], times[|times| - 1];
            && ClockOk(cfg, r.ctl, due, t)
            && due >= t0 + r.flushes * cfg.interval
            && r.flushes <= RateBound(cfg, times)
            && (Punctual(cfg, times) ==>
                  due == t0 + r.flushes * cfg.interval && r.flushes == RateBound(cfg, times))
    decreases |times|
  {
    hide UpdateTick;
    var n := |times| - 1;
    var t0, t := times[0], times[n];
    var head := times[..n];
    if n == 0 {
      FirstTick(cfg, ctl, t0);
      due := t0 + cfg.interval;
      assert Tick(cfg, ctl, head) == Ticks(ctl, 0);
      assert 1 * cfg.interval == cfg.interval;
    } else {
      HeadOf(cfg, times);
      var due0 := FlushRate(cfg, ctl, head);
      due := RateStep(cfg, Tick(cfg, ctl, head), due0, t0, times[n - 1], t);
    }
    CountBound(t - t0, cfg.interval, Tick(cfg, ctl, times).flushes, due - t0);
  }

  lemma HeadOf(cfg: Config, times: seq<nat>)
    requires |times| > 1 && Steady(times)
    ensures var n := |times| - 1;
            var head := times[..n];
            && Steady(head) && head[0] == times[0] && head[|head| - 1] == times[n - 1]
            && times[n - 1] <= times[n] <= times[n - 1] + TWO32 - 10000
            && (Punctual(cfg, times) ==> Punctual(cfg, head) && times[n] <= times[n - 1] + cfg.interval)
  { }

  lemma RateStep(cfg: Config, before: Ticks, due0: int, t0: int, last: int, now: int) returns (due: int)
    requires ClockOk(cfg, before.ctl, due0, last) && last <= now <= last + TWO32 - 10000
    requires due0 >= t0 + before.flushes * cfg.interval
    ensures var t := UpdateTick(cfg, before.ctl, U32(now));
            && ClockOk(cfg, t.ctl, due, now)
            && due >= t0 + (before.flushes + (if t.due then 1 else 0)) * cfg.interval
            && (due0 == t0 + before.flushes * cfg.interval && now <= last + cfg.interval ==>
                  due == t0 + (before.flushes + (if t.due then 1 else 0)) * cfg.interval)
  {
    TickFlushes(cfg, before.ctl, due0, last, now);
    due := TickAdvances(cfg, before.ctl, due0, last, now);
    assert (before.flushes + 1) * cfg.interval == before.flushes * cfg.interval + cfg.interval;
  }

  lemma CountBound(span: int, interval: int, flushes: nat, due: int)
    requires interval > 0 && due <= span + interval && due >= flushes * interval
    ensures flushes <= span / interval + 1
    ensures span < due == flushes * interval ==> flushes == span / interval + 1
  {
    var q := span / interval;
    assert span == q * interval + span % interval;
    assert (q + 2) * interval == q * interval + 2 * interval;
    if flushes >= q + 2 { MulMono(q + 2, flushes, interval); }
    if flushes <= q { MulMono(flushes, q, interval); }
  }

  /** How long after `now` the time returned by `ikcp_check` is. */
  function CheckDelay(s: State, now: nat): nat {
    U32(Check(s, U32(now)) - U32(now))
  }

  /** `ikcp_check` says to wait at least `k` milliseconds exactly when for that long no flush and
      no retransmission is due, and `k` is no more than one interval: the time it returns is the
      earliest of these, and it is the present one only if something is due now. */
  lemma CheckIsExact(s: State, due: int, last: int, now: nat, k: nat)
    requires ClockOk(s.cfg, s.ctl, due, last) && last <= now < due + TWO32 - 10000 && k > 0
    ensures CheckDelay(s, now) <= s.cfg.interval
    ensures k <= CheckDelay(s, now) <==>
              && k <= due - now && k <= s.cfg.interval
              && forall i :: 0 <= i < |s.snd.buf| ==> k <= Diff(s.snd.buf[i].resendTs, U32(now))
  {
    hide NearestResend;
    DiffNear(now, due);
    assert U32(U32(now) - U32(now)) == 0;
    if now < due {
      DiffNear(due, now);
      NearestIs(s.snd.buf, U32(now), if k < TWO31 then k else 1);
      var packet := NearestResend(s.snd.buf, U32(now));
      if packet.Some? {
        var delay := Min(Min(packet.value, due - now), s.cfg.interval);
        U32Add(now, delay);
        U32Congruent(U32(now + delay) - U32(now), delay, now / TWO32 - (now + delay) / TWO32);
        U32Small(delay);
      }
    }
  }

  lemma {:induction false} NearestIs(buf: seq<Unacked>, now: nat, k: nat)
    requires 0 < k < TWO31
    ensures var m := NearestResend(buf, now);
            && (m.Some? ==> m.value > 0)
            && (m.Some? && k <= m.value <==> forall i :: 0 <= i < |buf| ==> k <= Diff(buf[i].resendTs, now))
    decreases |buf|
  {
    if buf != [] {
      var n := |buf| - 1;
      NearestIs(buf[..n], now, k);
      assert forall i :: 0 <= i < n ==> buf[..n][i] == buf[i];
    }
  }

  /** No update strictly before the time `ikcp_check` returns would flush. */
  lemma CheckIsSafe(s: State, due: int, last: int, now: nat, t: int)
    requires ClockOk(s.cfg, s.ctl, due, last) && last <= now < due + TWO32 - 10000
    requires now <= t < now + CheckDelay(s, now)
    ensures !UpdateTick(s.cfg, s.ctl, U32(t)).due
  {
    hide CheckDelay, UpdateTick;
    CheckIsExact(s, due, last, now, CheckDelay(s, now));
    TickFlushes(s.cfg, s.ctl, due, last, t);
  }

  /** Before the first update the time to call again is the present. */
  lemma CheckBeforeStart(s: State, now: nat)
    requires !s.ctl.updated
    ensures CheckDelay(s, now) == 0
  {
    assert U32(U32(now) - U32(now)) == 0;
  }

  // ---------------------------------------------------------------- the clock of an endpoint

  /** The times of the updates among the events. */
  function UpdateTimes(evs: seq<E.Event>): seq<nat>
    decreases |evs|
  {
    if evs == [] then []
    else
      var n := |evs| - 1;
      UpdateTimes(evs[..n]) + (if evs[n].UpdateE? then [evs[n].now] else [])
  }

  /** How many of the updates among the events flushed. */
  function FlushesOf(cfg: Config, evs: seq<E.Event>): nat
    decreases |evs|
  {
    if evs == [] then 0
    else
      var n := |evs| - 1;
      var c := E.Exec(Initial(cfg), evs[..n]);
      FlushesOf(cfg, evs[..n]) + (if evs[n].UpdateE? && UpdateTick(c.cfg, c.ctl, U32(evs[n].now)).due then 1 else 0)
  }

  predicate SameClock(a: Control, b: Control) {
    a.updated == b.updated && a.tsFlush == b.tsFlush
  }

  /** The flush decision looks at nothing but the flush clock. */
  lemma TickIsLocal(cfg: Config, a: Control, b: Control, now: nat)
    requires SameClock(a, b)
    ensures var x, y := UpdateTick(cfg, a, now), UpdateTick(cfg, b, now);
            x.due == y.due && SameClock(x.ctl, y.ctl)
  { }

  lemma {:induction false} InputKeepsClock(s: State, gs: seq<Seg>)
    ensures SameClock(InputSegs(Wrapping, s, gs).ctl, s.ctl)
    decreases |gs|
  {
    if gs != [] { InputKeepsClock(s, gs[..|gs| - 1]); }
  }

  lemma FlushKeepsClock(s: State)
    ensures SameClock(Flush(Wrapping, s).s.ctl, s.ctl)
  {
    Congestion.FlushControlFrame(s, FlushSender(Wrapping, s));
  }

  lemma GrowKeepsClock(cfg: Config, ctl: Control)
    ensures SameClock(GrowCwnd(cfg, ctl), ctl)
  { }

  /** Only updates move the flush clock. */
  lemma StepClock(c: State, ev: E.Event)
    ensures var d := E.Step(c, ev);
            SameClock(d.ctl, if ev.UpdateE? then UpdateTick(c.cfg, c.ctl, U32(ev.now)).ctl else c.ctl)
  {
    match ev
    case SendE(data) =>
    case RecvE(len) =>
    case InputE(bytes) =>
      if |bytes| >= OVERHEAD {
        var p := DecodeAll(c.cfg.conv, bytes);
        InputKeepsClock(c, p.segs);
        var d := InputSegs(Wrapping, c, p.segs);
        GrowKeepsClock(d.cfg, d.ctl);
      }
    case FlushE => FlushKeepsClock(c);
    case UpdateE(now) => FlushKeepsClock(c.(ctl := UpdateTick(c.cfg, c.ctl, U32(now)).ctl));
  }

  lemma ClockStep(ctl0: Control, times: seq<nat>, c: State, ev: E.Event)
    requires SameClock(c.ctl, Tick(c.cfg, ctl0, times).ctl)
    ensures var r := Tick(c.cfg, ctl0, times + (if ev.UpdateE? then [ev.now] else []));
            && SameClock(E.Step(c, ev).ctl, r.ctl)
            && r.flushes == Tick(c.cfg, ctl0, times).flushes
                            + (if ev.UpdateE? && UpdateTick(c.cfg, c.ctl, U32(ev.now)).due then 1 else 0)
  {
    StepClock(c, ev);
    if ev.UpdateE? {
      assert (times + [ev.now])[..|times|] == times;
      TickIsLocal(c.cfg, c.ctl, Tick(c.cfg, ctl0, times).ctl, U32(ev.now));
    } else {
      assert times + [] == times;
    }
  }

  /** Whatever happens between updates, the clock and the flushes are those of the updates. */
  lemma {:induction false} ClockOfRun(cfg: Config, evs: seq<E.Event>)
    ensures var r := Tick(cfg, Initial(cfg).ctl, UpdateTimes(evs));
            SameClock(E.Exec(Initial(cfg), evs).ctl, r.ctl) && FlushesOf(cfg, evs) == r.flushes
    decreases |evs|
  {
    if evs != [] {
      var n := |evs| - 1;
      ClockOfRun(cfg, evs[..n]);
      E.ExecConfig(cfg, evs[..n]);
      ClockStep(Initial(cfg).ctl, UpdateTimes(evs[..n]), E.Exec(Initial(cfg), evs[..n]), evs[n]);
    }
  }

  lemma FlushRateFor(cfg: Config, ctl0: Control, times: seq<nat>, ctl: Control, flushes: nat) returns (due: int)
    requires !ctl0.updated && times != [] && Steady(times)
    requires SameClock(ctl, Tick(cfg, ctl0, times).ctl) && flushes == Tick(cfg, ctl0, times).flushes
    ensures ClockOk(cfg, ctl, due, times[|times| - 1])
    ensures flushes <= RateBound(cfg, times)
    ensures Punctual(cfg, times) ==>
              due == times[0] + flushes * cfg.interval && flushes == RateBound(cfg, times)
  {
    due := FlushRate(cfg, ctl0, times);
  }

  /** In every run of an endpoint, whatever it sends and is fed between updates, the
      updates flush at most once per interval, and after the last of them the next flush
      time lies within one interval. While the updates are at most one interval apart there is
      exactly one flush in each interval since the first, however late in it. */
  lemma FlushRateOfRun(cfg: Config, evs: seq<E.Event>) returns (due: int)
    requires UpdateTimes(evs) != [] && Steady(UpdateTimes(evs))
    ensures var times := UpdateTimes(evs);
            && ClockOk(cfg, E.Exec(Initial(cfg), evs).ctl, due, times[|times| - 1])
            && FlushesOf(cfg, evs) <= RateBound(cfg, times)
            && (Punctual(cfg, times) ==>
                  && due == times[0] + FlushesOf(cfg, evs) * cfg.interval
                  && FlushesOf(cfg, evs) == RateBound(cfg, times))
  {
    var c, times, flushes := E.Exec(Initial(cfg), evs), UpdateTimes(evs), FlushesOf(cfg, evs);
    assert SameClock(c.ctl, Tick(cfg, Initial(cfg).ctl, times).ctl)
        && flushes == Tick(cfg, Initial(cfg).ctl, times).flushes by { ClockOfRun(cfg, evs); }
    due := FlushRateFor(cfg, Initial(cfg).ctl, times, c.ctl, flushes);
  }
}
