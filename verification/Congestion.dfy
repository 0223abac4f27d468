/** Congestion window, retransmission timeout and flush clock: the 32-bit arithmetic of
    an endpoint that carries no sequence number. */
module Congestion {
  import opened Serial
  import opened Engine

  // ---------------------------------------------------------------- congestion window

  /** The largest value `cwnd` can take. */
  function CwndMax(cfg: Config): nat {
    Max(65535, cfg.sndWnd / 2 + THRESH_MIN + cfg.fastResend)
  }

  /** `(cwnd + 1) * mss` fits 32 bits for every value `cwnd` can take. */
  predicate CwndFits(cfg: Config) {
    (CwndMax(cfg) + 1) * cfg.Mss() < TWO32 && cfg.Mss() < 65536
  }

  /** `incr` is `cwnd` in bytes, with a remainder below one mss. */
  ghost predicate CwndOk(cfg: Config, ctl: Control) {
    && ctl.cwnd <= CwndMax(cfg) && ctl.rmtWnd < 65536
    && ctl.cwnd * cfg.Mss() <= ctl.incr < (ctl.cwnd + 1) * cfg.Mss()
    && ctl.ssthresh >= THRESH_MIN
  }

  /** `incr / mss` is `cwnd`. */
  lemma IncrIsCwnd(cfg: Config, ctl: Control)
    requires CwndOk(cfg, ctl)
    ensures ctl.incr / cfg.Mss() == ctl.cwnd
  {
    var m := cfg.Mss();
    var q, r := ctl.incr / m, ctl.incr % m;
    assert ctl.incr == q * m + r;
    if q < ctl.cwnd { MulMono(q + 1, ctl.cwnd, m); }
    if q > ctl.cwnd { MulMono(ctl.cwnd + 1, q, m); }
  }

  lemma HalfBound(m: int, incr: int, q: int)
    requires 0 < m && 2 * m <= incr && 0 <= q && q * incr <= m * m
    ensures 2 * q <= m
  {
    MulMono(2 * m, incr, q);
    assert (m + 1) * m == m * m + m;
    assert (2 * q) * m == (2 * m) * q;
    if 2 * q > m { MulMono(m + 1, 2 * q, m); }
  }

  /** In congestion avoidance the increment is below one mss. */
  lemma AvoidanceStep(m: int, incr: int)
    requires 26 <= m < 65536 && 2 * m <= incr
    ensures U32(m * m) == m * m && 0 <= (m * m) / incr && (m * m) / incr + m / 16 < m
  {
    MulMono(m, 65535, m);
    MulMono(m, 65535, 65535);
    MulMono(0, m, m);
    U32Small(m * m);
    var q := (m * m) / incr;
    assert m * m == q * incr + (m * m) % incr;
    if q < 0 { MulMono(q, -1, incr); }
    HalfBound(m, incr, q);
  }

  /** Products of `CwndOk` around a window `w`. */
  lemma Products(cfg: Config, w: nat)
    requires CwndFits(cfg) && w <= CwndMax(cfg)
    ensures var m := cfg.Mss();
            && (w + 1) * m == w * m + m && (w + 2) * m == w * m + m + m
            && 0 <= w * m && w * m + m < TWO32
  {
    var m := cfg.Mss();
    MulMono(w + 1, CwndMax(cfg) + 1, m);
    MulMono(0, w, m);
    assert (w + 1) * m == w * m + m;
    assert (w + 2) * m == w * m + 2 * m;
  }

  /** The clamp at the end of the C branch is dead: where it is reached, whatever the state,
      the growth step has not passed the peer's window, so there is nothing to clamp. */
  lemma ClampIsDead(cfg: Config, ctl: Control)
    ensures ctl.cwnd < ctl.rmtWnd ==>
              GrowStep(cfg, ctl).cwnd <= GrowStep(cfg, ctl).rmtWnd && GrowCwnd(cfg, ctl) == GrowStep(cfg, ctl)
  {
    U32AtMost(ctl.cwnd + 1);
  }

  lemma U32AtMost(x: nat)
    ensures U32(x) <= x
  {
    assert x == x / TWO32 * TWO32 + U32(x);
  }

  /** New data acknowledged: the window grows by at most one segment, never past the
      peer's, and `incr` keeps its meaning. */
  lemma GrowCwndKeeps(cfg: Config, ctl: Control)
    requires CwndFits(cfg) && CwndOk(cfg, ctl)
    ensures var c := GrowCwnd(cfg, ctl);
            && CwndOk(cfg, c) && ctl.cwnd <= c.cwnd <= ctl.cwnd + 1
            && c == ctl.(cwnd := c.cwnd, incr := c.incr)
            && (ctl.cwnd < ctl.rmtWnd ==> ctl.incr < c.incr && c.cwnd <= ctl.rmtWnd)
  {
    hide GrowStep, CwndOk;
    ClampIsDead(cfg, ctl);
    if ctl.cwnd < ctl.rmtWnd {
      if ctl.cwnd < ctl.ssthresh { SlowStartKeeps(cfg, ctl); } else { AvoidanceKeeps(cfg, ctl); }
    }
  }

  lemma SlowStartKeeps(cfg: Config, ctl: Control)
    requires CwndFits(cfg) && CwndOk(cfg, ctl) && ctl.cwnd < ctl.rmtWnd && ctl.cwnd < ctl.ssthresh
    ensures GrowStep(cfg, ctl) == ctl.(cwnd := ctl.cwnd + 1, incr := ctl.incr + cfg.Mss())
    ensures CwndOk(cfg, GrowStep(cfg, ctl))
  {
    Products(cfg, ctl.cwnd);
    Products(cfg, ctl.cwnd + 1);
    U32Small(ctl.cwnd + 1);
    U32Small(ctl.incr + cfg.Mss());
  }

  lemma AvoidanceKeeps(cfg: Config, ctl: Control)
    requires CwndFits(cfg) && CwndOk(cfg, ctl) && ctl.ssthresh <= ctl.cwnd < ctl.rmtWnd
    ensures var c := GrowStep(cfg, ctl);
            && CwndOk(cfg, c) && ctl.cwnd <= c.cwnd <= ctl.cwnd + 1 && 0 < ctl.incr < c.incr
            && c == ctl.(cwnd := c.cwnd, incr := c.incr)
            && c.incr == ctl.incr + (cfg.Mss() * cfg.Mss()) / ctl.incr + cfg.Mss() / 16
  {
    var m := cfg.Mss();
    Products(cfg, ctl.cwnd);
    Products(cfg, ctl.cwnd + 1);
    MulMono(2, ctl.cwnd, m);
    AvoidanceStep(m, ctl.incr);
    U32Small(ctl.cwnd + 1);
    U32Small((ctl.cwnd + 1) * m);
    U32Small(ctl.incr + (m * m) / ctl.incr + m / 16);
  }

  /** In congestion avoidance an acknowledgement adds a share of one mss to `incr`: between
      mss / (cwnd + 1) and mss / cwnd, and a sixteenth. */
  lemma AvoidanceShare(m: int, incr: int, w: int)
    requires 0 < m && 0 < w && w * m <= incr < (w + 1) * m
    ensures m / (w + 1) <= (m * m) / incr <= m / w
  {
    MulMono(1, w, m);
    ShareLow(m, incr, w, m / (w + 1)) by { DivBelow(m, w + 1); }
    ShareHigh(m, incr, w, m / w) by { DivBelow(m, w); }
  }

  lemma DivBelow(x: int, d: int)
    requires 0 <= x && 0 < d
    ensures 0 <= x / d && (x / d) * d <= x < (x / d + 1) * d
  {
    var q := x / d;
    assert x == q * d + x % d;
    assert (q + 1) * d == q * d + d;
    if q < 0 { MulMono(q, -1, d); }
  }

  lemma DivLeast(x: int, d: int, q: int)
    requires 0 <= x && 0 < d && q * d <= x
    ensures q <= x / d
  {
    DivBelow(x, d);
    if q > x / d { MulMono(x / d + 1, q, d); }
  }

  lemma DivMost(x: int, d: int, q: int)
    requires 0 <= x && 0 < d && x < (q + 1) * d
    ensures x / d <= q
  {
    DivBelow(x, d);
    if x / d > q { MulMono(q + 1, x / d, d); }
  }

  lemma ShareLow(m: int, incr: int, w: int, lo: int)
    requires 0 < m && 0 < w && 0 < incr < (w + 1) * m && 0 <= lo && lo * (w + 1) <= m
    ensures lo <= (m * m) / incr
  {
    MulMono(incr, (w + 1) * m, lo);
    assert lo * incr == incr * lo;
    assert ((w + 1) * m) * lo == (lo * (w + 1)) * m;
    MulMono(lo * (w + 1), m, m);
    DivLeast(m * m, incr, lo);
  }

  lemma ShareHigh(m: int, incr: int, w: int, hi: int)
    requires 0 < m && 0 < w && 0 < incr && w * m <= incr && 0 <= hi && m < (hi + 1) * w
    ensures (m * m) / incr <= hi
  {
    MulMono(w * m, incr, hi + 1);
    assert (w * m) * (hi + 1) == ((hi + 1) * w) * m;
    assert incr * (hi + 1) == (hi + 1) * incr;
    MulMono(m + 1, (hi + 1) * w, m);
    assert (m + 1) * m == m * m + m;
    MulMono(0, m, m);
    DivMost(m * m, incr, hi);
  }

  /** How the window grows: by one segment in slow start; in congestion avoidance `incr` grows by a
      share of one mss and a sixteenth, and the window is the number of whole segments in it. At the
      peer's window it stays. */
  ghost predicate Grows(cfg: Config, ctl: Control, c: Control) {
    var m := cfg.Mss();
    && c.ssthresh == ctl.ssthresh && c.rmtWnd == ctl.rmtWnd
    && if ctl.cwnd >= ctl.rmtWnd then c.cwnd == ctl.cwnd && c.incr == ctl.incr
       else if ctl.cwnd < ctl.ssthresh then c.cwnd == ctl.cwnd + 1 && c.incr == ctl.incr + m
       else
         && ctl.cwnd > 0 && m / (ctl.cwnd + 1) + m / 16 <= c.incr - ctl.incr <= m / ctl.cwnd + m / 16
         && c.cwnd == c.incr / m
  }

  lemma GrowsExactly(cfg: Config, ctl: Control)
    requires CwndFits(cfg) && CwndOk(cfg, ctl)
    ensures Grows(cfg, ctl, GrowCwnd(cfg, ctl)) && CwndOk(cfg, GrowCwnd(cfg, ctl))
  {
    GrowCwndKeeps(cfg, ctl);
    ClampIsDead(cfg, ctl);
    IncrIsCwnd(cfg, GrowCwnd(cfg, ctl));
    if ctl.cwnd < ctl.rmtWnd {
      if ctl.cwnd < ctl.ssthresh {
        SlowStartKeeps(cfg, ctl);
      } else {
        AvoidanceKeeps(cfg, ctl);
        AvoidanceShare(cfg.Mss(), ctl.incr, ctl.cwnd);
      }
    }
  }

  /** The control block after `n` acknowledgements that grow the window. */
  function GrowTimes(cfg: Config, ctl: Control, n: nat): Control {
    if n == 0 then ctl else GrowCwnd(cfg, GrowTimes(cfg, ctl, n - 1))
  }

  /** The rate of congestion avoidance: as long as the window lies between `low` and `high`, below
      the peer's, each acknowledgement adds at least mss / (high + 1) + mss / 16 bytes to it and at
      most mss / low + mss / 16. */
  lemma {:induction false} AvoidanceRate(cfg: Config, ctl: Control, n: nat, low: nat, high: nat)
    requires CwndFits(cfg) && CwndOk(cfg, ctl) && 0 < low && ctl.ssthresh <= low && high < ctl.rmtWnd
    requires Between(cfg, ctl, n, low, high)
    ensures var m, c := cfg.Mss(), GrowTimes(cfg, ctl, n);
            && CwndOk(cfg, c) && c.ssthresh == ctl.ssthresh && c.rmtWnd == ctl.rmtWnd
            && ctl.incr + n * (m / (high + 1) + m / 16) <= c.incr <= ctl.incr + n * (m / low + m / 16)
  {
    hide CwndOk, CwndFits, GrowCwnd, Grows;
    if n > 0 {
      AvoidanceRate(cfg, ctl, n - 1, low, high);
      var m, c := cfg.Mss(), GrowTimes(cfg, ctl, n - 1);
      GrowsExactly(cfg, c);
      GrowShare(cfg, c, GrowCwnd(cfg, c), low, high);
      var x, y := m / (high + 1) + m / 16, m / low + m / 16;
      assert n * x == (n - 1) * x + x && n * y == (n - 1) * y + y;
    }
  }

  /** The window stays between the two over the first `n` acknowledgements. */
  predicate Between(cfg: Config, ctl: Control, n: nat, low: nat, high: nat) {
    n == 0 || (low <= GrowTimes(cfg, ctl, n - 1).cwnd <= high && Between(cfg, ctl, n - 1, low, high))
  }

  lemma GrowShare(cfg: Config, ctl: Control, c: Control, low: nat, high: nat)
    requires Grows(cfg, ctl, c) && 0 < low <= ctl.cwnd <= high < ctl.rmtWnd && ctl.ssthresh <= low
    ensures var m := cfg.Mss();
            m / (high + 1) + m / 16 <= c.incr - ctl.incr <= m / low + m / 16
            && c.ssthresh == ctl.ssthresh && c.rmtWnd == ctl.rmtWnd
  {
    DivAnti(cfg.Mss(), ctl.cwnd + 1, high + 1);
    DivAnti(cfg.Mss(), low, ctl.cwnd);
  }

  lemma DivAnti(m: int, a: int, b: int)
    requires 0 <= m && 0 < a <= b
    ensures m / b <= m / a
  {
    var q := m / b;
    DivBelow(m, b);
    MulMono(a, b, q);
    assert a * q == q * a && b * q == q * b;
    DivLeast(m, a, q);
  }

  /** After a flush `incr` keeps its meaning and the window is at least one segment. */
  lemma CwndAfterFlushKeeps(cfg: Config, ctl: Control, fast: bool, lost: bool, inflight: nat, window: nat)
    requires CwndFits(cfg) && CwndOk(cfg, ctl) && inflight <= cfg.sndWnd && window <= cfg.sndWnd
    ensures var c := CwndAfterFlush(cfg, ctl, fast, lost, inflight, window);
            && CwndOk(cfg, c) && c.cwnd >= 1
            && c == ctl.(cwnd := c.cwnd, incr := c.incr, ssthresh := c.ssthresh)
  {
    var th := Max(inflight / 2, THRESH_MIN);
    ResentWindow(cfg, th);
    var cw := U32(th + cfg.Resent());
    Products(cfg, cw);
    Products(cfg, 1);
    U32Small(cw * cfg.Mss());
  }

  /** The window after a fast retransmit. Without a threshold configured, the 32-bit sum
      wraps to one below `ssthresh`. */
  lemma ResentWindow(cfg: Config, th: nat)
    requires CwndFits(cfg) && THRESH_MIN <= th <= cfg.sndWnd / 2 + THRESH_MIN
    ensures U32(th + cfg.Resent()) == if cfg.fastResend > 0 then th + cfg.fastResend else th - 1
    ensures U32(th + cfg.Resent()) <= CwndMax(cfg)
  {
    if cfg.fastResend > 0 {
      U32Small(th + cfg.fastResend);
    } else {
      U32Congruent(th + NEVER_RESEND, th - 1, 1);
      U32Small(th - 1);
    }
  }

  // ---------------------------------------------------------------- what a flush leaves alone

  lemma CwndAfterFlushFrame(cfg: Config, ctl: Control, fast: bool, lost: bool, inflight: nat, window: nat)
    ensures var c := CwndAfterFlush(cfg, ctl, fast, lost, inflight, window);
            c == ctl.(cwnd := c.cwnd, incr := c.incr, ssthresh := c.ssthresh)
  { }

  lemma ProbeTimerFrame(ctl: Control)
    ensures var c := ProbeTimer(ctl);
            c == ctl.(probeWait := c.probeWait, tsProbe := c.tsProbe, askSend := c.askSend)
  { }

  /** A flush moves neither the clocks nor the round-trip estimates. */
  lemma FlushControlFrame(s: State, snd: Sender)
    ensures var c := FlushControl(s, snd);
            && c.current == s.ctl.current && c.tsFlush == s.ctl.tsFlush && c.updated == s.ctl.updated
            && c.srtt == s.ctl.srtt && c.rttVar == s.ctl.rttVar && c.rto == s.ctl.rto && c.rmtWnd == s.ctl.rmtWnd
  {
    ProbeTimerFrame(s.ctl);
    var ctl, pass := ProbeTimer(s.ctl), FlushPass(s);
    var timeouts := pass.CountWhy(snd.buf, Timeout);
    var ctl1 := ctl.(askSend := false, askTell := false, xmit := U32(ctl.xmit + timeouts),
                     dead := ctl.dead || pass.Dies(snd.buf));
    CwndAfterFlushFrame(s.cfg, ctl1, pass.CountWhy(snd.buf, Fast) > 0, timeouts > 0,
                        U32(snd.nxt - snd.una), FlushWindow(s));
  }

  // ---------------------------------------------------------------- round-trip time

  /** `ikcp_update_ack` over a history of samples. */
  function Estimate(cfg: Config, ctl: Control, samples: seq<int>): Control
    decreases |samples|
  {
    if samples == [] then ctl
    else UpdateAck(cfg, Estimate(cfg, ctl, samples[..|samples| - 1]), samples[|samples| - 1])
  }

  lemma I32Small(x: int)
    requires -TWO31 <= x < TWO31
    ensures I32(x) == x
  {
    U32Small(x);
  }

  /** The estimator without any conversion: it is what `ikcp_update_ack` computes while
      nothing overflows. */
  function SmoothedRtt(srtt: int, rtt: int): int {
    if srtt == 0 then rtt else Max(1, (7 * srtt + rtt) / 8)
  }

  function RttDeviation(srtt: int, dev: int, rtt: int): int {
    if srtt == 0 then rtt / 2 else (3 * dev + Abs(rtt - srtt)) / 4
  }

  /** One sample between `lo` and `hi`: no 32-bit overflow, and the estimates stay in range. */
  lemma UpdateAckInRange(cfg: Config, ctl: Control, rtt: int, lo: nat, hi: nat)
    requires 8 * hi < TWO31 && lo <= rtt <= hi
    requires 0 <= ctl.srtt <= hi && 0 <= ctl.rttVar <= hi && (ctl.srtt == 0 || lo <= ctl.srtt)
    ensures var c := UpdateAck(cfg, ctl, rtt);
            && c.srtt == SmoothedRtt(ctl.srtt, rtt) && c.rttVar == RttDeviation(ctl.srtt, ctl.rttVar, rtt)
            && lo <= c.srtt <= hi && 0 <= c.rttVar <= hi
            && c.rto == Bound(cfg.minRto, c.srtt + Max(cfg.interval, 4 * c.rttVar), RTO_MAX)
            && cfg.minRto <= c.rto <= RTO_MAX
  {
    hide I32, U32;
    I32Small(rtt - ctl.srtt);
    I32Small(3 * ctl.rttVar);
    I32Small(7 * ctl.srtt);
    I32Small(7 * ctl.srtt + rtt);
    var c := UpdateAck(cfg, ctl, rtt);
    I32Small((3 * ctl.rttVar + Abs(rtt - ctl.srtt)) / 4);
    U32Small(4 * c.rttVar);
    U32Small(c.srtt + Max(cfg.interval, 4 * c.rttVar));
  }

  /** For any history of samples in [lo, hi], the smoothed round-trip time stays in
      [lo, hi], the deviation at most hi, and the timeout between its two bounds. */
  lemma {:induction false} EstimatorInRange(cfg: Config, ctl: Control, samples: seq<int>, lo: nat, hi: nat)
    requires 8 * hi < TWO31 && ctl.srtt == 0 && ctl.rttVar == 0
    requires forall i :: 0 <= i < |samples| ==> lo <= samples[i] <= hi
    ensures var c := Estimate(cfg, ctl, samples);
            && 0 <= c.srtt <= hi && 0 <= c.rttVar <= hi
            && (samples != [] ==> lo <= c.srtt && cfg.minRto <= c.rto <= RTO_MAX)
    decreases |samples|
  {
    if samples != [] {
      var n := |samples| - 1;
      EstimatorInRange(cfg, ctl, samples[..n], lo, hi);
      UpdateAckInRange(cfg, Estimate(cfg, ctl, samples[..n]), samples[n], lo, hi);
    }
  }

  /** Whatever the sample, the timeout ends between its two bounds. */
  lemma RtoBounded(cfg: Config, ctl: Control, rtt: int)
    ensures cfg.minRto <= UpdateAck(cfg, ctl, rtt).rto <= RTO_MAX
  { }
}
