/** Fast retransmission over runs of the two-endpoint system: a datagram that acknowledges a
    segment counts every unacknowledged one before it as skipped, and once a segment was skipped
    often enough the next flush transmits it. */
module Skips {
  import opened Options
  import opened Serial
  import opened Wire
  import opened Engine
  import opened Window
  import opened Refinement
  import opened System
  import opened Safety
  import opened Runs
  import opened Progress
  import Liveness
  import Delivery
  import Congestion

  // ---------------------------------------------------------------- one datagram

  /** The datagram acknowledges a later segment than `sn`. */
  ghost predicate PassesOver(gs: seq<Seg>, sn: int) {
    exists g :: g in gs && g.cmd == CMD_ACK && g.sn > sn
  }

  /** `maxack` is the largest number acknowledged in the datagram. */
  lemma {:induction false} MaxAckIsLargest(gs: seq<Seg>)
    ensures var m := MaxAck(Unbounded, gs);
            && (m.Some? ==> AckIn(gs, m.value))
            && forall g :: g in gs && g.cmd == CMD_ACK ==> m.Some? && g.sn <= m.value
    decreases |gs|
  {
    if gs != [] {
      var n := |gs| - 1;
      MaxAckIsLargest(gs[..n]);
      assert gs == gs[..n] + [gs[n]];
    }
  }

  lemma MaxAckPasses(gs: seq<Seg>, sn: int)
    ensures PassesOver(gs, sn) <==> MaxAck(Unbounded, gs).Some? && sn < MaxAck(Unbounded, gs).value
  {
    MaxAckIsLargest(gs);
    var m := MaxAck(Unbounded, gs);
    if m.Some? && sn < m.value {
      var g :| g in gs && g.cmd == CMD_ACK && g.sn == m.value;
      assert g in gs && g.cmd == CMD_ACK && g.sn > sn;
    }
  }

  /** Counting: the segments before `sn`, and only those, have one skip more. */
  lemma {:induction false} CountSkipsIs(buf: seq<Unacked>, sn: nat)
    requires SortedUnacked(buf)
    ensures var r := CountSkips(Unbounded, buf, sn);
            forall i :: 0 <= i < |buf| ==>
              r[i] == if buf[i].seg.sn < sn then buf[i].(fastAck := U32(buf[i].fastAck + 1)) else buf[i]
  {
    hide U32;
    if buf != [] {
      if sn >= buf[0].seg.sn { CountSkipsIs(buf[1..], sn); }
    }
  }

  /** What one decoded segment leaves in the send buffer was there before. */
  lemma {:induction false} InputSegsLeave(s: State, gs: seq<Seg>)
    requires Ok(s)
    ensures forall u :: u in InputSegs(Unbounded, s, gs).snd.buf ==> u in s.snd.buf
    decreases |gs|
  {
    if gs != [] {
      var n := |gs| - 1;
      InputSegsKeep(s, gs[..n]);
      InputSegsLeave(s, gs[..n]);
      InputAcksKeeps(s.cfg, InputSegs(Unbounded, s, gs[..n]).snd, gs[n]);
    }
  }

  /** The segment one skip later, if the datagram passes over it. */
  ghost function Counted(u: Unacked, gs: seq<Seg>): Unacked {
    if PassesOver(gs, u.seg.sn) then u.(fastAck := U32(u.fastAck + 1)) else u
  }

  /** Every segment of `after` is one of `before`, with what the datagram adds to its count. */
  ghost predicate AllCounted(before: seq<Unacked>, after: seq<Unacked>, gs: seq<Seg>) {
    forall v :: v in after ==> exists u :: u in before && v == Counted(u, gs)
  }

  /** The end of a datagram: all that is left in the buffer is counted. */
  lemma FastAckCounts(cfg: Config, s: Sender, gs: seq<Seg>)
    requires SndOk(cfg, s) && forall g :: g in gs && g.cmd == CMD_ACK ==> g.sn < s.nxt
    ensures var m := MaxAck(Unbounded, gs);
            var buf := if m.Some? then ParseFastAck(Unbounded, s, m.value).buf else s.buf;
            |buf| == |s.buf| && forall i :: 0 <= i < |buf| ==> buf[i] == Counted(s.buf[i], gs)
  {
    hide PassesOver, U32, MaxAck;
    var m := MaxAck(Unbounded, gs);
    MaxAckIsLargest(gs);
    if m.Some? && InFlight(Unbounded, s, m.value) { CountSkipsIs(s.buf, m.value); }
    forall i | 0 <= i < |s.buf| ensures PassesOver(gs, s.buf[i].seg.sn) <==> m.Some? && s.buf[i].seg.sn < m.value {
      MaxAckPasses(gs, s.buf[i].seg.sn);
    }
    assert forall i :: 0 <= i < |s.buf| ==> s.buf[i] in s.buf;
  }

  lemma ParsedCounts(s: State, gs: seq<Seg>)
    requires Ok(s) && forall g :: g in gs && g.cmd == CMD_ACK ==> g.sn < s.snd.nxt
    ensures AllCounted(s.snd.buf, InputParsed(Unbounded, s, Parsed(gs, 0)).snd.buf, gs)
  {
    hide Counted, GrowCwnd, ParseFastAck, MaxAck, InputSegs, SndOk, RcvOk;
    var t := InputSegs(Unbounded, s, gs);
    var r := InputParsed(Unbounded, s, Parsed(gs, 0));
    InputSegsKeep(s, gs);
    InputSegsLeave(s, gs);
    FastAckCounts(t.cfg, t.snd, gs);
    AcksLeaveBuffer(t, s.snd.una, MaxAck(Unbounded, gs));
    forall v | v in r.snd.buf ensures exists u :: u in s.snd.buf && v == Counted(u, gs) {
      var i :| 0 <= i < |r.snd.buf| && r.snd.buf[i] == v;
      assert t.snd.buf[i] in t.snd.buf && v == Counted(t.snd.buf[i], gs);
    }
  }

  lemma AcksLeaveBuffer(t: State, una0: nat, m: Option<nat>)
    ensures InputEnd(Unbounded, t, una0, m).snd.buf
         == (if m.Some? then ParseFastAck(Unbounded, t.snd, m.value).buf else t.snd.buf)
  {
    hide GrowCwnd, ParseFastAck;
  }

  /** A datagram of the peer, in every reachable state: each segment still unacknowledged afterwards
      has one skip more if the datagram acknowledges a later one, and is otherwise as it was. */
  lemma InputCounts(n: Node, m: Node, pkt: Pkt)
    requires Paired(n, m) && pkt in m.net && Fresh(n.u, pkt.tags)
    ensures AllCounted(n.u.snd.buf, NodeInput(n, pkt).u.snd.buf, pkt.tags)
    ensures NodeInput(n, pkt).c == Wrap(NodeInput(n, pkt).u)
  {
    hide AllCounted, InputParsed;
    InputNode(n, m, pkt);
    AcksNumbered(n, m, pkt);
    Liveness.OkOf(n);
    ParsedCounts(n.u, pkt.tags);
  }

  lemma AcksNumbered(n: Node, m: Node, pkt: Pkt)
    requires Paired(n, m) && pkt in m.net
    ensures forall g :: g in pkt.tags && g.cmd == CMD_ACK ==> g.sn < n.u.snd.nxt
  {
    PktSound(n, m, pkt);
    forall g | g in pkt.tags && g.cmd == CMD_ACK ensures g.sn < n.u.snd.nxt {
      assert Sound(n.log, m.log, m.u.rcv, g);
    }
  }

  // ---------------------------------------------------------------- one event

  /** The flush from `s` transmits the segment because it was skipped often enough. */
  ghost predicate Resends(s: State, sn: int) {
    exists u :: u in s.snd.buf && u.seg.sn == sn && FlushPass(s).Why(u) == Fast
  }

  /** The event is a flush that retransmits the segment early. */
  ghost predicate EarlyResend(n: Node, ev: Event, sn: int) {
    match ev
    case FlushE => Resends(n.u, sn)
    case UpdateE(now) => Liveness.Due(n, now) && Resends(Liveness.Ticked(n, now).u, sn)
    case _ => false
  }

  /** The segment `sn` is in the buffer, skipped `k` times since it was last resent early. */
  ghost predicate SkippedBy(s: State, sn: int, k: nat) {
    exists u :: u in s.snd.buf && u.seg.sn == sn && u.fastAck == k
  }

  /** What the event adds to the count of the segment. */
  ghost function Skip(ev: Event, sn: int): nat {
    if ev.InputE? && PassesOver(ev.pkt.tags, sn) then 1 else 0
  }

  lemma OneOfEach(cfg: Config, s: Sender, u: Unacked, v: Unacked)
    requires SndOk(cfg, s) && u in s.buf && v in s.buf && u.seg.sn == v.seg.sn
    ensures u == v
  {
    var i :| 0 <= i < |s.buf| && s.buf[i] == u;
    var j :| 0 <= j < |s.buf| && s.buf[j] == v;
  }

  /** A flush leaves the count of an old segment alone unless it resends it early. */
  lemma FlushCounts(s: State, sn: int, k: nat)
    requires Ok(s) && SkippedBy(s, sn, k) && !Resends(s, sn)
    ensures SkippedBy(Flush(Unbounded, s).s, sn, k)
  {
    hide FlushControl, FlushSegs, FlushWindow, Admit;
    var u :| u in s.snd.buf && u.seg.sn == sn && u.fastAck == k;
    var i :| 0 <= i < |s.snd.buf| && s.snd.buf[i] == u;
    AdmitForm(s, FlushWindow(s));
    var t := Flush(Unbounded, s).s;
    assert t.snd.buf[i] == FlushPass(s).Touch(u) && t.snd.buf[i] in t.snd.buf;
    assert FlushPass(s).Why(u) != Fast;
  }

  lemma CountedSkips(cfg: Config, s: Sender, after: seq<Unacked>, gs: seq<Seg>, sn: int, k: nat)
    requires SndOk(cfg, s) && AllCounted(s.buf, after, gs) && InBuf(after, sn)
    requires k + (if PassesOver(gs, sn) then 1 else 0) < TWO32
    requires exists u :: u in s.buf && u.seg.sn == sn && u.fastAck == k
    ensures exists v :: v in after && v.seg.sn == sn && v.fastAck == k + (if PassesOver(gs, sn) then 1 else 0)
  {
    hide PassesOver, SndOk;
    var x :| x in s.buf && x.seg.sn == sn && x.fastAck == k;
    var v :| v in after && v.seg.sn == sn;
    var u :| u in s.buf && v == Counted(u, gs);
    OneOfEach(cfg, s, u, x);
    U32Small(k + 1);
  }

  lemma InputSkips(n: Node, m: Node, pkt: Pkt, sn: int, k: nat)
    requires Paired(n, m) && pkt in m.net && Fresh(n.u, pkt.tags) && SkippedBy(n.u, sn, k)
    requires InBuf(NodeInput(n, pkt).u.snd.buf, sn) && k + Skip(InputE(pkt), sn) < TWO32
    ensures SkippedBy(NodeInput(n, pkt).u, sn, k + Skip(InputE(pkt), sn))
  {
    hide NodeInput, PassesOver, RcvOk, Paired, Fresh, InBuf, AllCounted, SndOk, NodeOk;
    InputCounts(n, m, pkt);
    PairedGivesOk(n, m);
    CountedSkips(n.u.cfg, n.u.snd, NodeInput(n, pkt).u.snd.buf, pkt.tags, sn, k);
  }

  lemma UpdateSkips(n: Node, m: Node, now: nat, sn: int, k: nat)
    requires Paired(n, m) && now < TWO32 && SkippedBy(n.u, sn, k) && !EarlyResend(n, UpdateE(now), sn)
    ensures SkippedBy(NodeUpdate(n, now).u, sn, k)
  {
    hide Flush, UpdateTick, Resends, NodeOk, Liveness.Due, Liveness.Ticked, NodeUpdate, Link, Ok;
    Liveness.TickWaits(n, now);
    Liveness.OkOf(Liveness.Ticked(n, now));
    if Liveness.Due(n, now) { FlushCounts(Liveness.Ticked(n, now).u, sn, k); }
  }

  /** One event of the node: the count goes on. */
  lemma StepSkips(n: Node, m: Node, ev: Event, sn: int, k: nat)
    requires Paired(n, m) && Enabled(n, m, ev) && SkippedBy(n.u, sn, k) && !EarlyResend(n, ev, sn)
    requires InBuf(NodeStep(n, ev).u.snd.buf, sn) && k + Skip(ev, sn) < TWO32
    ensures SkippedBy(NodeStep(n, ev).u, sn, k + Skip(ev, sn))
  {
    hide Flush, NodeInput, Send, Recv, Resends, NodeUpdate, Paired, PassesOver, Fresh, InBuf, Ok;
    match ev
    case FlushE =>
      PairedGivesOk(n, m);
      FlushCounts(n.u, sn, k);
    case UpdateE(now) => UpdateSkips(n, m, now, sn, k);
    case InputE(pkt) => InputSkips(n, m, pkt, sn, k);
    case SendE(data) =>
    case RecvE(len) => RecvSender(n.u, len);
  }

  lemma RecvSender(s: State, len: int)
    ensures Recv(Unbounded, s, len).s.snd == s.snd
  {
    hide Drain, Merged, PeekSize;
  }

  /** No number comes back into the send buffer. */
  lemma StepBack(n: Node, m: Node, ev: Event, sn: int)
    requires Paired(n, m) && Enabled(n, m, ev) && sn < n.u.snd.nxt
    ensures n.u.snd.nxt <= NodeStep(n, ev).u.snd.nxt
    ensures InBuf(NodeStep(n, ev).u.snd.buf, sn) ==> InBuf(n.u.snd.buf, sn)
  {
    hide Flush, Send, Recv, UpdateTick, InputParsed;
    Liveness.OkOf(n);
    match ev
    case FlushE => FlushBack(n.u, sn);
    case UpdateE(now) =>
      Liveness.TickWaits(n, now);
      Liveness.OkOf(Liveness.Ticked(n, now));
      if Liveness.Due(n, now) { FlushBack(Liveness.Ticked(n, now).u, sn); }
    case InputE(pkt) =>
      InputFrame(n.u, pkt.tags);
      DatagramEffect(n.u, pkt.tags);
    case SendE(data) =>
    case RecvE(len) => RecvSender(n.u, len);
  }

  lemma FlushBack(s: State, sn: int)
    requires Ok(s) && sn < s.snd.nxt
    ensures s.snd.nxt <= Flush(Unbounded, s).s.snd.nxt
    ensures InBuf(Flush(Unbounded, s).s.snd.buf, sn) ==> InBuf(s.snd.buf, sn)
  {
    hide Flush, FlushWindow;
    FlushNumbers(s);
    FlushKeepsSender(s);
    var t := Flush(Unbounded, s).s;
    if InBuf(t.snd.buf, sn) {
      var v :| v in t.snd.buf && v.seg.sn == sn;
      var i :| 0 <= i < |t.snd.buf| && t.snd.buf[i] == v;
      assert s.snd.buf[i] in s.snd.buf;
    }
  }

  // ---------------------------------------------------------------- runs

  /** No flush of `a` in the run retransmits the segment early. */
  ghost predicate NotResent(s: Sys, run: seq<Step>, sn: int)
    decreases |run|
  {
    run == [] || (!(run[0].atA && EarlyResend(s.a, run[0].ev, sn)) && NotResent(Apply(s, run[0]), run[1..], sn))
  }

  /** How many of the datagrams `a` is fed acknowledge a later segment than `sn`. */
  ghost function SkipCount(run: seq<Step>, sn: int): nat
    decreases |run|
  {
    if run == [] then 0 else (if run[0].atA then Skip(run[0].ev, sn) else 0) + SkipCount(run[1..], sn)
  }

  lemma {:induction false} RunBack(s: Sys, run: seq<Step>, sn: int)
    requires Inv(s) && IsRun(s, run) && sn < s.a.u.snd.nxt
    ensures InBuf(Exec(s, run).a.u.snd.buf, sn) ==> InBuf(s.a.u.snd.buf, sn)
    decreases |run|
  {
    hide NodeStep, Enabled, InBuf;
    if run != [] {
      var t := Apply(s, run[0]);
      if run[0].atA {
        StepKeeps(s.a, s.b, run[0].ev);
        StepBack(s.a, s.b, run[0].ev, sn);
      } else {
        StepKeeps(s.b, s.a, run[0].ev);
      }
      RunBack(t, run[1..], sn);
    }
  }

  lemma SkippedNumber(n: Node, sn: int, k: nat)
    requires NodeOk(n) && SkippedBy(n.u, sn, k)
    ensures sn < n.u.snd.nxt && InBuf(n.u.snd.buf, sn)
  { }

  /** Over any run: the count of a segment that stays unacknowledged and is not resent early grows
      by one with each datagram that passes over it. */
  lemma {:induction false} RunSkips(s: Sys, run: seq<Step>, sn: int, k: nat)
    requires Inv(s) && IsRun(s, run) && SkippedBy(s.a.u, sn, k) && NotResent(s, run, sn)
    requires InBuf(Exec(s, run).a.u.snd.buf, sn) && k + SkipCount(run, sn) < TWO32
    ensures SkippedBy(Exec(s, run).a.u, sn, k + SkipCount(run, sn))
    decreases |run|
  {
    hide NodeStep, Enabled, EarlyResend, Skip, InBuf, Link, NodeOk;
    if run != [] {
      var t := Apply(s, run[0]);
      if run[0].atA {
        StepKeeps(s.a, s.b, run[0].ev);
        SkippedNumber(s.a, sn, k);
        StepBack(s.a, s.b, run[0].ev, sn);
        RunBack(t, run[1..], sn);
        StepSkips(s.a, s.b, run[0].ev, sn, k);
        RunSkips(t, run[1..], sn, k + Skip(run[0].ev, sn));
      } else {
        StepKeeps(s.b, s.a, run[0].ev);
        RunSkips(t, run[1..], sn, k);
      }
    }
  }

  /** A segment skipped often enough is transmitted by the next flush. */
  lemma SkippedIsDue(s: State, sn: int, k: nat)
    requires Ok(s) && SkippedBy(s, sn, k) && s.cfg.fastResend > 0 && k >= s.cfg.fastResend
    ensures PushIn(Flush(Unbounded, s).segs, sn)
  {
    hide FlushControl, Admit, FlushWindow, Pass.DueSegs;
    Liveness.WindowAtMost(s);
    AdmitKeeps(s, FlushWindow(s));
    var u :| u in s.snd.buf && u.seg.sn == sn && u.fastAck == k;
    var i :| 0 <= i < |s.snd.buf| && s.snd.buf[i] == u;
    var p, buf := FlushPass(s), FlushSender(Unbounded, s).buf;
    assert buf[i] == u && p.Why(u) != Hold;
    DueSegsHave(p, buf, i);
    var g := p.Touch(u).seg;
    assert g in FlushSegs(s, FlushSender(Unbounded, s));
  }

  lemma SkippedFrom(s: Sys, run: seq<Step>, sn: int, k: nat)
    requires Inv(s) && IsRun(s, run) && SkippedBy(s.a.u, sn, k) && NotResent(s, run, sn)
    requires InBuf(Exec(s, run).a.u.snd.buf, sn) && 0 < s.a.u.cfg.fastResend <= k + SkipCount(run, sn) < TWO32
    ensures PushInAny(Out(Exec(s, run).a), sn)
  {
    hide Exec, IsRun, SkippedBy, NotResent, SkipCount, Link, NodeOk, Ok, InBuf, Out, Flush;
    RunSkips(s, run, sn, k);
    RunKeeps(s, run);
    Delivery.RunConfig(s, run);
    var t := Exec(s, run).a;
    Liveness.OkOf(t);
    SkippedIsDue(t.u, sn, k + SkipCount(run, sn));
    OutHasPush(t, sn);
  }

  /** No segment was skipped more than `k` times. */
  ghost predicate CountsUpTo(buf: seq<Unacked>, k: nat) {
    forall u :: u in buf ==> u.fastAck <= k
  }

  lemma FlushCountsUpTo(s: State, k: nat)
    requires CountsUpTo(s.snd.buf, k)
    ensures CountsUpTo(Flush(Unbounded, s).s.snd.buf, k)
  {
    hide FlushControl, FlushSegs, FlushWindow, Admit;
    AdmitForm(s, FlushWindow(s));
    var t := Flush(Unbounded, s).s;
    forall v | v in t.snd.buf ensures v.fastAck <= k {
      var i :| 0 <= i < |t.snd.buf| && t.snd.buf[i] == v;
      if i < |s.snd.buf| { assert s.snd.buf[i] in s.snd.buf; }
    }
  }

  lemma InputCountsUpTo(n: Node, m: Node, pkt: Pkt, k: nat)
    requires Paired(n, m) && pkt in m.net && Fresh(n.u, pkt.tags) && CountsUpTo(n.u.snd.buf, k)
    ensures CountsUpTo(NodeInput(n, pkt).u.snd.buf, k + 1)
  {
    hide NodeInput, PassesOver, Paired, Fresh;
    InputCounts(n, m, pkt);
    forall v | v in NodeInput(n, pkt).u.snd.buf ensures v.fastAck <= k + 1 {
      var u :| u in n.u.snd.buf && v == Counted(u, pkt.tags);
      Congestion.U32AtMost(u.fastAck + 1);
    }
  }

  lemma StepCountsUpTo(n: Node, m: Node, ev: Event, k: nat)
    requires Paired(n, m) && Enabled(n, m, ev) && CountsUpTo(n.u.snd.buf, k)
    ensures CountsUpTo(NodeStep(n, ev).u.snd.buf, k + 1)
  {
    hide Flush, NodeInput, Send, Recv, Paired, Fresh, UpdateTick;
    match ev
    case FlushE => FlushCountsUpTo(n.u, k);
    case UpdateE(now) => FlushCountsUpTo(n.u.(ctl := UpdateTick(n.u.cfg, n.u.ctl, now).ctl), k);
    case InputE(pkt) => InputCountsUpTo(n, m, pkt, k);
    case SendE(data) =>
    case RecvE(len) => RecvSender(n.u, len);
  }

  lemma {:induction false} RunCountsUpTo(s: Sys, run: seq<Step>, k: nat)
    requires Inv(s) && IsRun(s, run) && CountsUpTo(s.a.u.snd.buf, k)
    ensures CountsUpTo(Exec(s, run).a.u.snd.buf, k + |run|)
    decreases |run|
  {
    hide NodeStep, Enabled, CountsUpTo, Link, NodeOk;
    if run != [] {
      if run[0].atA {
        StepKeeps(s.a, s.b, run[0].ev);
        StepCountsUpTo(s.a, s.b, run[0].ev, k);
      } else {
        StepKeeps(s.b, s.a, run[0].ev);
        MoreUpTo(s.a.u.snd.buf, k);
      }
      RunCountsUpTo(Apply(s, run[0]), run[1..], k + 1);
    }
  }

  lemma MoreUpTo(buf: seq<Unacked>, k: nat)
    requires CountsUpTo(buf, k)
    ensures CountsUpTo(buf, k + 1)
  { }

  lemma {:induction false} SkipsAtMost(run: seq<Step>, sn: int)
    ensures SkipCount(run, sn) <= |run|
    decreases |run|
  {
    if run != [] { SkipsAtMost(run[1..], sn); }
  }

  lemma CountOf(buf: seq<Unacked>, sn: int, k: nat) returns (u: Unacked)
    requires InBuf(buf, sn) && CountsUpTo(buf, k)
    ensures u in buf && u.seg.sn == sn && u.fastAck <= k
  {
    u :| u in buf && u.seg.sn == sn;
  }

  lemma NothingCounted(cfg: Config)
    ensures CountsUpTo(NewNode(cfg).u.snd.buf, 0)
  { }

  /** Fast retransmission, from any reachable state on: a segment that stays unacknowledged while
      `fastresend` datagrams acknowledge later ones is transmitted by the next flush, unless one in
      between has done so for that reason. The 32-bit count is good for 2^32 events. */
  lemma SkippedIsSent(ca: Config, cb: Config, before: seq<Step>, run: seq<Step>, sn: int)
    requires ca.conv == cb.conv && IsRun(Sys(NewNode(ca), NewNode(cb)), before)
    requires var s := Exec(Sys(NewNode(ca), NewNode(cb)), before);
             && IsRun(s, run) && NotResent(s, run, sn)
             && InBuf(s.a.u.snd.buf, sn) && InBuf(Exec(s, run).a.u.snd.buf, sn)
    requires 0 < ca.fastResend <= SkipCount(run, sn) && |before| + |run| < TWO32
    ensures PushInAny(Out(Exec(Exec(Sys(NewNode(ca), NewNode(cb)), before), run).a), sn)
  {
    hide Exec, IsRun, NotResent, SkipCount, Link, NodeOk, InBuf, Out, CountsUpTo, PushInAny, NewNode;
    var s0 := Sys(NewNode(ca), NewNode(cb));
    InitOk(ca, cb);
    RunKeeps(s0, before);
    NothingCounted(ca);
    RunCountsUpTo(s0, before, 0);
    var s := Exec(s0, before);
    var u := CountOf(s.a.u.snd.buf, sn, |before|);
    SkipsAtMost(run, sn);
    Delivery.RunConfig(s0, before);
    StartsWith(ca, cb);
    SkippedFrom(s, run, sn, u.fastAck);
  }

  lemma StartsWith(ca: Config, cb: Config)
    ensures Sys(NewNode(ca), NewNode(cb)).a.u.cfg == ca
  { }
}
