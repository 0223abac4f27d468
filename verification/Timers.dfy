/** The retransmission timer of every segment, over any run of an endpoint fed arbitrary bytes:
    when a segment is sent again is a function of when, and why, it was sent before. */
module Timers {
  import opened Options
  import opened Serial
  import opened Wire
  import opened Engine
  import opened Endpoint
  import opened Congestion
  import Schedule

  // ---------------------------------------------------------------- what a run has transmitted

  /** The state an event flushes from, if it flushes. */
  function FlushedFrom(c: State, ev: Event): Option<State> {
    match ev
    case FlushE => Some(c)
    case UpdateE(now) =>
      var t := UpdateTick(c.cfg, c.ctl, U32(now));
      if t.due then Some(c.(ctl := t.ctl)) else None
    case _ => None
  }

  function Find(buf: seq<Unacked>, sn: nat): Option<Unacked> {
    if buf == [] then None else if buf[0].seg.sn == sn then Some(buf[0]) else Find(buf[1..], sn)
  }

  /** One transmission: why, at what time, and the timeout `rx_rto` of that time. */
  datatype Shot = Shot(why: Reason, at: nat, rto: nat)

  /** The transmissions of the segment numbered `sn` since its first. */
  function History(cfg: Config, evs: seq<Event>, sn: nat): seq<Shot>
    decreases |evs|
  {
    if evs == [] then []
    else
      var n := |evs| - 1;
      HistoryAfter(History(cfg, evs[..n], sn), FlushedFrom(Exec(Initial(cfg), evs[..n]), evs[n]), sn)
  }

  function HistoryAfter(h: seq<Shot>, from: Option<State>, sn: nat): seq<Shot> {
    if from.None? then h
    else
      var s := from.value;
      var u := Find(FlushSender(Wrapping, s).buf, sn);
      if u.None? || FlushPass(s).Why(u.value) == Hold then h
      else (if FlushPass(s).Why(u.value) == First then [] else h)
           + [Shot(FlushPass(s).Why(u.value), s.ctl.current, s.ctl.rto)]
  }

  /** The segment's own timeout: `rx_rto` at first, and with each timeout that much more, half
      of it with nodelay. */
  function Own(cfg: Config, h: seq<Shot>): nat
    decreases |h|
  {
    if h == [] then 0
    else
      var x := h[|h| - 1];
      Own(cfg, h[..|h| - 1])
      + (if x.why == First then x.rto else if x.why == Fast then 0 else if cfg.nodelay then x.rto / 2 else x.rto)
  }

  /** How long after the last transmission the next is due: the first time an eighth longer,
      except with nodelay. */
  function Wait(cfg: Config, h: seq<Shot>): nat {
    Own(cfg, h) + if |h| == 1 && !cfg.nodelay then h[0].rto / 8 else 0
  }

  /** The timer of a segment with these transmissions behind it. */
  ghost predicate Timed(cfg: Config, u: Unacked, h: seq<Shot>) {
    && h != [] && h[0].why == First && (forall k :: 0 < k < |h| ==> h[k].why == Timeout || h[k].why == Fast)
    && (forall k :: 0 <= k < |h| ==> h[k].rto <= RTO_MAX)
    && u.xmit == U32(|h|) && u.rto == U32(Own(cfg, h))
    && u.resendTs == U32(h[|h| - 1].at + Wait(cfg, h))
  }

  // ---------------------------------------------------------------- events that do not flush

  /** The buffer has the segment, the count of skips aside. */
  ghost predicate From(buf: seq<Unacked>, v: Unacked) {
    exists i :: 0 <= i < |buf| && buf[i].(fastAck := v.fastAck) == v
  }

  ghost predicate AllFrom(buf: seq<Unacked>, after: seq<Unacked>) {
    forall i :: 0 <= i < |after| ==> From(buf, after[i])
  }

  lemma FromTrans(a: seq<Unacked>, b: seq<Unacked>, c: seq<Unacked>)
    requires AllFrom(a, b) && AllFrom(b, c)
    ensures AllFrom(a, c)
  {
    forall i | 0 <= i < |c| ensures From(a, c[i]) {
      assert From(b, c[i]);
      var j :| 0 <= j < |b| && b[j].(fastAck := c[i].fastAck) == c[i];
      assert From(a, b[j]);
      var k :| 0 <= k < |a| && a[k].(fastAck := b[j].fastAck) == b[j];
      assert a[k].(fastAck := c[i].fastAck) == c[i];
    }
  }

  lemma FromSelf(a: seq<Unacked>)
    ensures AllFrom(a, a)
  {
    forall i | 0 <= i < |a| ensures From(a, a[i]) { assert a[i].(fastAck := a[i].fastAck) == a[i]; }
  }

  lemma FromTail(a: seq<Unacked>)
    requires a != []
    ensures AllFrom(a, a[1..])
  {
    var b := a[1..];
    forall i | 0 <= i < |b| ensures From(a, b[i]) { assert a[i + 1].(fastAck := b[i].fastAck) == b[i]; }
  }

  lemma FromCons(u: Unacked, v: Unacked, a: seq<Unacked>, b: seq<Unacked>)
    requires v == u.(fastAck := v.fastAck) && AllFrom(a, b)
    ensures AllFrom([u] + a, [v] + b)
  {
    var x, y := [u] + a, [v] + b;
    forall i | 0 <= i < |y| ensures From(x, y[i]) {
      if i == 0 {
        assert x[0].(fastAck := y[0].fastAck) == y[0];
      } else {
        assert From(a, b[i - 1]);
        var j :| 0 <= j < |a| && a[j].(fastAck := b[i - 1].fastAck) == b[i - 1];
        assert x[j + 1] == a[j];
      }
    }
  }

  lemma {:induction false} DropFrom(buf: seq<Unacked>, una: nat)
    ensures AllFrom(buf, DropUntil(Wrapping, buf, una))
  {
    hide AllFrom;
    FromSelf(buf);
    if buf != [] && Wrapping.Cmp(una, buf[0].seg.sn) > 0 {
      DropFrom(buf[1..], una);
      FromTail(buf);
      FromTrans(buf, buf[1..], DropUntil(Wrapping, buf[1..], una));
    }
  }

  lemma {:induction false} RemoveFrom(buf: seq<Unacked>, sn: nat)
    ensures AllFrom(buf, RemoveSn(Wrapping, buf, sn))
  {
    hide AllFrom;
    FromSelf(buf);
    if buf != [] {
      FromTail(buf);
      RemoveFrom(buf[1..], sn);
      FromCons(buf[0], buf[0], buf[1..], RemoveSn(Wrapping, buf[1..], sn));
      assert [buf[0]] + buf[1..] == buf;
    }
  }

  lemma {:induction false} SkipsFrom(buf: seq<Unacked>, sn: nat)
    ensures AllFrom(buf, CountSkips(Wrapping, buf, sn))
  {
    hide AllFrom;
    FromSelf(buf);
    if buf != [] && Wrapping.Cmp(sn, buf[0].seg.sn) >= 0 {
      SkipsFrom(buf[1..], sn);
      var v := if sn != buf[0].seg.sn then buf[0].(fastAck := U32(buf[0].fastAck + 1)) else buf[0];
      FromCons(buf[0], v, buf[1..], CountSkips(Wrapping, buf[1..], sn));
      assert [buf[0]] + buf[1..] == buf;
    }
  }

  lemma AcksFrom(s: Sender, g: Seg)
    ensures AllFrom(s.buf, InputAcks(Wrapping, s, g).buf)
  {
    hide AllFrom, DropUntil, RemoveSn;
    var s1 := Shrink(ParseUna(Wrapping, s, g.una));
    DropFrom(s.buf, g.una);
    if g.cmd == CMD_ACK && InFlight(Wrapping, s1, g.sn) {
      RemoveFrom(s1.buf, g.sn);
      FromTrans(s.buf, s1.buf, RemoveSn(Wrapping, s1.buf, g.sn));
    }
  }

  lemma {:induction false} SegsFrom(s: State, gs: seq<Seg>)
    ensures AllFrom(s.snd.buf, InputSegs(Wrapping, s, gs).snd.buf)
    decreases |gs|
  {
    hide AllFrom, InputAcks, InputPush, InputControl;
    FromSelf(s.snd.buf);
    if gs != [] {
      var n := |gs| - 1;
      SegsFrom(s, gs[..n]);
      AcksFrom(InputSegs(Wrapping, s, gs[..n]).snd, gs[n]);
      FromTrans(s.snd.buf, InputSegs(Wrapping, s, gs[..n]).snd.buf, InputSegs(Wrapping, s, gs).snd.buf);
    }
  }

  lemma EndFrom(s: State, una0: nat, m: Option<nat>)
    ensures AllFrom(s.snd.buf, InputEnd(Wrapping, s, una0, m).snd.buf)
  {
    hide AllFrom, CountSkips, GrowCwnd;
    FromSelf(s.snd.buf);
    if m.Some? { SkipsFrom(s.snd.buf, m.value); }
  }

  /** A datagram never touches a timer. */
  lemma InputFrom(c: State, bytes: seq<byte>)
    ensures AllFrom(c.snd.buf, Input(Wrapping, c, bytes).s.snd.buf)
  {
    hide AllFrom, InputSegs, InputEnd, DecodeAll, MaxAck;
    FromSelf(c.snd.buf);
    if |bytes| >= OVERHEAD {
      var p := DecodeAll(c.cfg.conv, bytes);
      var d := InputSegs(Wrapping, c, p.segs);
      SegsFrom(c, p.segs);
      EndFrom(d, c.snd.una, MaxAck(Wrapping, p.segs));
      FromTrans(c.snd.buf, d.snd.buf, InputEnd(Wrapping, d, c.snd.una, MaxAck(Wrapping, p.segs)).snd.buf);
    }
  }

  /** Neither does any other event that does not flush. */
  lemma StepFrom(c: State, ev: Event)
    requires FlushedFrom(c, ev).None?
    ensures AllFrom(c.snd.buf, Step(c, ev).snd.buf)
  {
    hide AllFrom, Input, Send, Drain, Merged, Engine.PeekSize;
    FromSelf(c.snd.buf);
    match ev
    case InputE(bytes) => InputFrom(c, bytes);
    case _ =>
  }

  lemma TimedFrom(cfg: Config, u: Unacked, v: Unacked, h: seq<Shot>)
    requires Timed(cfg, u, h) && v == u.(fastAck := v.fastAck)
    ensures Timed(cfg, v, h)
  { }

  // ---------------------------------------------------------------- events that flush

  /** The numbering loop appends segments that were never sent and never skipped. */
  lemma {:induction false} AdmitNew(s: State, window: nat)
    ensures var n, buf := |s.snd.buf|, Admit(Wrapping, s, window).buf;
            && n <= |buf| && buf[..n] == s.snd.buf
            && forall i :: n <= i < |buf| ==> buf[i].xmit == 0 && buf[i].fastAck == 0
    decreases |s.snd.queue|
  {
    hide Arith.Cmp, Arith.Plus;
    var t := s.snd;
    if Wrapping.Cmp(t.nxt, Wrapping.Plus(t.una, window)) < 0 && t.queue != [] {
      var buf1 := t.buf + [Number(s, t.queue[0], t.nxt)];
      var s1 := s.(snd := t.(queue := t.queue[1..], buf := buf1, nxt := Wrapping.Plus(t.nxt, 1)));
      AdmitNew(s1, window);
      var buf := Admit(Wrapping, s1, window).buf;
      assert buf[..|t.buf|] == buf1[..|t.buf|] == t.buf;
      assert buf[..|buf1|][|t.buf|] == buf[|t.buf|];
    }
  }

  lemma {:induction false} FindAt(buf: seq<Unacked>, base: nat, i: nat)
    requires Ordered(buf, base) && i < |buf|
    ensures Find(buf, buf[i].seg.sn) == Some(buf[i])
  {
    if i > 0 {
      assert Off(buf[0].seg.sn, base) < Off(buf[i].seg.sn, base);
      FindAt(buf[1..], base, i - 1);
    }
  }

  /** One more transmission. */
  lemma OwnMore(cfg: Config, h: seq<Shot>, x: Shot)
    ensures Own(cfg, h + [x])
         == Own(cfg, h) + if x.why == First then x.rto else if x.why == Fast then 0
                          else if cfg.nodelay then x.rto / 2 else x.rto
  {
    assert (h + [x])[..|h|] == h;
  }

  /** The timer after one turn of the transmission loop. */
  lemma TouchTimed(p: Pass, u: Unacked, h: seq<Shot>)
    requires u.xmit == 0 || Timed(p.cfg, u, h)
    requires p.rto <= RTO_MAX
    ensures var why := p.Why(u);
            Timed(p.cfg, p.Touch(u),
                  if why == Hold then h else (if why == First then [] else h) + [Shot(why, p.current, p.rto)])
  {
    hide Own;
    var why := p.Why(u);
    if why != Hold {
      var h0: seq<Shot> := if why == First then [] else h;
      var x := Shot(why, p.current, p.rto);
      var h1 := h0 + [x];
      OwnMore(p.cfg, h0, x);
      if why == First {
        NothingOwned(p.cfg);
        U32Small(p.rto);
        U32Small(1);
      } else {
        var more := if why == Fast then 0 else if p.cfg.nodelay then p.rto / 2 else p.rto;
        Schedule.U32Add(|h|, 1);
        Schedule.U32Add(Own(p.cfg, h), more);
        Schedule.U32Add(Own(p.cfg, h) + more, p.current);
        U32Small(u.rto);
        assert h1[0] == h[0] && forall k :: 0 <= k < |h| ==> h1[k] == h[k];
      }
    }
  }

  lemma NothingOwned(cfg: Config)
    ensures Own(cfg, []) == 0
  { }

  /** What a flush leaves of the segment at position `i`, given what holds of the old ones. */
  lemma FlushTimed(s: State, base: nat, i: nat, h: seq<Shot>)
    requires Ordered(FlushSender(Wrapping, s).buf, base) && i < |FlushSender(Wrapping, s).buf| && s.ctl.rto <= RTO_MAX
    requires i < |s.snd.buf| ==> Timed(s.cfg, s.snd.buf[i], h)
    ensures var v := Flush(Wrapping, s).s.snd.buf[i];
            v.seg.sn == FlushSender(Wrapping, s).buf[i].seg.sn && Timed(s.cfg, v, HistoryAfter(h, Some(s), v.seg.sn))
  {
    hide Ordered, Timed, FlushControl, FlushSegs, FlushWindow, Admit;
    var buf := FlushSender(Wrapping, s).buf;
    AdmitNew(s, FlushWindow(s));
    FindAt(buf, base, i);
    assert i < |s.snd.buf| ==> buf[..|s.snd.buf|][i] == buf[i];
    TouchTimed(FlushPass(s), buf[i], h);
  }

  // ---------------------------------------------------------------- runs

  lemma {:induction false} SegsRto(s: State, gs: seq<Seg>)
    requires s.ctl.rto <= RTO_MAX
    ensures InputSegs(Wrapping, s, gs).ctl.rto <= RTO_MAX
    decreases |gs|
  {
    hide InputAcks, InputPush;
    if gs != [] { SegsRto(s, gs[..|gs| - 1]); }
  }

  lemma GrowRto(cfg: Config, ctl: Control)
    ensures GrowCwnd(cfg, ctl).rto == ctl.rto
  { }

  lemma InputRto(c: State, bytes: seq<byte>)
    requires c.ctl.rto <= RTO_MAX
    ensures Input(Wrapping, c, bytes).s.ctl.rto <= RTO_MAX
  {
    hide InputSegs, DecodeAll, MaxAck, GrowCwnd, ParseFastAck;
    if |bytes| >= OVERHEAD {
      var gs := DecodeAll(c.cfg.conv, bytes).segs;
      SegsRto(c, gs);
      GrowRto(c.cfg, InputSegs(Wrapping, c, gs).ctl);
      InputSegsQueue(c, gs);
    }
  }

  lemma FlushRto(s: State)
    ensures Flush(Wrapping, s).s.ctl.rto == s.ctl.rto
  {
    hide FlushControl, FlushSegs, FlushSender;
    FlushControlFrame(s, FlushSender(Wrapping, s));
  }

  lemma StepRto(c: State, ev: Event)
    requires c.ctl.rto <= RTO_MAX
    ensures Step(c, ev).ctl.rto <= RTO_MAX
  {
    hide Send, Drain, Merged, Engine.PeekSize, Input, Flush;
    match ev
    case InputE(bytes) => InputRto(c, bytes);
    case FlushE => FlushRto(c);
    case UpdateE(now) => FlushRto(c.(ctl := UpdateTick(c.cfg, c.ctl, U32(now)).ctl));
    case _ =>
  }

  lemma {:induction false} RtoAtMost(cfg: Config, evs: seq<Event>)
    ensures Exec(Initial(cfg), evs).ctl.rto <= RTO_MAX
    decreases |evs|
  {
    hide Step;
    if evs != [] {
      RtoAtMost(cfg, evs[..|evs| - 1]);
      StepRto(Exec(Initial(cfg), evs[..|evs| - 1]), evs[|evs| - 1]);
    }
  }

  /** What the flush of an event walks over is in sequence order. */
  lemma FlushedOrdered(cfg: Config, evs: seq<Event>, ev: Event, s: State)
    requires FlushedFrom(Exec(Initial(cfg), evs), ev) == Some(s)
    ensures Step(Exec(Initial(cfg), evs), ev) == Flush(Wrapping, s).s
    ensures Ordered(FlushSender(Wrapping, s).buf, s.snd.una)
  {
    hide Flush, FlushSender, Ordered;
    var more := evs + [ev];
    assert more[..|evs|] == evs;
    WindowsInvariant(cfg, more);
    OrderedAfter(s);
  }

  ghost predicate AllTimed(cfg: Config, evs: seq<Event>) {
    var buf := Exec(Initial(cfg), evs).snd.buf;
    forall i :: 0 <= i < |buf| ==> Timed(cfg, buf[i], History(cfg, evs, buf[i].seg.sn))
  }

  lemma {:induction false} RunTimed(cfg: Config, evs: seq<Event>)
    ensures AllTimed(cfg, evs)
    decreases |evs|
  {
    hide Step, Timed, Flush, FlushSender, HistoryAfter, Ordered;
    if evs != [] {
      var n := |evs| - 1;
      var head, ev := evs[..n], evs[n];
      var c, d := Exec(Initial(cfg), head), Exec(Initial(cfg), evs);
      RunTimed(cfg, head);
      assert head + [ev] == evs;
      forall i | 0 <= i < |d.snd.buf| ensures Timed(cfg, d.snd.buf[i], History(cfg, evs, d.snd.buf[i].seg.sn)) {
        if FlushedFrom(c, ev).None? { HeldTimed(cfg, head, ev, i); } else { SentTimed(cfg, head, ev, i); }
      }
    }
  }

  lemma HistoryMore(cfg: Config, evs: seq<Event>, ev: Event, sn: nat)
    ensures History(cfg, evs + [ev], sn)
         == HistoryAfter(History(cfg, evs, sn), FlushedFrom(Exec(Initial(cfg), evs), ev), sn)
    ensures Exec(Initial(cfg), evs + [ev]) == Step(Exec(Initial(cfg), evs), ev)
  {
    hide HistoryAfter, Step;
    assert (evs + [ev])[..|evs|] == evs;
  }

  lemma HeldTimed(cfg: Config, evs: seq<Event>, ev: Event, i: nat)
    requires AllTimed(cfg, evs) && FlushedFrom(Exec(Initial(cfg), evs), ev).None?
    requires i < |Exec(Initial(cfg), evs + [ev]).snd.buf|
    ensures var v := Exec(Initial(cfg), evs + [ev]).snd.buf[i]; Timed(cfg, v, History(cfg, evs + [ev], v.seg.sn))
  {
    hide Step, Timed, History, Exec;
    var c, v := Exec(Initial(cfg), evs), Exec(Initial(cfg), evs + [ev]).snd.buf[i];
    HistoryMore(cfg, evs, ev, v.seg.sn);
    StepFrom(c, ev);
    assert From(c.snd.buf, v);
    var j :| 0 <= j < |c.snd.buf| && c.snd.buf[j].(fastAck := v.fastAck) == v;
    TimedFrom(cfg, c.snd.buf[j], v, History(cfg, evs, v.seg.sn));
  }

  lemma SentTimed(cfg: Config, evs: seq<Event>, ev: Event, i: nat)
    requires AllTimed(cfg, evs) && FlushedFrom(Exec(Initial(cfg), evs), ev).Some?
    requires i < |Exec(Initial(cfg), evs + [ev]).snd.buf|
    ensures var v := Exec(Initial(cfg), evs + [ev]).snd.buf[i]; Timed(cfg, v, History(cfg, evs + [ev], v.seg.sn))
  {
    hide Step, Timed, History, Exec, HistoryAfter, Ordered, FlushControl, FlushSegs, FlushSender;
    var c, v := Exec(Initial(cfg), evs), Exec(Initial(cfg), evs + [ev]).snd.buf[i];
    var s := FlushedFrom(c, ev).value;
    HistoryMore(cfg, evs, ev, v.seg.sn);
    FlushedOrdered(cfg, evs, ev, s);
    RtoAtMost(cfg, evs);
    ExecConfig(cfg, evs);
    if i < |s.snd.buf| { OldNumbers(s, i); }
    FlushTimed(s, s.snd.una, i, History(cfg, evs, v.seg.sn));
  }

  /** An old segment keeps its place and its number. */
  lemma OldNumbers(s: State, i: nat)
    requires i < |s.snd.buf|
    ensures i < |Flush(Wrapping, s).s.snd.buf| && Flush(Wrapping, s).s.snd.buf[i].seg.sn == s.snd.buf[i].seg.sn
  {
    hide FlushControl, FlushSegs, FlushWindow, Admit;
    AdmitNew(s, FlushWindow(s));
    assert FlushSender(Wrapping, s).buf[..|s.snd.buf|][i] == FlushSender(Wrapping, s).buf[i];
  }

  // ---------------------------------------------------------------- theorems

  /** A flush from `s` transmits the data segment numbered `sn`. */
  ghost predicate Sends(s: State, sn: nat) {
    exists g :: g in Flush(Wrapping, s).segs && g.cmd == CMD_PUSH && g.sn == sn
  }

  /** Every segment in the send buffer is a data segment. */
  lemma OnlyData(cfg: Config, evs: seq<Event>)
    ensures forall u :: u in Exec(Initial(cfg), evs).snd.buf ==> u.seg.cmd == CMD_PUSH
  {
    var w := RunShadow(cfg, evs);
    var c := Exec(Initial(cfg), evs);
    forall u | u in c.snd.buf ensures u.seg.cmd == CMD_PUSH {
      var i :| 0 <= i < |c.snd.buf| && c.snd.buf[i] == u;
      assert w.snd.buf[i] in w.snd.buf;
    }
  }

  lemma FlushedData(cfg: Config, evs: seq<Event>, ev: Event, s: State)
    requires FlushedFrom(Exec(Initial(cfg), evs), ev) == Some(s)
    ensures forall u :: u in FlushSender(Wrapping, s).buf ==> u.seg.cmd == CMD_PUSH
  {
    hide FlushSender, FlushControl, FlushSegs, Ordered, Exec;
    FlushedOrdered(cfg, evs, ev, s);
    HistoryMore(cfg, evs, ev, 0);
    OnlyData(cfg, evs + [ev]);
    var buf, after := FlushSender(Wrapping, s).buf, Flush(Wrapping, s).s.snd.buf;
    forall u | u in buf ensures u.seg.cmd == CMD_PUSH {
      var i :| 0 <= i < |buf| && buf[i] == u;
      assert after[i] == FlushPass(s).Touch(buf[i]) && after[i] in after;
    }
  }

  ghost predicate Numbers(gs: seq<Seg>, sn: nat) {
    exists g :: g in gs && g.sn == sn
  }

  /** The data segments of a flush are those of its transmission loop. */
  lemma SendsDue(s: State, sn: nat)
    requires forall u :: u in FlushSender(Wrapping, s).buf ==> u.seg.cmd == CMD_PUSH
    ensures Sends(s, sn) <==> Numbers(FlushPass(s).DueSegs(FlushSender(Wrapping, s).buf), sn)
  {
    hide FlushSender, FlushControl;
    var due := FlushPass(s).DueSegs(FlushSender(Wrapping, s).buf);
    DueData(FlushPass(s), FlushSender(Wrapping, s).buf);
    hide Pass.DueSegs;
    forall g ensures g in Flush(Wrapping, s).segs && g.cmd == CMD_PUSH <==> g in due {
      if g in due { assert g in Flush(Wrapping, s).segs; }
    }
  }

  lemma {:induction false} DueData(p: Pass, buf: seq<Unacked>)
    requires forall u :: u in buf ==> u.seg.cmd == CMD_PUSH
    ensures forall g :: g in p.DueSegs(buf) ==> g.cmd == CMD_PUSH
    decreases |buf|
  {
    if buf != [] {
      var n := |buf| - 1;
      assert buf[n] in buf;
      DueData(p, buf[..n]);
    }
  }

  lemma DueNumbers(p: Pass, buf: seq<Unacked>, base: nat, i: nat)
    requires Ordered(buf, base) && i < |buf|
    ensures Numbers(p.DueSegs(buf), buf[i].seg.sn) <==> p.Why(buf[i]) != Hold
  {
    hide Pass.DueSegs, Pass.Why, Off;
    DueSegsExact(p, buf, base);
    var sn := buf[i].seg.sn;
    if p.Why(buf[i]) != Hold {
      assert buf[i] in buf && DueIn(p, buf, p.Touch(buf[i]).seg);
    }
    if Numbers(p.DueSegs(buf), sn) {
      var g :| g in p.DueSegs(buf) && g.sn == sn;
      assert DueIn(p, buf, g);
      var u :| u in buf && p.Why(u) != Hold && g == p.Touch(u).seg;
      var j :| 0 <= j < |buf| && buf[j] == u;
      assert j == i;
    }
  }

  /** A flush transmits a segment exactly when the loop does not hold it. */
  lemma SendsExactly(cfg: Config, evs: seq<Event>, ev: Event, s: State, i: nat)
    requires FlushedFrom(Exec(Initial(cfg), evs), ev) == Some(s) && i < |FlushSender(Wrapping, s).buf|
    ensures var u := FlushSender(Wrapping, s).buf[i];
            Sends(s, u.seg.sn) <==> FlushPass(s).Why(u) != Hold
  {
    hide FlushSender, Pass.Why, Exec, FlushedFrom, Ordered, Sends, Numbers;
    FlushedOrdered(cfg, evs, ev, s);
    FlushedData(cfg, evs, ev, s);
    SendsDue(s, FlushSender(Wrapping, s).buf[i].seg.sn);
    DueNumbers(FlushPass(s), FlushSender(Wrapping, s).buf, s.snd.una, i);
  }

  /** How many transmissions of one segment keep its timer within the 31-bit range. */
  const SHOTS: nat := 35000

  lemma {:induction false} OwnBound(cfg: Config, h: seq<Shot>)
    requires forall k :: 0 <= k < |h| ==> h[k].rto <= RTO_MAX
    ensures Own(cfg, h) <= |h| * RTO_MAX
    decreases |h|
  {
    if h != [] { OwnBound(cfg, h[..|h| - 1]); }
  }

  /** When a timer runs out. */
  lemma TimerRunsOut(p: Pass, u: Unacked, h: seq<Shot>, t: int, now: int)
    requires Timed(p.cfg, u, h) && |h| <= SHOTS && U32(t) == U32(h[|h| - 1].at) && p.current == U32(now)
    requires t <= now < t + TWO31
    ensures Wait(p.cfg, h) < TWO31
    ensures p.Why(u) == if now - t >= Wait(p.cfg, h) then Timeout
                        else if SkippedOften(p.cfg, u.fastAck) then Fast else Hold
  {
    hide Own;
    OwnBound(p.cfg, h);
    U32Small(|h|);
    var at, w := h[|h| - 1].at, Wait(p.cfg, h);
    var d := at - t;
    assert U32(at + w) == U32(t + w) by {
      Schedule.U32Add(at, w);
      Schedule.U32Add(t, w);
    }
    Schedule.DiffNear(now, t + w);
  }

  /** The count has reached `fastresend`, or, when that is 0, the end of its 32-bit range. */
  predicate SkippedOften(cfg: Config, fastAck: nat) {
    fastAck >= if cfg.fastResend > 0 then cfg.fastResend else TWO32 - 1
  }

  /** The retransmission timer over any run, whatever the datagrams said: at the flush of an
      event, a segment that was last transmitted at time `t` and is still unacknowledged is overdue
      exactly when its wait since then is over, and it is transmitted exactly when it is overdue or
      was skipped often enough. The transmission enters its history with the reason; only one for
      skips sets their count to zero. */
  lemma TimeoutExactly(cfg: Config, evs: seq<Event>, ev: Event, s: State, i: nat, t: int, now: int)
    requires FlushedFrom(Exec(Initial(cfg), evs), ev) == Some(s) && i < |s.snd.buf|
    requires s.ctl.current == U32(now) && t <= now < t + TWO31
    requires var h := History(cfg, evs, s.snd.buf[i].seg.sn);
             0 < |h| <= SHOTS && U32(t) == U32(h[|h| - 1].at)
    ensures var u, d := s.snd.buf[i], Flush(Wrapping, s).s;
            var h := History(cfg, evs, u.seg.sn);
            var over, often := now - t >= Wait(cfg, h), SkippedOften(cfg, u.fastAck);
            && (FlushPass(s).Why(u) == Timeout <==> over)
            && (Sends(s, u.seg.sn) <==> over || often)
            && History(cfg, evs + [ev], u.seg.sn) ==
                 h + (if over then [Shot(Timeout, U32(now), s.ctl.rto)]
                      else if often then [Shot(Fast, U32(now), s.ctl.rto)] else [])
            && i < |d.snd.buf| && d.snd.buf[i].seg.sn == u.seg.sn
            && d.snd.buf[i].fastAck == if often && !over then 0 else u.fastAck
  {
    hide FlushSender, Pass.Why, Exec, History, Ordered, Sends, Timed, Wait, Find, FlushControl, FlushSegs;
    var u := s.snd.buf[i];
    var h := History(cfg, evs, u.seg.sn);
    RunTimed(cfg, evs);
    ExecConfig(cfg, evs);
    OldStays(s, i);
    TimerRunsOut(FlushPass(s), u, h, t, now);
    SendsExactly(cfg, evs, ev, s, i);
    FlushedOrdered(cfg, evs, ev, s);
    FindAt(FlushSender(Wrapping, s).buf, s.snd.una, i);
    HistoryMore(cfg, evs, ev, u.seg.sn);
    assert h + [] == h;
  }

  lemma OldStays(s: State, i: nat)
    requires i < |s.snd.buf|
    ensures i < |FlushSender(Wrapping, s).buf| && FlushSender(Wrapping, s).buf[i] == s.snd.buf[i]
  {
    hide FlushWindow, Admit;
    AdmitNew(s, FlushWindow(s));
    assert FlushSender(Wrapping, s).buf[..|s.snd.buf|][i] == FlushSender(Wrapping, s).buf[i];
  }

  /** A segment numbered by a flush is transmitted by it, for the first time. */
  lemma NewIsSent(cfg: Config, evs: seq<Event>, ev: Event, s: State, i: nat)
    requires FlushedFrom(Exec(Initial(cfg), evs), ev) == Some(s)
    requires |s.snd.buf| <= i < |FlushSender(Wrapping, s).buf|
    ensures var sn := FlushSender(Wrapping, s).buf[i].seg.sn;
            && Sends(s, sn) && History(cfg, evs + [ev], sn) == [Shot(First, s.ctl.current, s.ctl.rto)]
            && Flush(Wrapping, s).s.snd.buf[i].fastAck == 0
  {
    hide Admit, Exec, History, Ordered, Sends, FlushControl, FlushSegs, FlushWindow, Find;
    var u := FlushSender(Wrapping, s).buf[i];
    AdmitNew(s, FlushWindow(s));
    SendsExactly(cfg, evs, ev, s, i);
    FlushedOrdered(cfg, evs, ev, s);
    FindAt(FlushSender(Wrapping, s).buf, s.snd.una, i);
    HistoryMore(cfg, evs, ev, u.seg.sn);
  }

  /** `k` timeouts in a row, all under the timeout `r`: the wait grows by `r` each time, or by half
      of it with nodelay. */
  ghost predicate TimedOut(h: seq<Shot>, r: nat) {
    && h != [] && (forall j :: 0 <= j < |h| ==> h[j].rto == r)
    && h[0].why == First && forall j :: 0 < j < |h| ==> h[j].why == Timeout
  }

  lemma {:induction false} BackOff(cfg: Config, h: seq<Shot>, r: nat)
    requires TimedOut(h, r)
    ensures var k := |h| - 1;
            Wait(cfg, h) == if cfg.nodelay then r + k * (r / 2) else if k == 0 then r + r / 8 else (k + 1) * r
    decreases |h|
  {
    var k := |h| - 1;
    assert Own(cfg, []) == 0;
    if k > 0 {
      BackOff(cfg, h[..k], r);
      assert h[..k][..k - 1] == h[..k - 1];
      assert k * (r / 2) == (k - 1) * (r / 2) + r / 2;
      assert (k + 1) * r == k * r + r;
    } else {
      assert h[..0] == [];
    }
  }
}
