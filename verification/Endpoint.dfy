/** One endpoint on its own, fed arbitrary bytes: what the C program keeps over every
    interleaving of its entry points, whatever the datagrams say. */
module Endpoint {
  import opened Options
  import opened Serial
  import opened Wire
  import opened Engine
  import opened Window
  import opened Refinement
  import opened Sending
  import opened Congestion
  import Loops
  import Safety

  datatype Event =
    | SendE(data: seq<byte>)
    | RecvE(len: int)
    | InputE(bytes: seq<byte>)
    | FlushE
    | UpdateE(now: nat)

  function Step(c: State, ev: Event): State {
    match ev
    case SendE(data) => c.(snd := c.snd.(queue := Send(c.cfg, c.snd.queue, data).queue))
    case RecvE(len) => Recv(Wrapping, c, len).s
    case InputE(bytes) => Input(Wrapping, c, bytes).s
    case FlushE => Flush(Wrapping, c).s
    case UpdateE(now) => Update(Wrapping, c, U32(now)).s
  }

  function Exec(c: State, evs: seq<Event>): State
    decreases |evs|
  {
    if evs == [] then c else Step(Exec(c, evs[..|evs| - 1]), evs[|evs| - 1])
  }

  // ---------------------------------------------------------------- the C-level invariants

  /** Distance of a 32-bit number from a 32-bit base. */
  function Off(x: nat, base: nat): nat { U32(x - base) }

  /** The send window: `snd_buf` is strictly sorted in [snd_una, snd_nxt), starts at
      `snd_una` (or is empty with `snd_una == snd_nxt`) and spans at most `snd_wnd`. */
  ghost predicate SendWindowOk(c: State) {
    var s := c.snd;
    var width := Off(s.nxt, s.una);
    && width <= c.cfg.sndWnd
    && (forall i :: 0 <= i < |s.buf| ==> Off(s.buf[i].seg.sn, s.una) < width)
    && (forall i, j :: 0 <= i < j < |s.buf| ==> Off(s.buf[i].seg.sn, s.una) < Off(s.buf[j].seg.sn, s.una))
    && (if s.buf == [] then s.una == s.nxt else s.una == s.buf[0].seg.sn)
  }

  /** The receive window: `rcv_buf` is strictly sorted in [rcv_nxt, rcv_nxt + rcv_wnd),
      both lists hold at most `rcv_wnd` segments, and draining was maximal. */
  ghost predicate RecvWindowOk(c: State) {
    var r := c.rcv;
    && |r.buf| <= c.cfg.rcvWnd && |r.queue| <= c.cfg.rcvWnd
    && (forall i :: 0 <= i < |r.buf| ==> Off(r.buf[i].sn, r.nxt) < c.cfg.rcvWnd)
    && (forall i, j :: 0 <= i < j < |r.buf| ==> Off(r.buf[i].sn, r.nxt) < Off(r.buf[j].sn, r.nxt))
    && (r.buf == [] || r.buf[0].sn != r.nxt || |r.queue| == c.cfg.rcvWnd)
  }

  /** Everything sent fits the wire. */
  ghost predicate Sendable(u: State) {
    && QueueOk(u.cfg, u.snd.queue)
    && (forall x :: x in u.snd.buf ==> FragOk(u.cfg, x.seg.Pay()))
    && u.ctl.current < TWO32
    && (forall a :: a in u.rcv.acks ==> a.ts < TWO32)
  }

  /** A state whose numbers are those of `c` before wrapping, far enough from zero that
      any 32-bit number has a counterpart below it. */
  ghost predicate Shadow(c: State, u: State) {
    && c == Wrap(u) && Ok(u) && Sendable(u)
    && u.snd.una >= TWO32 && u.rcv.nxt >= TWO32
  }

  /** What a datagram does to the numbers: `snd_nxt` stays, and `rcv_nxt` moves only with
      the receive queue. */
  ghost predicate Fed(u: State, v: State) {
    && u.cfg == v.cfg && u.snd.una <= v.snd.una && u.snd.nxt == v.snd.nxt
    && u.rcv.nxt <= v.rcv.nxt && u.rcv.nxt - |u.rcv.queue| == v.rcv.nxt - |v.rcv.queue|
  }

  /** What one event does to the numbers. */
  ghost predicate Forward(u: State, v: State) {
    && u.cfg == v.cfg && u.snd.una <= v.snd.una && u.snd.nxt <= v.snd.nxt
    && (u.snd.una == v.snd.una || u.snd.nxt == v.snd.nxt)
    && u.rcv.nxt <= v.rcv.nxt <= u.rcv.nxt + u.cfg.rcvWnd
  }

  lemma ShadowWindows(c: State, u: State)
    requires Shadow(c, u)
    ensures SendWindowOk(c) && RecvWindowOk(c)
  {
    SenderSpan(u.cfg, u.snd);
    OffIs(u.snd.nxt, u.snd.una);
    forall i | 0 <= i < |u.snd.buf| ensures Off(c.snd.buf[i].seg.sn, c.snd.una) == u.snd.buf[i].seg.sn - u.snd.una
      && u.snd.buf[i].seg.sn < u.snd.nxt {
      assert u.snd.buf[i] in u.snd.buf;
      OffIs(u.snd.buf[i].seg.sn, u.snd.una);
    }
    BufferFits(u.cfg.rcvWnd, u.rcv);
    forall i | 0 <= i < |u.rcv.buf| ensures Off(c.rcv.buf[i].sn, c.rcv.nxt) == u.rcv.buf[i].sn - u.rcv.nxt
      && u.rcv.buf[i].sn < u.rcv.nxt + u.cfg.rcvWnd {
      assert u.rcv.buf[i] in u.rcv.buf;
      OffIs(u.rcv.buf[i].sn, u.rcv.nxt);
    }
    if u.rcv.buf != [] {
      assert u.rcv.buf[0] in u.rcv.buf;
      WrapInjective(u.rcv.buf[0].sn, u.rcv.nxt);
    }
  }

  lemma OffIs(x: nat, base: nat)
    requires 0 <= x - base < TWO32
    ensures Off(U32(x), U32(base)) == x - base
  {
    SubWraps(x, base);
    U32Small(x - base);
  }

  // ---------------------------------------------------------------- arbitrary datagrams

  /** The number nearest to `base` that wraps to `raw`. */
  function Lift(raw: nat, base: int): int {
    base + Diff(raw, U32(base))
  }

  lemma LiftWraps(raw: nat, base: int)
    requires raw < TWO32
    ensures U32(Lift(raw, base)) == raw && -TWO31 <= Lift(raw, base) - base < TWO31
  {
    var d := raw - U32(base);
    var k := if U32(d) < TWO31 then d / TWO32 else d / TWO32 + 1;
    assert Diff(raw, U32(base)) == d - k * TWO32;
    assert Lift(raw, base) == raw + (base / TWO32 - k) * TWO32;
    U32Congruent(Lift(raw, base), raw, base / TWO32 - k);
    U32Small(raw);
  }

  /** The segment as the unbounded engine should see it. */
  function LiftSeg(u: State, g: Seg): Seg
    requires u.snd.una >= TWO32 && u.rcv.nxt >= TWO32
    requires g.una < TWO32 && g.sn < TWO32 && Ok(u)
  {
    LiftWraps(g.una, u.snd.una);
    var una := Lift(g.una, u.snd.una);
    InputAcksKeeps(u.cfg, u.snd, g.(una := una, cmd := CMD_WINS));
    LiftWraps(g.sn, UnaAfter(u.snd, una));
    LiftWraps(g.sn, u.rcv.nxt + u.cfg.rcvWnd);
    g.(una := una, sn := if g.cmd == CMD_ACK then Lift(g.sn, UnaAfter(u.snd, una))
                         else Lift(g.sn, u.rcv.nxt + u.cfg.rcvWnd))
  }

  lemma LiftSegIsClose(u: State, g: Seg)
    requires u.snd.una >= TWO32 && u.rcv.nxt >= TWO32 && Ok(u) && g.una < TWO32 && g.sn < TWO32
    ensures var h := LiftSeg(u, g);
            Close(u, h) && h.Wrap() == g && h.cmd == g.cmd && h.ts == g.ts && h.Pay() == g.Pay()
  {
    LiftWraps(g.una, u.snd.una);
    var una := Lift(g.una, u.snd.una);
    InputAcksKeeps(u.cfg, u.snd, g.(una := una, cmd := CMD_WINS));
    LiftWraps(g.sn, UnaAfter(u.snd, una));
    LiftWraps(g.sn, u.rcv.nxt + u.cfg.rcvWnd);
  }

  lemma InputSegSendable(u: State, g: Seg)
    requires Ok(u) && Sendable(u) && g.ts < TWO32
    ensures Sendable(InputSeg(Unbounded, u, g))
  {
    InputAcksKeeps(u.cfg, u.snd, g);
    InputPushKeeps(u.cfg.rcvWnd, u.rcv, g);
  }

  lemma {:induction false} InputSegsShadow(c: State, u: State, gs: seq<Seg>) returns (v: State)
    requires Shadow(c, u) && forall i :: 0 <= i < |gs| ==> gs[i].Fits()
    ensures Shadow(InputSegs(Wrapping, c, gs), v) && Fed(u, v)
    decreases |gs|
  {
    v := u;
    if gs != [] {
      var n := |gs| - 1;
      var w := InputSegsShadow(c, u, gs[..n]);
      LiftSegIsClose(w, gs[n]);
      var h := LiftSeg(w, gs[n]);
      InputSegWraps(w, h);
      InputSegKeeps(w, h);
      InputSegSendable(w, h);
      v := InputSeg(Unbounded, w, h);
    }
  }

  lemma FastAckSendable(u: State, sn: nat)
    requires Ok(u) && Sendable(u)
    ensures var v := u.(snd := ParseFastAck(Unbounded, u.snd, sn)); Ok(v) && Sendable(v)
  {
    ParseFastAckKeeps(u.cfg, u.snd, sn);
    var t := ParseFastAck(Unbounded, u.snd, sn);
    forall x | x in t.buf ensures FragOk(u.cfg, x.seg.Pay()) {
      var i :| 0 <= i < |t.buf| && t.buf[i] == x;
      assert u.snd.buf[i] in u.snd.buf;
    }
  }

  lemma InputEndShadow(c: State, u: State, una0: nat, m: Option<nat>) returns (v: State)
    requires Shadow(c, u) && una0 <= u.snd.una < una0 + 65536 && (m.Some? ==> m.value < TWO32)
    ensures Shadow(InputEnd(Wrapping, c, U32(una0), m), v) && Fed(u, v)
  {
    var k := if m.None? then None else Some(Lift(m.value, u.snd.una));
    if m.Some? {
      LiftWraps(m.value, u.snd.una);
      ParseFastAckKeeps(u.cfg, u.snd, Lift(m.value, u.snd.una));
      FastAckSendable(u, Lift(m.value, u.snd.una));
    }
    InputEndWraps(u, una0, k);
    v := InputEnd(Unbounded, u, una0, k);
    Safety.GrowCwndKeepsClock(u.cfg, u.ctl);
  }

  lemma {:induction false} MaxAckFits(gs: seq<Seg>)
    requires forall i :: 0 <= i < |gs| ==> gs[i].Fits()
    ensures MaxAck(Wrapping, gs).Some? ==> MaxAck(Wrapping, gs).value < TWO32
    decreases |gs|
  {
    if gs != [] { MaxAckFits(gs[..|gs| - 1]); }
  }

  lemma InputShadow(c: State, u: State, bytes: seq<byte>) returns (v: State)
    requires Shadow(c, u)
    ensures Shadow(Input(Wrapping, c, bytes).s, v) && Fed(u, v)
  {
    v := u;
    if |bytes| >= OVERHEAD {
      var p := DecodeAll(c.cfg.conv, bytes);
      v := InputSegsShadow(c, u, p.segs);
      if p.code >= 0 {
        SenderSpan(u.cfg, u.snd);
        SenderSpan(v.cfg, v.snd);
        MaxAckFits(p.segs);
        v := InputEndShadow(InputSegs(Wrapping, c, p.segs), v, u.snd.una, MaxAck(Wrapping, p.segs));
      }
    }
  }

  // ---------------------------------------------------------------- the other events

  lemma NumberedSendable(s: State, buf: seq<Unacked>, n: nat)
    requires Safety.Numbered(s, buf, n) && Sendable(s)
    ensures QueueOk(s.cfg, s.snd.queue[n..]) && forall x :: x in buf ==> FragOk(s.cfg, x.seg.Pay())
  {
    var k := |s.snd.buf|;
    forall x | x in buf ensures FragOk(s.cfg, x.seg.Pay()) {
      var i :| 0 <= i < |buf| && buf[i] == x;
      if i < k { assert s.snd.buf[i] in s.snd.buf; } else { assert s.snd.queue[i - k] in s.snd.queue; }
    }
  }

  lemma FlushShadow(c: State, u: State) returns (v: State)
    requires Shadow(c, u)
    ensures Shadow(Flush(Wrapping, c).s, v) && Forward(u, v)
  {
    FlushWraps(u);
    FlushKeeps(u);
    FlushKeepsSender(u);
    Safety.FlushNumbers(u);
    v := Flush(Unbounded, u).s;
    NumberedSendable(u, v.snd.buf, AdmitCount(u, FlushWindow(u)));
    FlushControlFrame(u, FlushSender(Unbounded, u));
  }

  lemma SendShadow(c: State, u: State, data: seq<byte>) returns (v: State)
    requires Shadow(c, u)
    ensures Shadow(c.(snd := c.snd.(queue := Send(c.cfg, c.snd.queue, data).queue)), v) && Forward(u, v)
  {
    hide Send;
    SendKeepsSizes(u.cfg, u.snd.queue, data);
    v := u.(snd := u.snd.(queue := Send(u.cfg, u.snd.queue, data).queue));
  }

  lemma RecvShadow(c: State, u: State, len: int) returns (v: State)
    requires Shadow(c, u)
    ensures Shadow(Recv(Wrapping, c, len).s, v) && Forward(u, v)
  {
    RecvWraps(u, len);
    RecvKeeps(u, len);
    v := Recv(Unbounded, u, len).s;
  }

  lemma FedForward(c: State, u: State, v: State)
    requires Shadow(c, v) && Fed(u, v)
    ensures Forward(u, v)
  {
    SenderSpan(v.cfg, v.snd);
  }

  lemma StepShadow(c: State, u: State, ev: Event) returns (v: State)
    requires Shadow(c, u)
    ensures Shadow(Step(c, ev), v) && Forward(u, v)
  {
    hide Shadow, Forward, Send, Recv, Input, Flush, Update;
    match ev
    case SendE(data) =>
      v := SendShadow(c, u, data);
    case RecvE(len) =>
      v := RecvShadow(c, u, len);
    case InputE(bytes) =>
      v := InputShadow(c, u, bytes);
      FedForward(Input(Wrapping, c, bytes).s, u, v);
    case FlushE =>
      v := FlushShadow(c, u);
    case UpdateE(now) =>
      v := UpdateShadow(c, u, U32(now));
  }

  lemma UpdateShadow(c: State, u: State, now: nat) returns (v: State)
    requires Shadow(c, u) && now < TWO32
    ensures Shadow(Update(Wrapping, c, now).s, v) && Forward(u, v)
  {
    hide Flush;
    var t := UpdateTick(u.cfg, u.ctl, now);
    assert t.ctl.current == now;
    hide UpdateTick;
    v := u.(ctl := t.ctl);
    ShadowClock(c, u, t.ctl);
    if t.due {
      hide Shadow, Forward;
      var w := v;
      v := FlushShadow(c.(ctl := t.ctl), w);
      ForwardClock(u, t.ctl, v);
    }
  }

  /** The windows are numbered without the clock. */
  lemma ShadowClock(c: State, u: State, ctl: Control)
    requires Shadow(c, u) && ctl.current < TWO32
    ensures Shadow(c.(ctl := ctl), u.(ctl := ctl)) && Forward(u, u.(ctl := ctl)) && c.ctl == u.ctl && c.cfg == u.cfg
  { }

  lemma ForwardClock(u: State, ctl: Control, v: State)
    requires Forward(u.(ctl := ctl), v)
    ensures Forward(u, v)
  { }

  lemma InitialShadow(cfg: Config) returns (u: State)
    ensures Shadow(Initial(cfg), u)
  {
    var i := Initial(cfg);
    u := i.(snd := i.snd.(una := TWO32, nxt := TWO32), rcv := i.rcv.(nxt := TWO32));
    assert WrapSender(u.snd) == i.snd;
    assert WrapReceiver(u.rcv) == i.rcv;
  }

  lemma {:induction false} RunShadow(cfg: Config, evs: seq<Event>) returns (u: State)
    ensures Shadow(Exec(Initial(cfg), evs), u)
    decreases |evs|
  {
    if evs == [] {
      u := InitialShadow(cfg);
    } else {
      var n := |evs| - 1;
      var w := RunShadow(cfg, evs[..n]);
      u := StepShadow(Exec(Initial(cfg), evs[..n]), w, evs[n]);
    }
  }

  // ---------------------------------------------------------------- theorems

  /** Over every interleaving of send, receive, input, flush and update, for arbitrary
      bytes on the input, both windows keep their shape. */
  lemma WindowsInvariant(cfg: Config, evs: seq<Event>)
    ensures var c := Exec(Initial(cfg), evs);
            SendWindowOk(c) && RecvWindowOk(c)
  {
    var u := RunShadow(cfg, evs);
    ShadowWindows(Exec(Initial(cfg), evs), u);
  }

  /** One event moves `snd_una`, `snd_nxt` and `rcv_nxt` forward only, each by at most its
      window, and `snd_una` not past `snd_nxt`. */
  ghost predicate Advances(c: State, d: State) {
    && Off(d.snd.una, c.snd.una) <= c.cfg.sndWnd && Off(d.snd.nxt, c.snd.nxt) <= c.cfg.sndWnd
    && Off(d.rcv.nxt, c.rcv.nxt) <= c.cfg.rcvWnd
    && Off(d.snd.una, c.snd.una) <= Off(d.snd.nxt, c.snd.una)
  }

  lemma ForwardAdvances(c: State, u: State, d: State, v: State)
    requires Shadow(c, u) && Shadow(d, v) && Forward(u, v)
    ensures Advances(c, d)
  {
    SenderSpan(u.cfg, u.snd);
    SenderSpan(v.cfg, v.snd);
    OffIs(v.snd.una, u.snd.una);
    OffIs(v.snd.nxt, u.snd.nxt);
    OffIs(v.snd.nxt, u.snd.una);
    OffIs(v.rcv.nxt, u.rcv.nxt);
  }

  lemma NumbersAreMonotone(cfg: Config, evs: seq<Event>, ev: Event)
    ensures var c := Exec(Initial(cfg), evs);
            Advances(c, Step(c, ev))
  {
    var u := RunShadow(cfg, evs);
    var c := Exec(Initial(cfg), evs);
    var v := StepShadow(c, u, ev);
    ForwardAdvances(c, u, Step(c, ev), v);
  }

  // ---------------------------------------------------------------- packing

  /** The numbering loop takes a prefix of the queue. */
  lemma {:induction false} AdmitSuffix(s: State, window: nat) returns (n: nat)
    ensures n <= |s.snd.queue| && Admit(Wrapping, s, window).queue == s.snd.queue[n..]
    decreases |s.snd.queue|
  {
    var t := s.snd;
    if Wrapping.Cmp(t.nxt, Wrapping.Plus(t.una, window)) < 0 && t.queue != [] {
      var k := AdmitSuffix(s.(snd := t.(queue := t.queue[1..], buf := t.buf + [Number(s, t.queue[0], t.nxt)],
                                        nxt := Wrapping.Plus(t.nxt, 1))), window);
      n := k + 1;
      assert t.queue[1..][k..] == t.queue[n..];
    } else {
      n := 0;
    }
  }

  lemma {:induction false} InputSegsQueue(s: State, gs: seq<Seg>)
    ensures InputSegs(Wrapping, s, gs).snd.queue == s.snd.queue && InputSegs(Wrapping, s, gs).cfg == s.cfg
    decreases |gs|
  {
    if gs != [] { InputSegsQueue(s, gs[..|gs| - 1]); }
  }

  lemma InputQueue(s: State, bytes: seq<byte>)
    ensures Input(Wrapping, s, bytes).s.snd.queue == s.snd.queue
  {
    hide InputSegs, DecodeAll, MaxAck, GrowCwnd;
    if |bytes| >= OVERHEAD { InputSegsQueue(s, DecodeAll(s.cfg.conv, bytes).segs); }
  }

  lemma FlushPacking(s: State)
    requires FullyPacked(s.cfg, s.snd.queue)
    ensures FullyPacked(s.cfg, Flush(Wrapping, s).s.snd.queue)
  {
    hide FlushControl, FlushSegs, Admit;
    var n := AdmitSuffix(s, FlushWindow(s));
  }

  /** In stream mode, whatever is sent, received and flushed in whatever order: all queued
      segments but the last are exactly full, and none is a fragment of a message. */
  lemma {:induction false} PackingInvariant(cfg: Config, evs: seq<Event>)
    requires cfg.stream
    ensures FullyPacked(cfg, Exec(Initial(cfg), evs).snd.queue)
    decreases |evs|
  {
    if evs != [] {
      var n := |evs| - 1;
      PackingInvariant(cfg, evs[..n]);
      ExecConfig(cfg, evs[..n]);
      StepPacking(Exec(Initial(cfg), evs[..n]), evs[n]);
    }
  }

  lemma StepPacking(c: State, ev: Event)
    requires c.cfg.stream && FullyPacked(c.cfg, c.snd.queue)
    ensures FullyPacked(c.cfg, Step(c, ev).snd.queue)
  {
    hide Flush, Input, FullyPacked, Drain, Merged, Engine.PeekSize;
    match ev
    case SendE(data) => SendKeepsPacking(c.cfg, c.snd.queue, data);
    case RecvE(len) =>
    case InputE(bytes) => InputQueue(c, bytes);
    case FlushE => FlushPacking(c);
    case UpdateE(now) =>
      var t := UpdateTick(c.cfg, c.ctl, U32(now));
      if t.due { FlushPacking(c.(ctl := t.ctl)); }
  }

  // ---------------------------------------------------------------- flush and parse

  lemma FlushSegsFit(c: State, u: State)
    requires Shadow(c, u)
    ensures var f := Flush(Wrapping, c);
            forall i :: 0 <= i < |f.segs| ==>
              f.segs[i].Fits() && f.segs[i].conv == c.cfg.conv && f.segs[i].Size() <= c.cfg.mtu
  {
    hide FlushSegs, FlushControl, FlushSender, Pack;
    FlushWraps(u);
    var f := Flush(Unbounded, u);
    Safety.FlushSegKinds(u);
    Safety.FlushNumbers(u);
    NumberedSendable(u, f.s.snd.buf, AdmitCount(u, FlushWindow(u)));
    forall i | 0 <= i < |f.segs|
      ensures f.segs[i].Wrap().Fits() && f.segs[i].conv == u.cfg.conv && f.segs[i].Size() <= u.cfg.mtu
    {
      assert f.segs[i] in f.segs;
      assert Safety.FlushSegKind(u, f.s.snd.buf, f.segs[i]);
      if Safety.IsDataSeg(u, f.s.snd.buf, f.segs[i]) { assert FragOk(u.cfg, f.segs[i].Pay()); }
    }
  }

  /** All segments found in a series of datagrams. */
  function ParseEach(conv: nat, ds: seq<seq<byte>>): seq<Seg> {
    if ds == [] then [] else DecodeAll(conv, ds[0]).segs + ParseEach(conv, ds[1..])
  }

  lemma {:induction false} ParseEachRoundTrip(conv: nat, ds: seq<seq<Seg>>)
    requires forall g :: g in Flatten(ds) ==> g.Fits() && g.conv == conv
    ensures ParseEach(conv, EncodeEach(ds)) == Flatten(ds)
  {
    if ds != [] {
      forall i | 0 <= i < |ds[0]| ensures ds[0][i].Fits() && ds[0][i].conv == conv {
        assert ds[0][i] in Flatten(ds);
      }
      DecodeAllRoundTrip(conv, ds[0]);
      assert EncodeEach(ds)[1..] == EncodeEach(ds[1..]);
      ParseEachRoundTrip(conv, ds[1..]);
    }
  }

  ghost predicate DueIn(p: Pass, buf: seq<Unacked>, g: Seg) {
    exists u :: u in buf && p.Why(u) != Hold && g == p.Touch(u).seg
  }

  ghost predicate Ordered(buf: seq<Unacked>, base: nat) {
    forall i, j :: 0 <= i < j < |buf| ==> Off(buf[i].seg.sn, base) < Off(buf[j].seg.sn, base)
  }

  ghost predicate OrderedSegs(gs: seq<Seg>, base: nat) {
    forall i, j :: 0 <= i < j < |gs| ==> Off(gs[i].sn, base) < Off(gs[j].sn, base)
  }

  lemma DueInSnoc(p: Pass, buf: seq<Unacked>, u: Unacked, g: Seg)
    ensures DueIn(p, buf + [u], g) <==> DueIn(p, buf, g) || (p.Why(u) != Hold && g == p.Touch(u).seg)
  {
    if p.Why(u) != Hold && g == p.Touch(u).seg { assert u in buf + [u]; }
    if DueIn(p, buf, g) {
      var v :| v in buf && p.Why(v) != Hold && g == p.Touch(v).seg;
      assert v in buf + [u];
    }
  }

  /** The segments transmitted are exactly the due ones, in sequence order. */
  lemma {:induction false} DueSegsExact(p: Pass, buf: seq<Unacked>, base: nat)
    requires Ordered(buf, base)
    ensures OrderedSegs(p.DueSegs(buf), base)
    ensures forall g :: g in p.DueSegs(buf) <==> DueIn(p, buf, g)
    decreases |buf|
  {
    if buf != [] {
      var n := |buf| - 1;
      DueSegsExact(p, buf[..n], base);
      assert buf == buf[..n] + [buf[n]];
      forall g ensures g in p.DueSegs(buf) <==> DueIn(p, buf, g) { DueInSnoc(p, buf[..n], buf[n], g); }
      var before := p.DueSegs(buf[..n]);
      forall i | 0 <= i < |before| ensures Off(before[i].sn, base) < Off(buf[n].seg.sn, base) {
        assert before[i] in before;
        var u :| u in buf[..n] && p.Why(u) != Hold && before[i] == p.Touch(u).seg;
      }
    }
  }

  /** A segment without payload that names the ack `a`, announces the free receive slots and
      acknowledges everything below `rcv_nxt`. */
  ghost predicate Plain(c: State, g: Seg, cmd: nat, a: Ack) {
    g == Seg(c.cfg.conv, cmd, 0, g.wnd, a.ts, a.sn, c.rcv.nxt, []) && g.wnd == c.cfg.rcvWnd - |c.rcv.queue|
  }

  /** A data segment as it leaves: its own number and payload, the present time, the free receive
      slots and `rcv_nxt`. */
  ghost predicate Carries(c: State, g: Seg, u: Unacked) {
    g == u.seg.(ts := c.ctl.current, wnd := g.wnd, una := c.rcv.nxt) && g.wnd == c.cfg.rcvWnd - |c.rcv.queue|
  }

  /** The peer's window is to be asked for: the probe timer of a closed window has run out. */
  predicate Asks(ctl: Control) {
    ctl.askSend || (ctl.rmtWnd == 0 && ctl.probeWait != 0 && Diff(ctl.current, ctl.tsProbe) >= 0)
  }

  /** The segments of a flush: the pending acks in arrival order, a question when the timer says
      so, an answer when one is owed, and the due data, in sequence order. */
  ghost predicate FlushSays(c: State, gs: seq<Seg>) {
    var n, buf := |c.rcv.acks|, FlushSender(Wrapping, c).buf;
    var k := n + if Asks(c.ctl) then 1 else 0;
    var l := k + if c.ctl.askTell then 1 else 0;
    var last := if n == 0 then Ack(0, 0) else c.rcv.acks[n - 1];
    && l <= |gs|
    && (forall i :: 0 <= i < n ==> Plain(c, gs[i], CMD_ACK, c.rcv.acks[i]))
    && (Asks(c.ctl) ==> Plain(c, gs[n], CMD_WASK, last))
    && (c.ctl.askTell ==> Plain(c, gs[k], CMD_WINS, last))
    && OrderedSegs(gs[l..], c.snd.una)
    && (forall g :: g in gs[l..] <==> exists u :: u in buf && FlushPass(c).Why(u) != Hold && Carries(c, g, u))
  }

  /** The flush/parse round trip, in every state an endpoint can reach: each datagram of a
      flush is at most mtu bytes, and the decode loop finds in them exactly the pending
      acks in arrival order, then the probe commands, then exactly the due segments, in
      strictly ascending sequence order from `snd_una`. */
  lemma FlushParse(cfg: Config, evs: seq<Event>)
    ensures var c := Exec(Initial(cfg), evs);
            var ds := EncodeEach(Flush(Wrapping, c).Datagrams());
            (forall i :: 0 <= i < |ds| ==> 0 < |ds[i]| <= cfg.mtu) && FlushSays(c, ParseEach(cfg.conv, ds))
  {
    hide Flush, FlushSegs, FlushSender, Shadow, ParseEach, EncodeEach, FlushSays;
    var u := RunShadow(cfg, evs);
    var c := Exec(Initial(cfg), evs);
    ExecConfig(cfg, evs);
    FlushParseAt(c, u);
    FlushOrdered(cfg, evs);
    WindowsInvariant(cfg, evs);
    FlushSaysAt(c);
  }

  lemma FlushSaysAt(c: State)
    requires Ordered(FlushSender(Wrapping, c).buf, c.snd.una) && |c.rcv.queue| <= c.cfg.rcvWnd
    ensures FlushSays(c, Flush(Wrapping, c).segs)
  {
    hide Flush, FlushSegs, FlushSender, Pass.DueSegs, Pass.Why, Ordered, OrderedSegs, Diff, DueIn, Carries, FlushPass;
    var buf := FlushSender(Wrapping, c).buf;
    var due := FlushPass(c).DueSegs(buf);
    FlushSegsAre(c);
    DueSegsExact(FlushPass(c), buf, c.snd.una);
    DueCarries(c, buf);
    var head := AckSegs(c) + ProbeSegs(c, ProbeTimer(c.ctl));
    assert (head + due)[|head|..] == due;
  }

  /** What the transmission loop makes of a segment it sends. */
  lemma DueCarries(c: State, buf: seq<Unacked>)
    requires |c.rcv.queue| <= c.cfg.rcvWnd
    ensures forall g :: DueIn(FlushPass(c), buf, g)
                   <==> exists u :: u in buf && FlushPass(c).Why(u) != Hold && Carries(c, g, u)
  {
    hide Pass.Why;
    var p := FlushPass(c);
    forall g, u | p.Why(u) != Hold ensures g == p.Touch(u).seg <==> Carries(c, g, u) { }
  }

  lemma FlushSegsAre(c: State)
    ensures Flush(Wrapping, c).segs
         == AckSegs(c) + ProbeSegs(c, ProbeTimer(c.ctl)) + FlushPass(c).DueSegs(FlushSender(Wrapping, c).buf)
  { }

  /** What a flush walks over is in sequence order: it is what the flush leaves, timers aside. */
  lemma FlushOrdered(cfg: Config, evs: seq<Event>)
    ensures var c := Exec(Initial(cfg), evs); Ordered(FlushSender(Wrapping, c).buf, c.snd.una)
  {
    hide Exec, Flush, FlushSender, Ordered;
    var c := Exec(Initial(cfg), evs);
    ExecFlush(cfg, evs);
    WindowsInvariant(cfg, evs + [FlushE]);
    OrderedAfter(c);
  }

  lemma ExecFlush(cfg: Config, evs: seq<Event>)
    ensures Exec(Initial(cfg), evs + [FlushE]) == Flush(Wrapping, Exec(Initial(cfg), evs)).s
  {
    hide Flush;
    assert (evs + [FlushE])[..|evs|] == evs;
  }

  /** Timers aside, a flush leaves the send buffer it walks over. */
  lemma OrderedAfter(c: State)
    requires SendWindowOk(Flush(Wrapping, c).s)
    ensures Ordered(FlushSender(Wrapping, c).buf, c.snd.una)
  {
    hide FlushControl, FlushSegs, FlushWindow, Off;
    AdmitUna(c, FlushWindow(c));
    var buf, after := FlushSender(Wrapping, c).buf, Flush(Wrapping, c).s.snd.buf;
    forall i | 0 <= i < |buf| ensures after[i].seg.sn == buf[i].seg.sn { }
  }

  lemma {:induction false} AdmitUna(s: State, window: nat)
    ensures Admit(Wrapping, s, window).una == s.snd.una
    decreases |s.snd.queue|
  {
    var t := s.snd;
    if Wrapping.Cmp(t.nxt, Wrapping.Plus(t.una, window)) < 0 && t.queue != [] {
      AdmitUna(s.(snd := t.(queue := t.queue[1..], buf := t.buf + [Number(s, t.queue[0], t.nxt)],
                            nxt := Wrapping.Plus(t.nxt, 1))), window);
    }
  }

  lemma FlushParseAt(c: State, u: State)
    requires Shadow(c, u)
    ensures var f := Flush(Wrapping, c);
            var ds := EncodeEach(f.Datagrams());
            (forall i :: 0 <= i < |ds| ==> 0 < |ds[i]| <= c.cfg.mtu) && ParseEach(c.cfg.conv, ds) == f.segs
  {
    var f := Flush(Wrapping, c);
    FlushSegsFit(c, u);
    PackProperties(c.cfg.mtu, f.segs);
    ParseEachRoundTrip(c.cfg.conv, f.Datagrams());
    forall i | 0 <= i < |f.Datagrams()| ensures 0 < |EncodeAll(f.Datagrams()[i])| <= c.cfg.mtu {
      EncodeAllSize(f.Datagrams()[i]);
    }
  }

  lemma {:induction false} ExecConfig(cfg: Config, evs: seq<Event>)
    ensures Exec(Initial(cfg), evs).cfg == cfg
    decreases |evs|
  {
    if evs != [] {
      var n := |evs| - 1;
      ExecConfig(cfg, evs[..n]);
      var u := RunShadow(cfg, evs[..n]);
      var v := StepShadow(Exec(Initial(cfg), evs[..n]), u, evs[n]);
    }
  }

  // ---------------------------------------------------------------- windows and timeouts

  /** The congestion window and the retransmission timeout are in order. */
  ghost predicate Tuned(c: State) {
    CwndOk(c.cfg, c.ctl) && c.cfg.minRto <= c.ctl.rto <= RTO_MAX
  }

  lemma InputControlTuned(cfg: Config, ctl: Control, g: Seg)
    requires CwndOk(cfg, ctl) && cfg.minRto <= ctl.rto <= RTO_MAX && g.Fits()
    ensures var d := InputControl(cfg, ctl, g);
            CwndOk(cfg, d) && cfg.minRto <= d.rto <= RTO_MAX
  {
    var c := ctl.(rmtWnd := g.wnd);
    assert CwndOk(cfg, c);
    RtoBounded(cfg, c, Diff(ctl.current, g.ts));
  }

  lemma {:induction false} InputSegsTuned(c: State, gs: seq<Seg>)
    requires Tuned(c) && forall i :: 0 <= i < |gs| ==> gs[i].Fits()
    ensures Tuned(InputSegs(Wrapping, c, gs)) && InputSegs(Wrapping, c, gs).cfg == c.cfg
    decreases |gs|
  {
    if gs != [] {
      var n := |gs| - 1;
      InputSegsTuned(c, gs[..n]);
      var d := InputSegs(Wrapping, c, gs[..n]);
      InputControlTuned(d.cfg, d.ctl, gs[n]);
    }
  }

  lemma InputTuned(c: State, bytes: seq<byte>)
    requires Tuned(c) && CwndFits(c.cfg)
    ensures Tuned(Input(Wrapping, c, bytes).s)
  {
    if |bytes| >= OVERHEAD {
      var p := DecodeAll(c.cfg.conv, bytes);
      InputSegsTuned(c, p.segs);
      var d := InputSegs(Wrapping, c, p.segs);
      GrowCwndKeeps(d.cfg, d.ctl);
    }
  }

  lemma ProbeTimerKeeps(cfg: Config, ctl: Control)
    ensures var t := ProbeTimer(ctl);
            CwndOk(cfg, ctl) == CwndOk(cfg, t) && t.rto == ctl.rto
  { }

  /** A flush keeps both, and leaves a window of at least one segment. */
  lemma FlushTuned(c: State)
    requires Tuned(c) && CwndFits(c.cfg)
    requires Off(FlushSender(Wrapping, c).nxt, FlushSender(Wrapping, c).una) <= c.cfg.sndWnd
    ensures Tuned(Flush(Wrapping, c).s) && Flush(Wrapping, c).s.ctl.cwnd >= 1
  {
    hide FlushSender, FlushControl, FlushWindow, CwndAfterFlush, ProbeTimer, Pass.CountWhy, Pass.Dies, CwndOk, CwndFits;
    ProbeTimerKeeps(c.cfg, c.ctl);
    var snd := FlushSender(Wrapping, c);
    var pass, ctl := FlushPass(c), ProbeTimer(c.ctl).(askSend := false, askTell := false);
    var lost, fast := pass.CountWhy(snd.buf, Timeout), pass.CountWhy(snd.buf, Fast);
    var counted := ctl.(xmit := U32(ctl.xmit + lost), dead := ctl.dead || pass.Dies(snd.buf));
    Loops.ControlOfFlush(c, snd);
    WindowAtMost(c);
    SameCwnd(c.cfg, ProbeTimer(c.ctl), counted);
    CwndAfterFlushKeeps(c.cfg, counted, fast > 0, lost > 0, U32(snd.nxt - snd.una), FlushWindow(c));
  }

  lemma WindowAtMost(c: State)
    ensures FlushWindow(c) <= c.cfg.sndWnd
  { }

  lemma SameCwnd(cfg: Config, ctl: Control, d: Control)
    requires d.cwnd == ctl.cwnd && d.incr == ctl.incr && d.rmtWnd == ctl.rmtWnd && d.ssthresh == ctl.ssthresh
    ensures CwndOk(cfg, d) == CwndOk(cfg, ctl)
  { }

  lemma FlushWidth(c: State, u: State)
    requires Shadow(c, u)
    ensures Off(FlushSender(Wrapping, c).nxt, FlushSender(Wrapping, c).una) <= c.cfg.sndWnd
  {
    AdmitWraps(u, FlushWindow(u));
    AdmitKeeps(u, FlushWindow(u));
    var t := FlushSender(Unbounded, u);
    SenderSpan(u.cfg, t);
    OffIs(t.nxt, t.una);
  }

  lemma StepTuned(c: State, u: State, ev: Event)
    requires Shadow(c, u) && Tuned(c) && CwndFits(c.cfg)
    ensures Tuned(Step(c, ev))
  {
    match ev
    case SendE(data) =>
    case RecvE(len) =>
    case InputE(bytes) => InputTuned(c, bytes);
    case FlushE =>
      FlushWidth(c, u);
      FlushTuned(c);
    case UpdateE(now) => UpdateTuned(c, u, U32(now));
  }

  lemma UpdateTuned(c: State, u: State, now: nat)
    requires Shadow(c, u) && now < TWO32 && Tuned(c) && CwndFits(c.cfg)
    ensures Tuned(Update(Wrapping, c, now).s)
  {
    hide Flush, Shadow;
    var t := UpdateTick(c.cfg, c.ctl, now);
    var c1, u1 := c.(ctl := t.ctl), u.(ctl := t.ctl);
    assert Tuned(c1) && t.ctl.current == now;
    hide Tuned, UpdateTick;
    if t.due {
      ShadowClock(c, u, t.ctl);
      FlushWidth(c1, u1);
      FlushTuned(c1);
    }
  }

  /** Over every interleaving, for arbitrary input: `incr` is `cwnd` in bytes, `cwnd` and
      `ssthresh` are in range, and the timeout lies between its two bounds. */
  lemma {:induction false} TuningInvariant(cfg: Config, evs: seq<Event>)
    requires CwndFits(cfg)
    ensures var c := Exec(Initial(cfg), evs);
            Tuned(c) && c.ctl.incr / cfg.Mss() == c.ctl.cwnd
    decreases |evs|
  {
    ExecConfig(cfg, evs);
    if evs != [] {
      var n := |evs| - 1;
      TuningInvariant(cfg, evs[..n]);
      ExecConfig(cfg, evs[..n]);
      var u := RunShadow(cfg, evs[..n]);
      StepTuned(Exec(Initial(cfg), evs[..n]), u, evs[n]);
    } else {
      assert 0 * cfg.Mss() == 0 && 1 * cfg.Mss() == cfg.Mss();
    }
    IncrIsCwnd(cfg, Exec(Initial(cfg), evs).ctl);
  }
}
