/** The wrap-around refinement: on 32-bit numbers the engine behaves exactly as on
    numbers that never wrap, as long as every compared pair is less than 2^31 apart. */
module Refinement {
  import opened Options
  import opened Serial
  import opened Wire
  import opened Engine
  import opened Window

  function WrapSegs(gs: seq<Seg>): (r: seq<Seg>)
    ensures |r| == |gs|
  {
    seq(|gs|, i requires 0 <= i < |gs| => gs[i].Wrap())
  }

  function WrapUnacked(buf: seq<Unacked>): (r: seq<Unacked>)
    ensures |r| == |buf|
  {
    seq(|buf|, i requires 0 <= i < |buf| => buf[i].Wrap())
  }

  function WrapAcks(acks: seq<Ack>): (r: seq<Ack>)
    ensures |r| == |acks|
  {
    seq(|acks|, i requires 0 <= i < |acks| => acks[i].Wrap())
  }

  function WrapSender(s: Sender): Sender {
    s.(una := U32(s.una), nxt := U32(s.nxt), buf := WrapUnacked(s.buf))
  }

  function WrapReceiver(r: Receiver): Receiver {
    Receiver(U32(r.nxt), WrapSegs(r.buf), WrapSegs(r.queue), WrapAcks(r.acks))
  }

  /** The state the C program holds when its sequence numbers would be those of `s`. */
  function Wrap(s: State): State {
    s.(snd := WrapSender(s.snd), rcv := WrapReceiver(s.rcv))
  }

  // ---------------------------------------------------------------- sender

  lemma {:induction false} DropUntilWraps(buf: seq<Unacked>, una: nat)
    requires SortedUnacked(buf)
    requires forall i :: 0 <= i < |buf| ==> buf[i].seg.sn - buf[0].seg.sn < 65536
    requires buf != [] ==> -TWO31 <= una - buf[0].seg.sn < TWO31
    ensures DropUntil(Wrapping, WrapUnacked(buf), U32(una)) == WrapUnacked(DropUntil(Unbounded, buf, una))
  {
    if buf != [] {
      CmpAgrees(una, buf[0].seg.sn);
      assert WrapUnacked(buf)[1..] == WrapUnacked(buf[1..]);
      if una > buf[0].seg.sn { DropUntilWraps(buf[1..], una); }
    }
  }

  lemma {:induction false} RemoveSnWraps(buf: seq<Unacked>, sn: nat)
    requires forall i :: 0 <= i < |buf| ==> -TWO31 <= sn - buf[i].seg.sn < TWO31
    ensures RemoveSn(Wrapping, WrapUnacked(buf), U32(sn)) == WrapUnacked(RemoveSn(Unbounded, buf, sn))
  {
    if buf != [] {
      CmpAgrees(sn, buf[0].seg.sn);
      WrapInjective(sn, buf[0].seg.sn);
      assert WrapUnacked(buf)[1..] == WrapUnacked(buf[1..]);
      RemoveSnWraps(buf[1..], sn);
      assert WrapUnacked([buf[0]] + RemoveSn(Unbounded, buf[1..], sn))
          == [buf[0].Wrap()] + WrapUnacked(RemoveSn(Unbounded, buf[1..], sn));
    }
  }

  lemma {:induction false} CountSkipsWraps(buf: seq<Unacked>, sn: nat)
    requires forall i :: 0 <= i < |buf| ==> -TWO31 <= sn - buf[i].seg.sn < TWO31
    ensures CountSkips(Wrapping, WrapUnacked(buf), U32(sn)) == WrapUnacked(CountSkips(Unbounded, buf, sn))
  {
    if buf != [] {
      CmpAgrees(sn, buf[0].seg.sn);
      WrapInjective(sn, buf[0].seg.sn);
      assert WrapUnacked(buf)[1..] == WrapUnacked(buf[1..]);
      CountSkipsWraps(buf[1..], sn);
      var h := if sn != buf[0].seg.sn then buf[0].(fastAck := U32(buf[0].fastAck + 1)) else buf[0];
      assert WrapUnacked([h] + CountSkips(Unbounded, buf[1..], sn))
          == [h.Wrap()] + WrapUnacked(CountSkips(Unbounded, buf[1..], sn));
    }
  }

  lemma ShrinkWraps(s: Sender)
    ensures Shrink(WrapSender(s)) == WrapSender(Shrink(s))
  { }

  lemma InFlightWraps(cfg: Config, s: Sender, sn: nat)
    requires SndOk(cfg, s) && -TWO31 <= sn - s.una < TWO31
    ensures InFlight(Wrapping, WrapSender(s), U32(sn)) == InFlight(Unbounded, s, sn)
  {
    SenderSpan(cfg, s);
    CmpAgrees(sn, s.una);
    if sn >= s.una { CmpAgrees(sn, s.nxt); }
  }

  /** Any two numbers of the send window are less than 2^16 apart. */
  lemma SenderSpan(cfg: Config, s: Sender)
    requires SndOk(cfg, s)
    ensures s.una <= s.nxt < s.una + 65536
    ensures forall i :: 0 <= i < |s.buf| ==> s.una <= s.buf[i].seg.sn < s.una + 65536
  {
    forall i | 0 <= i < |s.buf| ensures s.una <= s.buf[i].seg.sn < s.nxt {
      assert s.buf[i] in s.buf;
    }
    if s.buf != [] { assert s.buf[0] in s.buf; }
  }

  lemma ParseAckWraps(cfg: Config, s: Sender, sn: nat)
    requires SndOk(cfg, s) && -TWO31 <= sn - s.una < TWO31
    ensures ParseAck(Wrapping, WrapSender(s), U32(sn)) == WrapSender(ParseAck(Unbounded, s, sn))
  {
    InFlightWraps(cfg, s, sn);
    SenderSpan(cfg, s);
    if InFlight(Unbounded, s, sn) { RemoveSnWraps(s.buf, sn); }
  }

  lemma ParseFastAckWraps(cfg: Config, s: Sender, sn: nat)
    requires SndOk(cfg, s) && -TWO31 <= sn - s.una < TWO31
    ensures ParseFastAck(Wrapping, WrapSender(s), U32(sn)) == WrapSender(ParseFastAck(Unbounded, s, sn))
  {
    InFlightWraps(cfg, s, sn);
    SenderSpan(cfg, s);
    if InFlight(Unbounded, s, sn) { CountSkipsWraps(s.buf, sn); }
  }

  /** `snd_una` after the cumulative acknowledgement of a segment. */
  function UnaAfter(s: Sender, una: nat): nat {
    Shrink(ParseUna(Unbounded, s, una)).una
  }

  lemma InputAcksWraps(cfg: Config, s: Sender, g: Seg)
    requires SndOk(cfg, s) && -TWO31 <= g.una - s.una < TWO31
    requires g.cmd == CMD_ACK ==> -TWO31 <= g.sn - UnaAfter(s, g.una) < TWO31
    ensures InputAcks(Wrapping, WrapSender(s), g.Wrap()) == WrapSender(InputAcks(Unbounded, s, g))
  {
    SenderSpan(cfg, s);
    DropUntilWraps(s.buf, g.una);
    DropUntilContents(s.buf, g.una);
    ShrinkKeeps(cfg, ParseUna(Unbounded, s, g.una));
    ShrinkWraps(ParseUna(Unbounded, s, g.una));
    var s1 := Shrink(ParseUna(Unbounded, s, g.una));
    if g.cmd == CMD_ACK {
      ParseAckWraps(cfg, s1, g.sn);
      ShrinkWraps(ParseAck(Unbounded, s1, g.sn));
    }
  }

  // ---------------------------------------------------------------- receiver

  lemma {:induction false} InsertWraps(buf: seq<Seg>, g: Seg)
    requires forall i :: 0 <= i < |buf| ==> -TWO31 <= g.sn - buf[i].sn < TWO31
    ensures Insert(Wrapping, WrapSegs(buf), g.Wrap()) == WrapSegs(Insert(Unbounded, buf, g))
    decreases |buf|
  {
    if buf == [] {
      assert WrapSegs([g]) == [g.Wrap()];
    } else {
      var n := |buf| - 1;
      CmpAgrees(g.sn, buf[n].sn);
      WrapInjective(g.sn, buf[n].sn);
      if buf[n].sn == g.sn {
      } else if g.sn > buf[n].sn {
        WrapSegsSnoc(buf, g);
      } else {
        assert WrapSegs(buf)[..n] == WrapSegs(buf[..n]);
        InsertWraps(buf[..n], g);
        WrapSegsSnoc(Insert(Unbounded, buf[..n], g), buf[n]);
      }
    }
  }

  lemma WrapSegsSnoc(a: seq<Seg>, g: Seg)
    ensures WrapSegs(a + [g]) == WrapSegs(a) + [g.Wrap()]
  { }

  lemma WrapSegsConcat(a: seq<Seg>, b: seq<Seg>)
    ensures WrapSegs(a + b) == WrapSegs(a) + WrapSegs(b)
  { }

  lemma {:induction false} DrainWraps(wnd: nat, r: Receiver)
    requires wnd < 65536
    requires SortedSegs(r.buf) && forall i :: 0 <= i < |r.buf| ==> r.nxt <= r.buf[i].sn < r.nxt + 65536
    ensures Drain(Wrapping, wnd, WrapReceiver(r)) == WrapReceiver(Drain(Unbounded, wnd, r))
    decreases |r.buf|
  {
    if r.buf != [] {
      WrapInjective(r.buf[0].sn, r.nxt);
      if r.buf[0].sn == r.nxt && |r.queue| < wnd {
        var r1 := r.(nxt := r.nxt + 1, buf := r.buf[1..], queue := r.queue + [r.buf[0]]);
        PlusWraps(r.nxt, 1);
        assert WrapSegs(r.buf)[1..] == WrapSegs(r.buf[1..]);
        assert WrapSegs(r.queue + [r.buf[0]]) == WrapSegs(r.queue) + [r.buf[0].Wrap()];
        DrainWraps(wnd, r1);
      }
    }
  }

  /** A segment that is in the window enters the reorder buffer. */
  lemma AcceptWraps(wnd: nat, r: Receiver, g: Seg)
    requires RcvOk(wnd, r) && wnd < 65536 && r.nxt <= g.sn < r.nxt + wnd
    ensures Drain(Wrapping, wnd, WrapReceiver(r).(buf := Insert(Wrapping, WrapReceiver(r).buf, g.Wrap())))
         == WrapReceiver(Drain(Unbounded, wnd, r.(buf := Insert(Unbounded, r.buf, g))))
  {
    hide Drain, Insert;
    forall i | 0 <= i < |r.buf| ensures r.nxt <= r.buf[i].sn < r.nxt + wnd { assert r.buf[i] in r.buf; }
    InsertWraps(r.buf, g);
    InsertContents(r.buf, g);
    var r1 := r.(buf := Insert(Unbounded, r.buf, g));
    forall i | 0 <= i < |r1.buf| ensures r.nxt <= r1.buf[i].sn < r.nxt + wnd { assert r1.buf[i] in r1.buf; }
    DrainWraps(wnd, r1);
  }

  lemma ParseDataWraps(wnd: nat, r: Receiver, g: Seg)
    requires RcvOk(wnd, r) && wnd < 65536 && -TWO31 <= g.sn - (r.nxt + wnd) < TWO31
    ensures ParseData(Wrapping, wnd, WrapReceiver(r), g.Wrap()) == WrapReceiver(ParseData(Unbounded, wnd, r, g))
  {
    hide Drain, Insert, RcvOk;
    PlusWraps(r.nxt, wnd);
    CmpAgrees(g.sn, r.nxt + wnd);
    if g.sn < r.nxt + wnd {
      CmpAgrees(g.sn, r.nxt);
      if g.sn >= r.nxt { AcceptWraps(wnd, r, g); }
    }
  }

  lemma InputPushWraps(wnd: nat, r: Receiver, g: Seg)
    requires RcvOk(wnd, r) && wnd < 65536 && -TWO31 <= g.sn - (r.nxt + wnd) < TWO31
    ensures InputPush(Wrapping, wnd, WrapReceiver(r), g.Wrap()) == WrapReceiver(InputPush(Unbounded, wnd, r, g))
  {
    PlusWraps(r.nxt, wnd);
    CmpAgrees(g.sn, r.nxt + wnd);
    if g.sn < r.nxt + wnd {
      CmpAgrees(g.sn, r.nxt);
      var r1 := r.(acks := r.acks + [Ack(g.sn, g.ts)]);
      assert WrapAcks(r.acks + [Ack(g.sn, g.ts)]) == WrapAcks(r.acks) + [Ack(g.sn, g.ts).Wrap()];
      assert WrapReceiver(r1) == WrapReceiver(r).(acks := WrapReceiver(r).acks + [Ack(U32(g.sn), g.ts)]);
      ParseDataWraps(wnd, r1, g);
    }
  }

  lemma RecvWraps(s: State, len: int)
    requires RcvOk(s.cfg.rcvWnd, s.rcv)
    ensures var c := Recv(Wrapping, Wrap(s), len);
            var u := Recv(Unbounded, s, len);
            c.s == Wrap(u.s) && c.code == u.code && c.data == u.data
  {
    var q := s.rcv.queue;
    MergeWraps(q);
    if q != [] && PeekSize(q) >= 0 && PeekSize(q) <= (if len < 0 then -len else len) {
      var n := MergeCount(q);
      var q1 := if len < 0 then q else q[n..];
      assert WrapSegs(q)[n..] == WrapSegs(q[n..]);
      var r1 := s.rcv.(queue := q1);
      assert WrapReceiver(r1) == WrapReceiver(s.rcv).(queue := WrapSegs(q1));
      forall i | 0 <= i < |r1.buf| ensures r1.nxt <= r1.buf[i].sn < r1.nxt + 65536 { assert r1.buf[i] in r1.buf; }
      DrainWraps(s.cfg.rcvWnd, r1);
    }
  }

  lemma {:induction false} MergeCountWraps(q: seq<Seg>)
    ensures MergeCount(WrapSegs(q)) == MergeCount(q)
  {
    if q != [] {
      assert WrapSegs(q)[1..] == WrapSegs(q[1..]);
      MergeCountWraps(q[1..]);
    }
  }

  lemma {:induction false} PeekSumWraps(q: seq<Seg>)
    ensures PeekSum(WrapSegs(q)) == PeekSum(q)
  {
    if q != [] {
      assert WrapSegs(q)[1..] == WrapSegs(q[1..]);
      PeekSumWraps(q[1..]);
    }
  }

  lemma MergeWraps(q: seq<Seg>)
    ensures MergeCount(WrapSegs(q)) == MergeCount(q) && Merged(WrapSegs(q)) == Merged(q)
    ensures PeekSize(WrapSegs(q)) == PeekSize(q)
  {
    MergeCountWraps(q);
    PeekSumWraps(q);
    var n := MergeCount(q);
    assert Payloads(WrapSegs(q)[..n]) == Payloads(q[..n]);
  }

  // ---------------------------------------------------------------- input

  ghost predicate Ok(s: State) {
    SndOk(s.cfg, s.snd) && RcvOk(s.cfg.rcvWnd, s.rcv)
  }

  /** The numbers of a segment are close enough to the state for serial comparison. */
  ghost predicate Close(s: State, g: Seg) {
    && -TWO31 <= g.una - s.snd.una < TWO31
    && (g.cmd == CMD_ACK ==> -TWO31 <= g.sn - UnaAfter(s.snd, g.una) < TWO31)
    && (g.cmd == CMD_PUSH ==> -TWO31 <= g.sn - (s.rcv.nxt + s.cfg.rcvWnd) < TWO31)
  }

  lemma InputSegKeeps(s: State, g: Seg)
    requires Ok(s)
    ensures var t := InputSeg(Unbounded, s, g);
            && Ok(t) && s.snd.una <= t.snd.una && t.snd.nxt == s.snd.nxt && s.rcv.nxt <= t.rcv.nxt
            && t.rcv.nxt - |t.rcv.queue| == s.rcv.nxt - |s.rcv.queue|
  {
    InputAcksKeeps(s.cfg, s.snd, g);
    InputPushKeeps(s.cfg.rcvWnd, s.rcv, g);
  }

  /** One segment: the 32-bit engine and the unbounded one stay in step. */
  lemma InputSegWraps(s: State, g: Seg)
    requires Ok(s) && Close(s, g)
    ensures InputSeg(Wrapping, Wrap(s), g.Wrap()) == Wrap(InputSeg(Unbounded, s, g))
  {
    InputAcksWraps(s.cfg, s.snd, g);
    if g.cmd == CMD_PUSH { InputPushWraps(s.cfg.rcvWnd, s.rcv, g); }
  }

  /** The staleness bound of a whole datagram, in terms of the state it meets: no
      acknowledged number is 2^31 or more below `snd_nxt`, none is above it, and no data
      number is 2^31 or more away from the receive window. */
  ghost predicate Timely(s: State, g: Seg) {
    && s.snd.nxt - TWO31 <= g.una <= s.snd.nxt
    && (g.cmd == CMD_ACK ==> s.snd.nxt - TWO31 <= g.sn < s.snd.nxt)
    && (g.cmd == CMD_PUSH ==>
          var base := s.rcv.nxt - |s.rcv.queue|;
          base + 2 * s.cfg.rcvWnd - TWO31 <= g.sn < base + TWO31)
  }

  ghost predicate AllTimely(s: State, gs: seq<Seg>) {
    forall i :: 0 <= i < |gs| ==> Timely(s, gs[i])
  }

  lemma TimelyIsClose(s: State, g: Seg)
    requires Ok(s) && Timely(s, g)
    ensures Close(s, g)
  {
    SenderSpan(s.cfg, s.snd);
    InputAcksKeeps(s.cfg, s.snd, g.(cmd := CMD_WINS));
    assert InputAcks(Unbounded, s.snd, g.(cmd := CMD_WINS)) == Shrink(ParseUna(Unbounded, s.snd, g.una));
    SenderSpan(s.cfg, Shrink(ParseUna(Unbounded, s.snd, g.una)));
  }

  lemma {:induction false} InputSegsKeep(s: State, gs: seq<Seg>)
    requires Ok(s)
    ensures var t := InputSegs(Unbounded, s, gs);
            && Ok(t) && s.snd.una <= t.snd.una && t.snd.nxt == s.snd.nxt && s.rcv.nxt <= t.rcv.nxt
            && t.rcv.nxt - |t.rcv.queue| == s.rcv.nxt - |s.rcv.queue| && t.cfg == s.cfg
    decreases |gs|
  {
    if gs != [] {
      var n := |gs| - 1;
      InputSegsKeep(s, gs[..n]);
      InputSegKeeps(InputSegs(Unbounded, s, gs[..n]), gs[n]);
    }
  }

  lemma {:induction false} InputSegsWrap(s: State, gs: seq<Seg>)
    requires Ok(s) && AllTimely(s, gs)
    ensures InputSegs(Wrapping, Wrap(s), WrapSegs(gs)) == Wrap(InputSegs(Unbounded, s, gs))
    decreases |gs|
  {
    if gs != [] {
      var n := |gs| - 1;
      InputSegsKeep(s, gs[..n]);
      InputSegsWrap(s, gs[..n]);
      assert WrapSegs(gs)[..n] == WrapSegs(gs[..n]);
      var t := InputSegs(Unbounded, s, gs[..n]);
      assert Timely(t, gs[n]);
      TimelyIsClose(t, gs[n]);
      InputSegWraps(t, gs[n]);
    }
  }

  lemma {:induction false} MaxAckWraps(lo: int, gs: seq<Seg>)
    requires forall i :: 0 <= i < |gs| && gs[i].cmd == CMD_ACK ==> lo <= gs[i].sn < lo + TWO31
    ensures var m := MaxAck(Unbounded, gs);
            && MaxAck(Wrapping, WrapSegs(gs)) == (if m.None? then None else Some(U32(m.value)))
            && (m.Some? ==> lo <= m.value < lo + TWO31)
    decreases |gs|
  {
    if gs != [] {
      var n := |gs| - 1;
      MaxAckWraps(lo, gs[..n]);
      assert WrapSegs(gs)[..n] == WrapSegs(gs[..n]);
      var m := MaxAck(Unbounded, gs[..n]);
      if m.Some? && gs[n].cmd == CMD_ACK { CmpAgrees(gs[n].sn, m.value); }
    }
  }

  lemma InputEndWraps(s: State, una0: nat, m: Option<nat>)
    requires Ok(s) && s.snd.una - TWO31 <= una0 <= s.snd.una
    requires s.snd.una - una0 < TWO31
    requires m.Some? ==> -TWO31 <= m.value - s.snd.una < TWO31
    ensures InputEnd(Wrapping, Wrap(s), U32(una0), if m.None? then None else Some(U32(m.value)))
         == Wrap(InputEnd(Unbounded, s, una0, m))
  {
    CmpAgrees(s.snd.una, una0);
    if m.Some? { ParseFastAckWraps(s.cfg, s.snd, m.value); }
  }

  /** A whole datagram: `ikcp_input` on 32-bit numbers does what it would do on
      unbounded ones. */
  lemma InputWraps(s: State, p: Parsed)
    requires Ok(s) && AllTimely(s, p.segs)
    ensures InputParsed(Wrapping, Wrap(s), Parsed(WrapSegs(p.segs), p.code)) == Wrap(InputParsed(Unbounded, s, p))
  {
    InputSegsWrap(s, p.segs);
    InputSegsKeep(s, p.segs);
    var t := InputSegs(Unbounded, s, p.segs);
    SenderSpan(s.cfg, s.snd);
    SenderSpan(t.cfg, t.snd);
    MaxAckWraps(s.snd.nxt - TWO31, p.segs);
    if p.code >= 0 { InputEndWraps(t, s.snd.una, MaxAck(Unbounded, p.segs)); }
  }

  lemma InputParsedKeeps(s: State, p: Parsed)
    requires Ok(s)
    ensures var t := InputParsed(Unbounded, s, p);
            && Ok(t) && s.snd.una <= t.snd.una && t.snd.nxt == s.snd.nxt && s.rcv.nxt <= t.rcv.nxt && t.cfg == s.cfg
  {
    InputSegsKeep(s, p.segs);
    var t := InputSegs(Unbounded, s, p.segs);
    var m := MaxAck(Unbounded, p.segs);
    if m.Some? { ParseFastAckKeeps(t.cfg, t.snd, m.value); }
  }

  // ---------------------------------------------------------------- flush

  lemma {:induction false} AdmitWraps(s: State, window: nat)
    requires SndOk(s.cfg, s.snd) && window <= s.cfg.sndWnd
    ensures Admit(Wrapping, Wrap(s), window) == WrapSender(Admit(Unbounded, s, window))
    decreases |s.snd.queue|
  {
    var t := s.snd;
    SenderSpan(s.cfg, t);
    PlusWraps(t.una, window);
    CmpAgrees(t.nxt, t.una + window);
    PlusWraps(t.nxt, 1);
    if t.nxt < t.una + window && t.queue != [] {
      var u := Number(s, t.queue[0], t.nxt);
      var s1 := s.(snd := t.(queue := t.queue[1..], buf := t.buf + [u], nxt := t.nxt + 1));
      assert WrapUnacked(t.buf + [u]) == WrapUnacked(t.buf) + [u.Wrap()];
      assert Number(Wrap(s), t.queue[0], U32(t.nxt)) == u.Wrap();
      NumberedKeeps(s);
      AdmitWraps(s1, window);
    }
  }

  lemma TouchWraps(p: Pass, q: Pass, u: Unacked)
    requires q == p.(una := U32(p.una))
    ensures q.Why(u.Wrap()) == p.Why(u) && q.Touch(u.Wrap()) == p.Touch(u).Wrap()
  { }

  lemma TouchAllWraps(p: Pass, q: Pass, buf: seq<Unacked>)
    requires q == p.(una := U32(p.una))
    ensures q.TouchAll(WrapUnacked(buf)) == WrapUnacked(p.TouchAll(buf))
    ensures q.Dies(WrapUnacked(buf)) == p.Dies(buf)
  {
    forall i | 0 <= i < |buf|
      ensures q.Why(WrapUnacked(buf)[i]) == p.Why(buf[i])
      ensures q.Touch(WrapUnacked(buf)[i]) == p.Touch(buf[i]).Wrap()
    {
      TouchWraps(p, q, buf[i]);
    }
  }

  lemma {:induction false} CountWhyWraps(p: Pass, q: Pass, buf: seq<Unacked>, why: Reason)
    requires q == p.(una := U32(p.una))
    ensures q.CountWhy(WrapUnacked(buf), why) == p.CountWhy(buf, why)
    decreases |buf|
  {
    if buf != [] {
      var n := |buf| - 1;
      TouchWraps(p, q, buf[n]);
      CountWhyWraps(p, q, buf[..n], why);
      assert WrapUnacked(buf)[..n] == WrapUnacked(buf[..n]);
    }
  }

  lemma {:induction false} DueSegsWrap(p: Pass, q: Pass, buf: seq<Unacked>)
    requires q == p.(una := U32(p.una))
    ensures q.DueSegs(WrapUnacked(buf)) == WrapSegs(p.DueSegs(buf))
    decreases |buf|
  {
    if buf != [] {
      var n := |buf| - 1;
      TouchWraps(p, q, buf[n]);
      DueSegsWrap(p, q, buf[..n]);
      assert WrapUnacked(buf)[..n] == WrapUnacked(buf[..n]);
      WrapSegsConcat(p.DueSegs(buf[..n]), if p.Why(buf[n]) == Hold then [] else [p.Touch(buf[n]).seg]);
    }
  }

  lemma FlushSegsWrap(s: State, snd: Sender)
    ensures FlushSegs(Wrap(s), WrapSender(snd)) == WrapSegs(FlushSegs(s, snd))
  {
    hide AckSegs, ProbeSegs, ProbeTimer, Pass.DueSegs, WrapSegs;
    var ctl := ProbeTimer(s.ctl);
    var p := FlushPass(s);
    DueSegsWrap(p, FlushPass(Wrap(s)), snd.buf);
    AckSegsWrap(s);
    ProbeSegsWrap(s, ctl);
    WrapSegsConcat(AckSegs(s), ProbeSegs(s, ctl));
    WrapSegsConcat(AckSegs(s) + ProbeSegs(s, ctl), p.DueSegs(snd.buf));
  }

  lemma AckSegsWrap(s: State)
    ensures AckSegs(Wrap(s)) == WrapSegs(AckSegs(s))
  { }

  lemma ProbeSegsWrap(s: State, ctl: Control)
    ensures ProbeSegs(Wrap(s), ctl) == WrapSegs(ProbeSegs(s, ctl))
  {
    U32Zero();
  }

  lemma FlushControlWraps(s: State, snd: Sender)
    ensures FlushControl(Wrap(s), WrapSender(snd)) == FlushControl(s, snd)
  {
    var p, q := FlushPass(s), FlushPass(Wrap(s));
    TouchAllWraps(p, q, snd.buf);
    CountWhyWraps(p, q, snd.buf, Timeout);
    CountWhyWraps(p, q, snd.buf, Fast);
    SubWraps(snd.nxt, snd.una);
  }

  /** A flush on 32-bit numbers emits the wrapped segments and leaves the wrapped state. */
  lemma FlushWraps(s: State)
    requires Ok(s)
    ensures var c := Flush(Wrapping, Wrap(s));
            var u := Flush(Unbounded, s);
            c.s == Wrap(u.s) && c.segs == WrapSegs(u.segs)
  {
    AdmitWraps(s, FlushWindow(s));
    var snd := FlushSender(Unbounded, s);
    TouchAllWraps(FlushPass(s), FlushPass(Wrap(s)), snd.buf);
    FlushControlWraps(s, snd);
    FlushSegsWrap(s, snd);
    assert WrapAcks([]) == [];
  }

  lemma U32Zero()
    ensures U32(0) == 0
  { }

  lemma FlushKeeps(s: State)
    requires Ok(s)
    ensures var t := Flush(Unbounded, s).s;
            && Ok(t) && t.snd.una == s.snd.una && s.snd.nxt <= t.snd.nxt && t.cfg == s.cfg
            && t.rcv == s.rcv.(acks := [])
  {
    FlushKeepsSender(s);
  }

  lemma UpdateWraps(s: State, now: nat)
    requires Ok(s)
    ensures var c := Update(Wrapping, Wrap(s), now);
            var u := Update(Unbounded, s, now);
            c.s == Wrap(u.s) && c.segs == WrapSegs(u.segs)
  {
    var t := UpdateTick(s.cfg, s.ctl, now);
    if t.due { FlushWraps(s.(ctl := t.ctl)); } else { assert WrapSegs([]) == []; }
  }

  // ---------------------------------------------------------------- datagrams

  function WrapAll(ds: seq<seq<Seg>>): (r: seq<seq<Seg>>)
    ensures |r| == |ds|
  {
    seq(|ds|, i requires 0 <= i < |ds| => WrapSegs(ds[i]))
  }

  lemma {:induction false} TotalSizeWraps(gs: seq<Seg>)
    ensures TotalSize(WrapSegs(gs)) == TotalSize(gs)
  {
    if gs != [] {
      assert WrapSegs(gs)[1..] == WrapSegs(gs[1..]);
      TotalSizeWraps(gs[1..]);
    }
  }

  lemma WrapAllSnoc(ds: seq<seq<Seg>>, d: seq<Seg>)
    ensures WrapAll(ds + [d]) == WrapAll(ds) + [WrapSegs(d)]
  { }

  function WrapPacking(p: Packing): Packing { Packing(WrapAll(p.done), WrapSegs(p.cur)) }

  lemma CloseWraps(p: Packing)
    ensures WrapPacking(p).Close() == WrapAll(p.Close())
  {
    WrapAllSnoc(p.done, p.cur);
  }

  lemma {:induction false} PutAllWraps(mtu: nat, gs: seq<Seg>)
    ensures Packing([], []).PutAll(mtu, WrapSegs(gs)) == WrapPacking(Packing([], []).PutAll(mtu, gs))
    decreases |gs|
  {
    if gs != [] {
      var n := |gs| - 1;
      PutAllWraps(mtu, gs[..n]);
      assert WrapSegs(gs)[..n] == WrapSegs(gs[..n]);
      var p := Packing([], []).PutAll(mtu, gs[..n]);
      TotalSizeWraps(p.cur);
      CloseWraps(p);
      WrapSegsSnoc(p.cur, gs[n]);
      assert WrapSegs([gs[n]]) == [gs[n].Wrap()];
    }
  }

  /** Wrapping sequence numbers does not change how segments are packed. */
  lemma PackWraps(mtu: nat, gs: seq<Seg>)
    ensures Pack(mtu, WrapSegs(gs)) == WrapAll(Pack(mtu, gs))
  {
    PutAllWraps(mtu, gs);
    CloseWraps(Packing([], []).PutAll(mtu, gs));
  }
}
