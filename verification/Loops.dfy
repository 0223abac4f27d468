/** Where the loops of the engine stand: for each loop of the C code, what holds of the
    sequences it walks over after some of its turns, and what one more turn does. Used by
    the methods of `Kcp` and, on linked lists, of `IQueue`. */
module Loops {
  import opened Options
  import opened Serial
  import opened Wire
  import opened Engine

  /** One overdue segment settles `ikcp_check`. */
  lemma {:induction false} DueAtOnce(buf: seq<Unacked>, i: nat, now: nat)
    requires i < |buf| && Diff(buf[i].resendTs, now) <= 0
    ensures NearestResend(buf, now).None?
    decreases |buf|
  {
    if i < |buf| - 1 { DueAtOnce(buf[..|buf| - 1], i, now); }
  }

  function Probes(seg: Seg, wask: bool, wins: bool): seq<Seg> {
    (if wask then [seg.(cmd := CMD_WASK)] else []) + (if wins then [seg.(cmd := CMD_WINS)] else [])
  }

  lemma ShortAt(cfg: Config, buf: seq<Unacked>, i: nat)
    requires Short(cfg, buf) && i < |buf|
    ensures |buf[i].seg.data| <= cfg.Mss()
  {
    assert buf[i] in buf;
  }

  lemma TouchAllShort(cfg: Config, pass: Pass, buf: seq<Unacked>)
    requires Short(cfg, buf)
    ensures Short(cfg, pass.TouchAll(buf))
  {
    forall u | u in pass.TouchAll(buf) ensures |u.seg.data| <= cfg.Mss() {
      var i :| 0 <= i < |buf| && u == pass.Touch(buf[i]);
      ShortAt(cfg, buf, i);
    }
  }

  /** What the transmission loop changes. */
  datatype Turn = Turn(buf: seq<Unacked>, segs: seq<Seg>, xmit: nat, dead: bool, lost: bool, change: nat) {
    ghost function After(pass: Pass, i: nat): Turn
      requires i < |buf|
    {
      var u, why := pass.Touch(buf[i]), pass.Why(buf[i]);
      Turn(buf[i := u], if why == Hold then segs else segs + [u.seg],
           if why == Timeout then U32(xmit + 1) else xmit,
           dead || (why != Hold && u.xmit >= pass.cfg.deadLink),
           lost || why == Timeout, if why == Fast then change + 1 else change)
    }
  }

  /** The loop has handled the first `i` segments. */
  ghost predicate Turned(pass: Pass, start: Turn, t: Turn, i: nat) {
    && i <= |start.buf|
    && var done := start.buf[..i];
    && t.buf == pass.TouchAll(done) + start.buf[i..] && t.segs == start.segs + pass.DueSegs(done)
    && t.xmit == U32(start.xmit + pass.CountWhy(done, Timeout)) && t.dead == (start.dead || pass.Dies(done))
    && t.lost == (pass.CountWhy(done, Timeout) > 0) && t.change == pass.CountWhy(done, Fast)
  }

  lemma FirstTurn(pass: Pass, t: Turn)
    requires t.xmit < TWO32 && !t.lost && t.change == 0
    ensures Turned(pass, t, t, 0)
  {
    U32Small(t.xmit);
    assert pass.TouchAll(t.buf[..0]) + t.buf[0..] == t.buf && t.segs + [] == t.segs;
  }

  lemma NextTurn(pass: Pass, start: Turn, t: Turn, i: nat)
    requires Turned(pass, start, t, i) && i < |start.buf|
    ensures |t.buf| == |t.After(pass, i).buf| == |start.buf| && t.buf[i] == start.buf[i]
            && Turned(pass, start, t.After(pass, i), i + 1)
  {
    hide Pass.Touch, Pass.Why, U32;
    var buf, t' := start.buf, t.After(pass, i);
    assert buf[..i + 1][..i] == buf[..i];
    assert t'.buf == pass.TouchAll(buf[..i + 1]) + buf[i + 1..];
    assert start.segs + pass.DueSegs(buf[..i]) + [pass.Touch(buf[i]).seg]
        == start.segs + (pass.DueSegs(buf[..i]) + [pass.Touch(buf[i]).seg]);
    assert start.segs + (pass.DueSegs(buf[..i]) + []) == start.segs + pass.DueSegs(buf[..i]);
    PlusWraps(start.xmit + pass.CountWhy(buf[..i], Timeout), 1);
    DiesStep(pass, buf, i);
  }

  lemma LastTurn(pass: Pass, start: Turn, t: Turn)
    requires Turned(pass, start, t, |start.buf|)
    ensures var buf := start.buf;
            && t.buf == pass.TouchAll(buf) && t.segs == start.segs + pass.DueSegs(buf)
            && t.xmit == U32(start.xmit + pass.CountWhy(buf, Timeout)) && t.dead == (start.dead || pass.Dies(buf))
            && t.lost == (pass.CountWhy(buf, Timeout) > 0) && t.change == pass.CountWhy(buf, Fast)
  {
    assert start.buf[..|start.buf|] == start.buf;
  }

  lemma DiesStep(pass: Pass, buf: seq<Unacked>, i: nat)
    requires i < |buf|
    ensures pass.Dies(buf[..i + 1]) ==
            (pass.Dies(buf[..i]) || (pass.Why(buf[i]) != Hold && pass.Touch(buf[i]).xmit >= pass.cfg.deadLink))
  {
    var a, b := buf[..i], buf[..i + 1];
    assert forall k :: 0 <= k < i ==> a[k] == b[k];
    assert b[i] == buf[i];
  }

  /** What the template header holds after the acknowledgement loop. */
  ghost function LastAck(acks: seq<Ack>): Ack {
    if acks == [] then Ack(0, 0) else acks[|acks| - 1]
  }

  lemma AckSegAt(s: State, i: nat)
    requires i < |s.rcv.acks|
    ensures AckSegs(s)[..i + 1] == AckSegs(s)[..i] + [Header(s, CMD_ACK, s.rcv.acks[i].sn, s.rcv.acks[i].ts)]
  { }

  lemma PutAllMore(mtu: nat, gs: seq<Seg>, g: Seg)
    ensures Packing([], []).PutAll(mtu, gs + [g]) == Packing([], []).PutAll(mtu, gs).Put(mtu, g)
  {
    assert (gs + [g])[..|gs|] == gs;
  }

  lemma EncodeOneMore(gs: seq<Seg>, g: Seg)
    ensures EncodeAll(gs + [g]) == EncodeAll(gs) + EncodeHeader(g) + g.data
  {
    EncodeAllConcat(gs, [g]);
    assert EncodeAll([g]) == EncodeHeader(g) + g.data;
  }

  /** No numbered segment is too long for a datagram. */
  ghost predicate Short(cfg: Config, buf: seq<Unacked>) {
    forall u :: u in buf ==> |u.seg.data| <= cfg.Mss()
  }

  /** Where the loop of `ikcp_parse_ack` stands: the first `i` segments stay. */
  ghost predicate PassedAck(buf: seq<Unacked>, i: nat, sn: nat) {
    i <= |buf| && RemoveSn(Wrapping, buf, sn) == buf[..i] + RemoveSn(Wrapping, buf[i..], sn)
  }

  lemma PassAck(buf: seq<Unacked>, i: nat, sn: nat)
    requires PassedAck(buf, i, sn) && i < |buf| && sn != buf[i].seg.sn && Diff(sn, buf[i].seg.sn) >= 0
    ensures PassedAck(buf, i + 1, sn)
  {
    assert buf[i..][1..] == buf[i + 1..] && buf[..i] + [buf[i]] == buf[..i + 1];
  }

  lemma StopAtAck(buf: seq<Unacked>, i: nat, sn: nat)
    requires PassedAck(buf, i, sn) && (i == |buf| || sn == buf[i].seg.sn || Diff(sn, buf[i].seg.sn) < 0)
    ensures RemoveSn(Wrapping, buf, sn) == if i < |buf| && sn == buf[i].seg.sn then buf[..i] + buf[i + 1..] else buf
  {
    assert buf[..i] + buf[i..] == buf;
    if i < |buf| { assert buf[i..][1..] == buf[i + 1..]; }
  }

  lemma {:induction false} RemoveSnShort(cfg: Config, buf: seq<Unacked>, sn: nat)
    requires Short(cfg, buf)
    ensures Short(cfg, RemoveSn(Wrapping, buf, sn))
  {
    if buf != [] {
      assert buf[0] in buf;
      assert forall u :: u in buf[1..] ==> u in buf;
      RemoveSnShort(cfg, buf[1..], sn);
    }
  }

  lemma {:induction false} CountSkipsShort(cfg: Config, buf: seq<Unacked>, sn: nat)
    requires Short(cfg, buf)
    ensures Short(cfg, CountSkips(Wrapping, buf, sn))
  {
    if buf != [] {
      assert buf[0] in buf;
      assert forall u :: u in buf[1..] ==> u in buf;
      CountSkipsShort(cfg, buf[1..], sn);
    }
  }

  /** Where the loop of `ikcp_parse_fastack` stands: the first `i` segments are counted. */
  ghost predicate Skipped(buf: seq<Unacked>, now: seq<Unacked>, i: nat, sn: nat) {
    var out := CountSkips(Wrapping, buf, sn);
    && i <= |buf| && now == out[..i] + buf[i..]
    && out[i..] == CountSkips(Wrapping, buf[i..], sn)
  }

  lemma SkipStart(buf: seq<Unacked>, sn: nat)
    ensures Skipped(buf, buf, 0, sn)
  {
    assert CountSkips(Wrapping, buf, sn)[..0] + buf[0..] == buf;
  }

  lemma SkipStep(buf: seq<Unacked>, now: seq<Unacked>, i: nat, sn: nat)
    requires Skipped(buf, now, i, sn) && i < |buf| && Diff(sn, now[i].seg.sn) >= 0
    ensures var u := now[i];
            Skipped(buf, if sn != u.seg.sn then now[i := u.(fastAck := U32(u.fastAck + 1))] else now, i + 1, sn)
  {
    var out := CountSkips(Wrapping, buf, sn);
    assert now[i] == buf[i] == buf[i..][0] && buf[i..][1..] == buf[i + 1..];
    assert out[i] == out[i..][0] && out[i..][1..] == out[i + 1..];
    assert now[i := out[i]] == out[..i + 1] + buf[i + 1..];
  }

  lemma SkipEnd(buf: seq<Unacked>, now: seq<Unacked>, i: nat, sn: nat)
    requires Skipped(buf, now, i, sn) && (i == |buf| || Diff(sn, now[i].seg.sn) < 0)
    ensures now == CountSkips(Wrapping, buf, sn)
  {
    var out := CountSkips(Wrapping, buf, sn);
    if i < |buf| { assert now[i] == buf[i..][0]; }
    assert out == out[..i] + out[i..];
  }

  /** Where the decode loop of `ikcp_input` stands: `gs` are processed and `rest` is left. */
  ghost predicate Parsing(s: State, data: seq<byte>, gs: seq<Seg>, rest: seq<byte>, now: State, maxAck: Option<nat>) {
    var p, left := DecodeAll(s.cfg.conv, data), DecodeAll(s.cfg.conv, rest);
    && p.segs == gs + left.segs && p.code == left.code
    && now == InputSegs(Wrapping, s, gs) && maxAck == MaxAck(Wrapping, gs)
  }

  lemma NothingParsed(s: State, data: seq<byte>)
    ensures Parsing(s, data, [], data, s, None)
  {
    var p := DecodeAll(s.cfg.conv, data);
    assert p.segs == [] + p.segs;
  }

  lemma AllParsed(s: State, data: seq<byte>, gs: seq<Seg>, rest: seq<byte>, now: State, maxAck: Option<nat>)
    requires Parsing(s, data, gs, rest, now, maxAck) && |rest| < OVERHEAD
    ensures DecodeAll(s.cfg.conv, data) == Parsed(gs, 0)
    ensures now == InputSegs(Wrapping, s, gs) && maxAck == MaxAck(Wrapping, gs)
  {
    assert gs + [] == gs;
  }

  /** One turn: stop at a malformed segment, or process the segment and move on. */
  lemma ParseNext(s: State, data: seq<byte>, gs: seq<Seg>, rest: seq<byte>, now: State, maxAck: Option<nat>)
    requires Parsing(s, data, gs, rest, now, maxAck) && |rest| >= OVERHEAD
    ensures var p := DecodeAll(s.cfg.conv, data);
            if Decode32(rest, 0) != s.cfg.conv then p == Parsed(gs, -1) && now == InputSegs(Wrapping, s, gs)
            else if |rest| - OVERHEAD < DecodeLen(rest) then p == Parsed(gs, -2) && now == InputSegs(Wrapping, s, gs)
            else if !KnownCmd(rest[4]) then p == Parsed(gs, -3) && now == InputSegs(Wrapping, s, gs)
            else
              var g := DecodeSeg(rest);
              Parsing(s, data, gs + [g], rest[OVERHEAD + DecodeLen(rest)..], InputSeg(Wrapping, now, g),
                      if g.cmd == CMD_ACK && (maxAck.None? || Diff(g.sn, maxAck.value) > 0) then Some(g.sn) else maxAck)
  {
    hide DecodeSeg, InputSeg;
    assert gs + [] == gs;
    if Decode32(rest, 0) == s.cfg.conv && |rest| - OVERHEAD >= DecodeLen(rest) && KnownCmd(rest[4]) {
      var g := DecodeSeg(rest);
      var left := DecodeAll(s.cfg.conv, rest[OVERHEAD + DecodeLen(rest)..]);
      assert (gs + [g])[..|gs|] == gs && gs + ([g] + left.segs) == (gs + [g]) + left.segs;
    }
  }

  lemma PayloadsSnoc(q: seq<Seg>, i: nat)
    requires i < |q|
    ensures Bytes(Payloads(q[..i + 1])) == Bytes(Payloads(q[..i])) + q[i].data
  {
    assert Payloads(q[..i + 1]) == Payloads(q[..i]) + [q[i].Pay()];
    BytesConcat(Payloads(q[..i]), [q[i].Pay()]);
    assert Bytes([q[i].Pay()]) == q[i].data;
  }

  /** Where the backward scan of `ikcp_parse_data` stands: the segments from `p` on are larger. */
  ghost predicate Scanned(buf: seq<Seg>, p: nat, g: Seg) {
    p <= |buf| && Insert(Wrapping, buf, g) == Insert(Wrapping, buf[..p], g) + buf[p..]
  }

  lemma ScanStart(buf: seq<Seg>, g: Seg)
    ensures Scanned(buf, |buf|, g)
  {
    assert buf[..|buf|] == buf && buf[|buf|..] == [];
  }

  lemma ScanStep(buf: seq<Seg>, p: nat, g: Seg)
    requires Scanned(buf, p, g) && p > 0 && buf[p - 1].sn != g.sn && Diff(g.sn, buf[p - 1].sn) <= 0
    ensures Scanned(buf, p - 1, g)
  {
    assert buf[..p][..p - 1] == buf[..p - 1] && [buf[p - 1]] + buf[p..] == buf[p - 1..];
  }

  lemma ScanEnd(buf: seq<Seg>, p: nat, g: Seg)
    requires Scanned(buf, p, g) && (p == 0 || buf[p - 1].sn == g.sn || Diff(g.sn, buf[p - 1].sn) > 0)
    ensures Insert(Wrapping, buf, g) == if p > 0 && buf[p - 1].sn == g.sn then buf else buf[..p] + [g] + buf[p..]
  {
    hide Insert, Diff;
    var left, right := buf[..p], buf[p..];
    InsertStops(left, g);
    assert left + right == buf;
    if p == 0 { assert [g] + right == left + [g] + right; }
  }

  lemma InsertStops(buf: seq<Seg>, g: Seg)
    requires buf == [] || buf[|buf| - 1].sn == g.sn || Diff(g.sn, buf[|buf| - 1].sn) > 0
    ensures Insert(Wrapping, buf, g) == if buf != [] && buf[|buf| - 1].sn == g.sn then buf else buf + [g]
  { }

  lemma SkipLength(buf: seq<Unacked>, now: seq<Unacked>, i: nat, sn: nat)
    requires Skipped(buf, now, i, sn)
    ensures i <= |buf| == |now|
  { }

  /** Is the first buffered segment the next one, with room for it in the queue? */
  predicate IsNext(r: Receiver, wnd: nat) {
    r.buf != [] && r.buf[0].sn == r.nxt && |r.queue| < wnd
  }

  function OneDrained(r: Receiver): Receiver
    requires r.buf != []
  {
    Receiver(U32(r.nxt + 1), r.buf[1..], r.queue + [r.buf[0]], r.acks)
  }

  lemma DrainOne(wnd: nat, r: Receiver)
    requires IsNext(r, wnd)
    ensures Drain(Wrapping, wnd, r) == Drain(Wrapping, wnd, OneDrained(r)) && |OneDrained(r).queue| == |r.queue| + 1
    ensures |OneDrained(r).buf| < |r.buf|
  { }

  lemma DrainStops(wnd: nat, r: Receiver)
    requires !IsNext(r, wnd)
    ensures Drain(Wrapping, wnd, r) == r
  { }

  /** The control block of a flush from what the transmission loop counts. */
  lemma ControlOfFlush(s: State, snd: Sender)
    ensures var pass, ctl := FlushPass(s), ProbeTimer(s.ctl).(askSend := false, askTell := false);
            var lost, fast := pass.CountWhy(snd.buf, Timeout), pass.CountWhy(snd.buf, Fast);
            FlushControl(s, snd) == CwndAfterFlush(s.cfg,
              ctl.(xmit := U32(ctl.xmit + lost), dead := ctl.dead || pass.Dies(snd.buf)),
              fast > 0, lost > 0, U32(snd.nxt - snd.una), FlushWindow(s))
  {
    hide CwndAfterFlush, ProbeTimer, FlushWindow, Pass.CountWhy, Pass.Dies;
  }

  lemma AdjustKeepsXmit(cfg: Config, ctl: Control, fast: bool, lost: bool, inflight: nat, window: nat)
    ensures CwndAfterFlush(cfg, ctl, fast, lost, inflight, window).xmit == ctl.xmit
  { }

  /** The probe commands, from the header the last ack leaves behind. */
  lemma ProbesOfFlush(s: State, ctl: Control, seg: Seg)
    requires var last := LastAck(s.rcv.acks); seg == Header(s, CMD_ACK, last.sn, last.ts)
    ensures ProbeSegs(s, ctl) == Probes(seg, ctl.askSend, ctl.askTell)
  { }
}
