/** End-to-end safety of a KCP connection: every step of the two-endpoint system keeps the
    invariant, and therefore every run delivers a prefix of what was accepted and loses
    nothing. */
module Safety {
  import opened Options
  import opened Serial
  import opened Wire
  import opened Engine
  import opened Window
  import opened Refinement
  import opened System

  // ---------------------------------------------------------------- what a flush sends

  /** The send buffer of a flush: the old segments with their numbers and payloads, then
      the next of the queue with the next numbers. */
  ghost predicate Numbered(s: State, buf: seq<Unacked>, n: nat) {
    && n <= |s.snd.queue| && |buf| == |s.snd.buf| + n
    && (forall i :: 0 <= i < |s.snd.buf| ==>
          buf[i].seg.sn == s.snd.buf[i].seg.sn && buf[i].seg.Pay() == s.snd.buf[i].seg.Pay())
    && (forall i :: |s.snd.buf| <= i < |buf| ==>
          buf[i].seg.sn == s.snd.nxt + (i - |s.snd.buf|) && buf[i].seg.Pay() == s.snd.queue[i - |s.snd.buf|])
  }

  lemma AdmitNumbers(s: State, window: nat)
    ensures Numbered(s, Admit(Unbounded, s, window).buf, AdmitCount(s, window))
  {
    AdmitForm(s, window);
  }

  /** Transmitting changes no number and no payload. */
  lemma TouchNumbers(s: State, p: Pass, mid: seq<Unacked>, n: nat)
    requires Numbered(s, mid, n)
    ensures Numbered(s, p.TouchAll(mid), n)
  {
    var buf := p.TouchAll(mid);
    forall i | 0 <= i < |mid| ensures buf[i].seg.sn == mid[i].seg.sn && buf[i].seg.Pay() == mid[i].seg.Pay() {
      assert buf[i] == p.Touch(mid[i]);
    }
  }

  lemma FlushNumbers(s: State)
    ensures Numbered(s, Flush(Unbounded, s).s.snd.buf, AdmitCount(s, FlushWindow(s)))
  {
    AdmitNumbers(s, FlushWindow(s));
    TouchNumbers(s, FlushPass(s), FlushSender(Unbounded, s).buf, AdmitCount(s, FlushWindow(s)));
  }

  /** The send buffer still matches the log once the log is extended by what was numbered. */
  lemma NumberedMatches(s: State, log: seq<Frag>, buf: seq<Unacked>, n: nat)
    requires Numbered(s, buf, n) && |log| == s.snd.nxt && BufMatches(log, s.snd.buf)
    ensures BufMatches(log + s.snd.queue[..n], buf)
  {
    var k := |s.snd.buf|;
    var log1 := log + s.snd.queue[..n];
    forall v | v in buf ensures v.seg.sn < |log1| && v.seg.Pay() == log1[v.seg.sn] {
      var i :| 0 <= i < |buf| && buf[i] == v;
      if i < k {
        assert s.snd.buf[i] in s.snd.buf;
      } else {
        assert s.snd.queue[i - k] == s.snd.queue[..n][i - k];
      }
    }
  }

  /** Numbers in the send buffer stay there across a flush, and new numbers enter it. */
  lemma NumberedHas(s: State, buf: seq<Unacked>, n: nat)
    requires Numbered(s, buf, n)
    ensures forall sn: int :: InBuf(s.snd.buf, sn) ==> InBuf(buf, sn)
    ensures forall sn: int :: s.snd.nxt <= sn < s.snd.nxt + n ==> InBuf(buf, sn)
  {
    var k := |s.snd.buf|;
    forall sn: int | InBuf(s.snd.buf, sn) ensures InBuf(buf, sn) {
      var u :| u in s.snd.buf && u.seg.sn == sn;
      var i :| 0 <= i < k && s.snd.buf[i] == u;
      assert buf[i] in buf;
    }
    forall sn: int | s.snd.nxt <= sn < s.snd.nxt + n ensures InBuf(buf, sn) {
      var i := k + (sn - s.snd.nxt);
      assert buf[i].seg.sn == sn && buf[i] in buf;
    }
  }

  lemma {:induction false} DueSegsFrom(p: Pass, buf: seq<Unacked>)
    ensures forall g :: g in p.DueSegs(buf) ==>
              exists i :: 0 <= i < |buf| && p.Why(buf[i]) != Hold && g == p.Touch(buf[i]).seg
    decreases |buf|
  {
    if buf != [] {
      var n := |buf| - 1;
      DueSegsFrom(p, buf[..n]);
      forall g | g in p.DueSegs(buf)
        ensures exists i :: 0 <= i < |buf| && p.Why(buf[i]) != Hold && g == p.Touch(buf[i]).seg
      {
        if g in p.DueSegs(buf[..n]) {
          var i :| 0 <= i < |buf[..n]| && p.Why(buf[..n][i]) != Hold && g == p.Touch(buf[..n][i]).seg;
          assert buf[i] == buf[..n][i];
        } else {
          assert p.Why(buf[n]) != Hold && g == p.Touch(buf[n]).seg;
        }
      }
    }
  }

  /** The segments of a flush: acks of pending acks, probes, and buffered segments; all
      carry the receiver's `rcv_nxt` and free window. */
  ghost predicate IsAckSeg(s: State, g: Seg) {
    g.cmd == CMD_ACK && g.frg == 0 && g.data == [] && Ack(g.sn, g.ts) in s.rcv.acks
  }

  ghost predicate IsProbeSeg(s: State, g: Seg) {
    && (g.cmd == CMD_WASK || g.cmd == CMD_WINS) && g.frg == 0 && g.data == []
    && (Ack(g.sn, g.ts) in s.rcv.acks || (g.sn == 0 && g.ts == 0))
  }

  ghost predicate IsDataSeg(s: State, buf: seq<Unacked>, g: Seg) {
    && g.cmd == CMD_PUSH && g.ts == s.ctl.current
    && exists u :: u in buf && u.seg.sn == g.sn && u.seg.Pay() == g.Pay()
  }

  ghost predicate FlushSegKind(s: State, buf: seq<Unacked>, g: Seg) {
    && g.una == s.rcv.nxt && g.conv == s.cfg.conv && g.wnd == WndUnused(s.cfg, s.rcv)
    && (IsAckSeg(s, g) || IsProbeSeg(s, g) || IsDataSeg(s, buf, g))
  }

  lemma AckSegKinds(s: State)
    ensures forall g :: g in AckSegs(s) ==> g.una == s.rcv.nxt && g.conv == s.cfg.conv
                                            && g.wnd == WndUnused(s.cfg, s.rcv) && IsAckSeg(s, g)
  {
    forall g | g in AckSegs(s) ensures IsAckSeg(s, g) && g.una == s.rcv.nxt && g.conv == s.cfg.conv
                                       && g.wnd == WndUnused(s.cfg, s.rcv) {
      var i :| 0 <= i < |AckSegs(s)| && AckSegs(s)[i] == g;
      assert s.rcv.acks[i] in s.rcv.acks;
    }
  }

  lemma TouchedSegKind(s: State, mid: seq<Unacked>, i: nat)
    requires i < |mid| && mid[i].seg.cmd == CMD_PUSH && mid[i].seg.conv == s.cfg.conv
             && FlushPass(s).Why(mid[i]) != Hold
    ensures FlushSegKind(s, FlushPass(s).TouchAll(mid), FlushPass(s).Touch(mid[i]).seg)
  {
    var p := FlushPass(s);
    var buf := p.TouchAll(mid);
    assert buf[i] == p.Touch(mid[i]) && buf[i] in buf;
  }

  lemma DataSegKinds(s: State)
    requires Ok(s)
    ensures var snd := FlushSender(Unbounded, s);
            forall g :: g in FlushPass(s).DueSegs(snd.buf) ==> FlushSegKind(s, FlushPass(s).TouchAll(snd.buf), g)
  {
    var p := FlushPass(s);
    var mid := FlushSender(Unbounded, s).buf;
    assert forall x :: x in mid ==> x.seg.cmd == CMD_PUSH && x.seg.conv == s.cfg.conv by {
      AdmitKeeps(s, FlushWindow(s));
    }
    DueSegsFrom(p, mid);
    forall g | g in p.DueSegs(mid) ensures FlushSegKind(s, p.TouchAll(mid), g) {
      var i :| 0 <= i < |mid| && p.Why(mid[i]) != Hold && g == p.Touch(mid[i]).seg;
      assert mid[i] in mid;
      TouchedSegKind(s, mid, i);
    }
  }

  lemma FlushSegKinds(s: State)
    requires Ok(s)
    ensures var f := Flush(Unbounded, s);
            forall g :: g in f.segs ==> FlushSegKind(s, f.s.snd.buf, g)
  {
    AckSegKinds(s);
    DataSegKinds(s);
    var f := Flush(Unbounded, s);
    var snd := FlushSender(Unbounded, s);
    forall g | g in f.segs ensures FlushSegKind(s, f.s.snd.buf, g) {
      assert g in AckSegs(s) || g in ProbeSegs(s, ProbeTimer(s.ctl)) || g in FlushPass(s).DueSegs(snd.buf);
    }
  }

  // ---------------------------------------------------------------- a longer log

  /** What was numbered stays numbered. */
  lemma LogGrows(log: seq<Frag>, more: seq<Frag>, net: seq<Pkt>, r: Receiver)
    ensures DataOnWire(log, net) ==> DataOnWire(log + more, net)
    ensures Received(log, r) ==> Received(log + more, r)
    ensures AcksHeld(log, r) ==> AcksHeld(log + more, r)
    ensures AcksOnWire(log, net, r) ==> AcksOnWire(log + more, net, r)
  {
    forall g: Seg | IsNumbered(log, g) ensures IsNumbered(log + more, g) { }
  }

  /** Holding more keeps what was promised about held segments. */
  lemma HoldsMore(log: seq<Frag>, buf: seq<Unacked>, net: seq<Pkt>, r: Receiver, d: Receiver)
    requires r.nxt <= d.nxt && forall sn: int :: Held(r, sn) ==> Held(d, sn)
    ensures NothingLost(log, buf, r) ==> NothingLost(log, buf, d)
    ensures AcksOnWire(log, net, r) ==> AcksOnWire(log, net, d)
    ensures AcksHeld(log, r) && d.acks == r.acks ==> AcksHeld(log, d)
  { }

  // ---------------------------------------------------------------- receiving

  lemma DrainReceived(log: seq<Frag>, wnd: nat, r: Receiver)
    requires RcvShape(wnd, r) && Received(log, r)
    ensures Received(log, Drain(Unbounded, wnd, r))
  {
    DrainKeeps(wnd, r);
    var d := Drain(Unbounded, wnd, r);
    var n := DrainForm(wnd, r);
    if n > 0 { assert r.buf[n - 1] in r.buf && r.buf[n - 1].sn == r.nxt + (n - 1); }
    forall g | g in d.queue ensures IsNumbered(log, g) {
      var i :| 0 <= i < |d.queue| && d.queue[i] == g;
      if i < |r.queue| { assert d.queue[i] == r.queue[i]; }
    }
  }

  /** The queue is the stretch of the log just below `rcv_nxt`. */
  lemma QueueIsLogSlice(log: seq<Frag>, wnd: nat, r: Receiver)
    requires RcvShape(wnd, r) && Received(log, r)
    ensures Payloads(r.queue) == log[r.nxt - |r.queue|..r.nxt]
  {
    forall i | 0 <= i < |r.queue| ensures Payloads(r.queue)[i] == log[r.nxt - |r.queue|..r.nxt][i] {
      assert r.queue[i] in r.queue;
    }
  }

  /** A receive hands over the next stretch of the log. */
  lemma RecvDelivers(log: seq<Frag>, s: State, len: int)
    requires RcvOk(s.cfg.rcvWnd, s.rcv) && Received(log, s.rcv)
    ensures var r := Recv(Unbounded, s, len);
            var base0, base1 := s.rcv.nxt - |s.rcv.queue|, r.s.rcv.nxt - |r.s.rcv.queue|;
            && Received(log, r.s.rcv) && base0 <= base1 <= |log|
            && (len >= 0 && r.code >= 0 ==>
                  base1 == base0 + MergeCount(s.rcv.queue) && r.data == Bytes(log[base0..base1]))
            && (len < 0 || r.code < 0 ==> base1 == base0)
  {
    var q := s.rcv.queue;
    var n := MergeCount(q);
    MergedIsLogSlice(log, s.cfg.rcvWnd, s.rcv, n);
    RecvRest(log, s.cfg.rcvWnd, s.rcv, 0);
    RecvRest(log, s.cfg.rcvWnd, s.rcv, n);
    assert s.rcv.(queue := q[0..]) == s.rcv;
  }

  lemma MergedIsLogSlice(log: seq<Frag>, wnd: nat, r: Receiver, n: nat)
    requires RcvShape(wnd, r) && Received(log, r) && n <= |r.queue|
    ensures var base := r.nxt - |r.queue|;
            Payloads(r.queue[..n]) == log[base..base + n]
  {
    QueueIsLogSlice(log, wnd, r);
    var base := r.nxt - |r.queue|;
    assert Payloads(r.queue[..n]) == Payloads(r.queue)[..n];
    assert log[base..r.nxt][..n] == log[base..base + n];
  }

  /** After `n` segments were taken from the queue and the buffer drained into it. */
  lemma RecvRest(log: seq<Frag>, wnd: nat, r: Receiver, n: nat)
    requires RcvShape(wnd, r) && Received(log, r) && n <= |r.queue|
    ensures var d := Drain(Unbounded, wnd, r.(queue := r.queue[n..]));
            && Received(log, d) && |d.queue| <= d.nxt <= |log| && d.nxt - |d.queue| == r.nxt - |r.queue| + n
  {
    var r1 := r.(queue := r.queue[n..]);
    assert RcvShape(wnd, r1);
    assert forall g :: g in r1.queue ==> g in r.queue;
    DrainReceived(log, wnd, r1);
    DrainKeeps(wnd, r1);
  }

  // ---------------------------------------------------------------- input

  /** A segment that says only true things, as every datagram of the peer does. */
  ghost predicate Sound(nlog: seq<Frag>, mlog: seq<Frag>, mrcv: Receiver, g: Seg) {
    && g.ts < TWO32 && g.una <= mrcv.nxt
    && (g.cmd == CMD_ACK ==> g.sn < |nlog| && Held(mrcv, g.sn))
    && (g.cmd == CMD_PUSH ==> IsNumbered(mlog, g))
  }

  /** What an endpoint keeps while it works through a datagram of its peer. */
  ghost predicate Working(nlog: seq<Frag>, mlog: seq<Frag>, mbuf: seq<Unacked>, mrcv: Receiver, s: State) {
    && Ok(s)
    && BufMatches(nlog, s.snd.buf) && NothingLost(nlog, s.snd.buf, mrcv)
    && Received(mlog, s.rcv) && NothingLost(mlog, mbuf, s.rcv) && AcksHeld(mlog, s.rcv)
    && s.ctl.current < TWO32 && (forall a :: a in s.rcv.acks ==> a.ts < TWO32)
  }

  /** Only acknowledged segments leave the send buffer, and they are held. */
  lemma InputAcksSound(cfg: Config, nlog: seq<Frag>, mlog: seq<Frag>, mrcv: Receiver, s: Sender, g: Seg)
    requires SndOk(cfg, s) && BufMatches(nlog, s.buf) && NothingLost(nlog, s.buf, mrcv)
    requires Sound(nlog, mlog, mrcv, g)
    ensures var t := InputAcks(Unbounded, s, g);
            BufMatches(nlog, t.buf) && NothingLost(nlog, t.buf, mrcv)
  {
    InputAcksKeeps(cfg, s, g);
    var t := InputAcks(Unbounded, s, g);
    forall sn: int | 0 <= sn < |nlog| ensures InBuf(t.buf, sn) || Held(mrcv, sn) {
      if InBuf(s.buf, sn) {
        var u :| u in s.buf && u.seg.sn == sn;
        if !(u in t.buf) { assert Held(mrcv, sn); }
      }
    }
  }

  lemma InputPushSound(wnd: nat, nlog: seq<Frag>, mlog: seq<Frag>, mbuf: seq<Unacked>, mrcv: Receiver, r: Receiver,
                       g: Seg)
    requires RcvOk(wnd, r) && Received(mlog, r) && NothingLost(mlog, mbuf, r) && AcksHeld(mlog, r)
    requires Sound(nlog, mlog, mrcv, g) && g.cmd == CMD_PUSH
    ensures var d := InputPush(Unbounded, wnd, r, g);
            Received(mlog, d) && NothingLost(mlog, mbuf, d) && AcksHeld(mlog, d)
  {
    InputPushKeeps(wnd, r, g);
    var d := InputPush(Unbounded, wnd, r, g);
    HoldsMore(mlog, mbuf, [], r, d);
    if r.nxt <= g.sn < r.nxt + wnd {
      var r1 := r.(acks := r.acks + [Ack(g.sn, g.ts)]);
      var r2 := r1.(buf := Insert(Unbounded, r.buf, g));
      InsertKeepsShape(wnd, r1, g);
      assert d == Drain(Unbounded, wnd, r2);
      DrainReceived(mlog, wnd, r2);
    }
  }

  lemma InputSegSound(nlog: seq<Frag>, mlog: seq<Frag>, mbuf: seq<Unacked>, mrcv: Receiver, s: State, g: Seg)
    requires Working(nlog, mlog, mbuf, mrcv, s) && Sound(nlog, mlog, mrcv, g)
    ensures var t := InputSeg(Unbounded, s, g);
            && Working(nlog, mlog, mbuf, mrcv, t) && s.rcv.nxt <= t.rcv.nxt
            && (forall sn: int :: Held(s.rcv, sn) ==> Held(t.rcv, sn))
  {
    InputSegKeeps(s, g);
    InputAcksSound(s.cfg, nlog, mlog, mrcv, s.snd, g);
    if g.cmd == CMD_PUSH {
      InputPushSound(s.cfg.rcvWnd, nlog, mlog, mbuf, mrcv, s.rcv, g);
      InputPushKeeps(s.cfg.rcvWnd, s.rcv, g);
    }
  }

  lemma {:induction false} InputSegsSound(nlog: seq<Frag>, mlog: seq<Frag>, mbuf: seq<Unacked>, mrcv: Receiver,
                                          s: State, gs: seq<Seg>)
    requires Working(nlog, mlog, mbuf, mrcv, s) && forall g :: g in gs ==> Sound(nlog, mlog, mrcv, g)
    ensures var t := InputSegs(Unbounded, s, gs);
            && Working(nlog, mlog, mbuf, mrcv, t) && s.rcv.nxt <= t.rcv.nxt
            && (forall sn: int :: Held(s.rcv, sn) ==> Held(t.rcv, sn))
    decreases |gs|
  {
    if gs != [] {
      var n := |gs| - 1;
      InputSegsSound(nlog, mlog, mbuf, mrcv, s, gs[..n]);
      assert gs[n] in gs;
      InputSegSound(nlog, mlog, mbuf, mrcv, InputSegs(Unbounded, s, gs[..n]), gs[n]);
    }
  }

  /** Counting skipped segments for fast retransmit loses none of them. */
  lemma FastAckSound(cfg: Config, nlog: seq<Frag>, mrcv: Receiver, s: Sender, sn: nat)
    requires SndOk(cfg, s) && BufMatches(nlog, s.buf) && NothingLost(nlog, s.buf, mrcv)
    ensures var t := ParseFastAck(Unbounded, s, sn);
            BufMatches(nlog, t.buf) && NothingLost(nlog, t.buf, mrcv)
  {
    ParseFastAckKeeps(cfg, s, sn);
    var t := ParseFastAck(Unbounded, s, sn);
    forall u | u in t.buf ensures u.seg.sn < |nlog| && u.seg.Pay() == nlog[u.seg.sn] {
      var i :| 0 <= i < |t.buf| && t.buf[i] == u;
      assert s.buf[i] in s.buf;
    }
    forall k: int | InBuf(s.buf, k) ensures InBuf(t.buf, k) {
      var u :| u in s.buf && u.seg.sn == k;
      var i :| 0 <= i < |s.buf| && s.buf[i] == u;
      assert t.buf[i] in t.buf;
    }
  }

  lemma GrowCwndKeepsClock(cfg: Config, ctl: Control)
    ensures GrowCwnd(cfg, ctl).current == ctl.current
  { }

  lemma InputEndSound(nlog: seq<Frag>, mlog: seq<Frag>, mbuf: seq<Unacked>, mrcv: Receiver, s: State, una0: nat,
                      m: Option<nat>)
    requires Working(nlog, mlog, mbuf, mrcv, s)
    ensures var t := InputEnd(Unbounded, s, una0, m);
            Working(nlog, mlog, mbuf, mrcv, t) && t.rcv == s.rcv
  {
    GrowCwndKeepsClock(s.cfg, s.ctl);
    if m.Some? {
      ParseFastAckKeeps(s.cfg, s.snd, m.value);
      FastAckSound(s.cfg, nlog, mrcv, s.snd, m.value);
    }
  }

  lemma InputSound(nlog: seq<Frag>, mlog: seq<Frag>, mbuf: seq<Unacked>, mrcv: Receiver, s: State, gs: seq<Seg>)
    requires Working(nlog, mlog, mbuf, mrcv, s) && forall g :: g in gs ==> Sound(nlog, mlog, mrcv, g)
    ensures var t := InputParsed(Unbounded, s, Parsed(gs, 0));
            && Working(nlog, mlog, mbuf, mrcv, t) && s.rcv.nxt <= t.rcv.nxt
            && (forall sn: int :: Held(s.rcv, sn) ==> Held(t.rcv, sn))
  {
    InputSegsSound(nlog, mlog, mbuf, mrcv, s, gs);
    InputEndSound(nlog, mlog, mbuf, mrcv, InputSegs(Unbounded, s, gs), s.snd.una, MaxAck(Unbounded, gs));
  }
}
