/** Progress: one round trip in which nothing is lost clears the peer's receive window. */
module Progress {
  import opened Serial
  import opened Wire
  import opened Engine
  import opened Window
  import opened Refinement
  import opened System
  import opened Safety
  import opened Runs

  /** The datagrams of one flush. */
  function Out(n: Node): seq<Pkt> {
    Emitted(Flush(Wrapping, n.c), Flush(Unbounded, n.u))
  }

  function DeliverAll(n: Node, pkts: seq<Pkt>): Node
    decreases |pkts|
  {
    if pkts == [] then n else DeliverAll(NodeInput(n, pkts[0]), pkts[1..])
  }

  /** Every buffered segment is due for (re)transmission. */
  ghost predicate AllDue(s: State) {
    forall x :: x in s.snd.buf ==> x.xmit == 0 || Diff(s.ctl.current, x.resendTs) >= 0
  }

  /** The acks waiting to be flushed name no number below `bound`. */
  ghost predicate AcksAbove(s: State, bound: int) {
    forall k :: k in s.rcv.acks ==> bound <= k.sn
  }

  /** How far behind `rcv_nxt` a pending ack may be when its flush starts. */
  const RECENT: int := TWO31 / 2

  /** How much further behind it may have fallen by the time of the answering flush. */
  const SLACK: int := 2 * 65536

  ghost predicate AckListed(r: Receiver, sn: int) {
    exists k :: k in r.acks && k.sn == sn
  }

  // ---------------------------------------------------------------- one segment, one datagram

  /** A data segment below the window end is acknowledged; pending acks stay. */
  lemma PushIsAcked(s: State, g: Seg)
    requires Ok(s)
    ensures var t := InputSeg(Unbounded, s, g);
            && s.rcv.acks <= t.rcv.acks
            && (g.cmd == CMD_PUSH && g.sn < s.rcv.nxt + s.cfg.rcvWnd ==> AckListed(t.rcv, g.sn))
            && (forall k :: k in t.rcv.acks ==> k in s.rcv.acks || (g.cmd == CMD_PUSH && k.sn == g.sn))
  {
    InputPushKeeps(s.cfg.rcvWnd, s.rcv, g);
    var t := InputSeg(Unbounded, s, g);
    if g.cmd == CMD_PUSH && g.sn < s.rcv.nxt + s.cfg.rcvWnd {
      assert t.rcv.acks[|s.rcv.acks|] == Ack(g.sn, g.ts);
    }
  }

  ghost predicate PushIn(gs: seq<Seg>, sn: int) {
    exists g :: g in gs && g.cmd == CMD_PUSH && g.sn == sn
  }

  ghost predicate AckIn(gs: seq<Seg>, sn: int) {
    exists g :: g in gs && g.cmd == CMD_ACK && g.sn == sn
  }

  lemma {:induction false} PushesAreAcked(s: State, gs: seq<Seg>)
    requires Ok(s)
    ensures var t := InputSegs(Unbounded, s, gs);
            && s.rcv.acks <= t.rcv.acks
            && (forall sn: int :: PushIn(gs, sn) && sn < s.rcv.nxt + s.cfg.rcvWnd ==> AckListed(t.rcv, sn))
            && (forall k :: k in t.rcv.acks ==> k in s.rcv.acks || PushIn(gs, k.sn))
    decreases |gs|
  {
    if gs != [] {
      var n := |gs| - 1;
      InputSegsKeep(s, gs[..n]);
      PushesAreAcked(s, gs[..n]);
      var t := InputSegs(Unbounded, s, gs[..n]);
      PushIsAcked(t, gs[n]);
      var r := InputSeg(Unbounded, t, gs[n]);
      assert gs == gs[..n] + [gs[n]];
      forall sn: int | PushIn(gs, sn) && sn < s.rcv.nxt + s.cfg.rcvWnd ensures AckListed(r.rcv, sn) {
        if PushIn(gs[..n], sn) {
          var k :| k in t.rcv.acks && k.sn == sn;
          assert k in r.rcv.acks;
        }
      }
      forall k | k in r.rcv.acks ensures k in s.rcv.acks || PushIn(gs, k.sn) {
        if k !in s.rcv.acks && k in t.rcv.acks {
          var g :| g in gs[..n] && g.cmd == CMD_PUSH && g.sn == k.sn;
          assert g in gs;
        } else if k !in t.rcv.acks {
          assert gs[n] in gs;
        }
      }
    }
  }

  /** An acknowledged number leaves the send buffer, and none enters it. */
  lemma {:induction false} AcksAreRemoved(s: State, gs: seq<Seg>)
    requires Ok(s)
    ensures var t := InputSegs(Unbounded, s, gs);
            && (forall sn: int :: InBuf(t.snd.buf, sn) ==> InBuf(s.snd.buf, sn) && !AckIn(gs, sn))
    decreases |gs|
  {
    if gs != [] {
      var n := |gs| - 1;
      InputSegsKeep(s, gs[..n]);
      AcksAreRemoved(s, gs[..n]);
      var t := InputSegs(Unbounded, s, gs[..n]);
      InputAcksKeeps(t.cfg, t.snd, gs[n]);
      var r := InputSeg(Unbounded, t, gs[n]);
      assert gs == gs[..n] + [gs[n]];
      forall sn: int | InBuf(r.snd.buf, sn) ensures InBuf(s.snd.buf, sn) && !AckIn(gs, sn) {
        var x :| x in r.snd.buf && x.seg.sn == sn;
        assert x in t.snd.buf;
        assert InBuf(t.snd.buf, sn);
      }
    }
  }

  lemma FastAckSameNumbers(cfg: Config, s: Sender, k: nat)
    requires SndOk(cfg, s)
    ensures forall sn: int :: InBuf(ParseFastAck(Unbounded, s, k).buf, sn) ==> InBuf(s.buf, sn)
  {
    ParseFastAckKeeps(cfg, s, k);
    var t := ParseFastAck(Unbounded, s, k);
    forall sn: int | InBuf(t.buf, sn) ensures InBuf(s.buf, sn) {
      var x :| x in t.buf && x.seg.sn == sn;
      var i :| 0 <= i < |t.buf| && t.buf[i] == x;
      assert s.buf[i] in s.buf;
    }
  }

  /** What one whole datagram does. */
  lemma DatagramEffect(s: State, gs: seq<Seg>)
    requires Ok(s)
    ensures var t := InputParsed(Unbounded, s, Parsed(gs, 0));
            && s.rcv.acks <= t.rcv.acks && s.rcv.nxt <= t.rcv.nxt
            && (forall sn: int :: PushIn(gs, sn) && sn < s.rcv.nxt + s.cfg.rcvWnd ==> AckListed(t.rcv, sn))
            && (forall k :: k in t.rcv.acks ==> k in s.rcv.acks || PushIn(gs, k.sn))
            && (forall sn: int :: InBuf(t.snd.buf, sn) ==> InBuf(s.snd.buf, sn) && !AckIn(gs, sn))
  {
    InputSegsKeep(s, gs);
    PushesAreAcked(s, gs);
    AcksAreRemoved(s, gs);
    var t := InputSegs(Unbounded, s, gs);
    var m := MaxAck(Unbounded, gs);
    if m.Some? { FastAckSameNumbers(t.cfg, t.snd, m.value); }
  }

  // ---------------------------------------------------------------- a series of datagrams

  ghost predicate AllFresh(s: State, pkts: seq<Pkt>) {
    forall p :: p in pkts ==> Fresh(s, p.tags)
  }

  ghost predicate PushInAny(pkts: seq<Pkt>, sn: int) {
    exists p :: p in pkts && PushIn(p.tags, sn)
  }

  ghost predicate AckInAny(pkts: seq<Pkt>, sn: int) {
    exists p :: p in pkts && AckIn(p.tags, sn)
  }

  /** What is the same before and after `n` worked through datagrams, and what grew. */
  ghost predicate Absorbed(s: State, t: State, pkts: seq<Pkt>) {
    && t.cfg == s.cfg && t.snd.nxt == s.snd.nxt
    && t.rcv.nxt - |t.rcv.queue| == s.rcv.nxt - |s.rcv.queue|
    && s.rcv.acks <= t.rcv.acks && s.rcv.nxt <= t.rcv.nxt
    && (forall sn: int :: PushInAny(pkts, sn) && sn < s.rcv.nxt + s.cfg.rcvWnd ==> AckListed(t.rcv, sn))
    && (forall k :: k in t.rcv.acks ==> k in s.rcv.acks || PushInAny(pkts, k.sn))
    && (forall sn: int :: InBuf(t.snd.buf, sn) ==> InBuf(s.snd.buf, sn) && !AckInAny(pkts, sn))
  }

  lemma AbsorbedOne(s: State, pkt: Pkt)
    requires Ok(s)
    ensures Absorbed(s, InputParsed(Unbounded, s, Parsed(pkt.tags, 0)), [pkt])
  {
    DatagramEffect(s, pkt.tags);
    InputFrame(s, pkt.tags);
    var t := InputParsed(Unbounded, s, Parsed(pkt.tags, 0));
    assert forall sn: int :: PushInAny([pkt], sn) ==> PushIn(pkt.tags, sn);
    assert forall sn: int :: AckInAny([pkt], sn) ==> AckIn(pkt.tags, sn);
    assert pkt in [pkt];
    forall k | k in t.rcv.acks ensures k in s.rcv.acks || PushInAny([pkt], k.sn) { }
  }

  lemma AbsorbedTrans(s: State, t: State, r: State, a: seq<Pkt>, b: seq<Pkt>)
    requires Absorbed(s, t, a) && Absorbed(t, r, b)
    ensures Absorbed(s, r, a + b)
  {
    forall sn: int | PushInAny(a + b, sn) && sn < s.rcv.nxt + s.cfg.rcvWnd ensures AckListed(r.rcv, sn) {
      if PushInAny(a, sn) {
        var k :| k in t.rcv.acks && k.sn == sn;
        assert k in r.rcv.acks;
      } else {
        assert PushInAny(b, sn);
      }
    }
    forall k | k in r.rcv.acks ensures k in s.rcv.acks || PushInAny(a + b, k.sn) {
      if k in t.rcv.acks {
        if k !in s.rcv.acks {
          var p :| p in a && PushIn(p.tags, k.sn);
          assert p in a + b;
        }
      } else {
        var p :| p in b && PushIn(p.tags, k.sn);
        assert p in a + b;
      }
    }
    forall sn: int | InBuf(r.snd.buf, sn) ensures InBuf(s.snd.buf, sn) && !AckInAny(a + b, sn) {
      assert InBuf(t.snd.buf, sn);
    }
  }

  lemma AbsorbedNone(s: State)
    ensures Absorbed(s, s, [])
  { }

  /** Staleness is judged against what no datagram changes. */
  lemma FreshStable(s: State, t: State, pkts: seq<Pkt>)
    requires t.cfg == s.cfg && t.snd.nxt == s.snd.nxt && t.rcv.nxt - |t.rcv.queue| == s.rcv.nxt - |s.rcv.queue|
    requires AllFresh(s, pkts)
    ensures AllFresh(t, pkts)
  {
    forall p | p in pkts ensures Fresh(t, p.tags) {
      forall g | g in p.tags ensures FreshSeg(t, g) { assert FreshSeg(s, g); }
    }
  }

  /** The effects of a series of datagrams add up. */
  lemma {:induction false} DeliverAllAbsorbs(n: Node, pkts: seq<Pkt>)
    requires Ok(n.u)
    ensures Ok(DeliverAll(n, pkts).u) && Absorbed(n.u, DeliverAll(n, pkts).u, pkts)
    decreases |pkts|
  {
    if pkts == [] {
      AbsorbedNone(n.u);
    } else {
      var n1, rest := NodeInput(n, pkts[0]), pkts[1..];
      InputParsedKeeps(n.u, Parsed(pkts[0].tags, 0));
      AbsorbedOne(n.u, pkts[0]);
      DeliverAllAbsorbs(n1, rest);
      AbsorbedTrans(n.u, n1.u, DeliverAll(n1, rest).u, [pkts[0]], rest);
      assert pkts == [pkts[0]] + rest;
    }
  }

  ghost predicate AllIn(pkts: seq<Pkt>, net: seq<Pkt>) {
    forall p :: p in pkts ==> p in net
  }

  /** The datagrams can be delivered at `n` one after the other. */
  ghost predicate Deliverable(n: Node, m: Node, pkts: seq<Pkt>) {
    Paired(n, m) && AllFresh(n.u, pkts) && AllIn(pkts, m.net)
  }

  lemma FirstAndRest(s: State, net: seq<Pkt>, pkts: seq<Pkt>)
    requires AllFresh(s, pkts) && AllIn(pkts, net) && pkts != []
    ensures Fresh(s, pkts[0].tags) && pkts[0] in net && AllFresh(s, pkts[1..]) && AllIn(pkts[1..], net)
  { }

  lemma DeliverFirst(n: Node, m: Node, pkts: seq<Pkt>)
    requires Deliverable(n, m, pkts) && pkts != []
    ensures Deliverable(NodeInput(n, pkts[0]), m, pkts[1..])
  {
    FirstAndRest(n.u, m.net, pkts);
    InputStep(n, m, pkts[0]);
    InputFrame(n.u, pkts[0].tags);
    FreshStable(n.u, InputParsed(Unbounded, n.u, Parsed(pkts[0].tags, 0)), pkts[1..]);
  }

  /** Delivering datagrams of the peer, none of them stale, keeps the invariant. */
  lemma {:induction false} DeliverAllKeeps(n: Node, m: Node, pkts: seq<Pkt>)
    requires Deliverable(n, m, pkts)
    ensures Paired(DeliverAll(n, pkts), m)
    decreases |pkts|
  {
    if pkts != [] {
      DeliverFirst(n, m, pkts);
      DeliverAllKeeps(NodeInput(n, pkts[0]), m, pkts[1..]);
    }
  }

  // ---------------------------------------------------------------- what a flush puts on the wire

  lemma {:induction false} FlattenHas(dss: seq<seq<Seg>>, g: Seg) returns (i: nat)
    requires g in Flatten(dss)
    ensures i < |dss| && g in dss[i]
  {
    if g in dss[0] {
      i := 0;
    } else {
      var j := FlattenHas(dss[1..], g);
      i := j + 1;
    }
  }

  /** Every segment of a flush is in one of its datagrams, and the other way round. */
  lemma OutHas(n: Node, g: Seg)
    requires NodeOk(n) && g in Flush(Unbounded, n.u).segs
    ensures exists p :: p in Out(n) && g in p.tags
  {
    hide NodeOk, Flush, Out, Pack;
    var ds := Pack(n.u.cfg.mtu, Flush(Unbounded, n.u).segs);
    OutTags(n);
    FlushSegsFit(n);
    SameConfig(n.u);
    PackProperties(n.u.cfg.mtu, Flush(Unbounded, n.u).segs);
    var i := FlattenHas(ds, g);
    assert Out(n)[i] in Out(n) && g in Out(n)[i].tags;
  }

  /** The tags of the datagrams are the segments of the flush, packed. */
  lemma OutTags(n: Node)
    requires NodeOk(n)
    ensures var ds := Pack(n.u.cfg.mtu, Flush(Unbounded, n.u).segs);
            |Out(n)| == |ds| && forall i :: 0 <= i < |ds| ==> Out(n)[i].tags == ds[i]
  {
    hide NodeOk, Flush, Emitted, Pack;
    EmittedAre(n);
  }

  lemma {:induction false} DueSegsHave(p: Pass, buf: seq<Unacked>, i: nat)
    requires i < |buf| && p.Why(buf[i]) != Hold
    ensures p.Touch(buf[i]).seg in p.DueSegs(buf)
    decreases |buf|
  {
    var n := |buf| - 1;
    if i < n {
      assert buf[..n][i] == buf[i];
      DueSegsHave(p, buf[..n], i);
    }
  }

  lemma TouchedIsSent(p: Pass, mid: seq<Unacked>, sn: int)
    requires forall x :: x in mid ==> p.Why(x) != Hold && x.seg.cmd == CMD_PUSH
    requires InBuf(p.TouchAll(mid), sn)
    ensures PushIn(p.DueSegs(mid), sn)
  {
    var x :| x in p.TouchAll(mid) && x.seg.sn == sn;
    var i :| 0 <= i < |mid| && p.TouchAll(mid)[i] == x;
    assert x == p.Touch(mid[i]) && mid[i] in mid;
    DueSegsHave(p, mid, i);
  }

  /** When every timer has run out, a flush transmits its whole send buffer. */
  lemma FlushSendsAll(s: State, sn: int)
    requires Ok(s) && AllDue(s) && InBuf(Flush(Unbounded, s).s.snd.buf, sn)
    ensures PushIn(Flush(Unbounded, s).segs, sn)
  {
    var p := FlushPass(s);
    var snd := FlushSender(Unbounded, s);
    assert forall x :: x in snd.buf ==> p.Why(x) != Hold && x.seg.cmd == CMD_PUSH by {
      AdmitKeeps(s, FlushWindow(s));
      forall x | x in snd.buf ensures p.Why(x) != Hold {
        var i :| 0 <= i < |snd.buf| && snd.buf[i] == x;
        MidIsDue(s, i);
      }
    }
    TouchedIsSent(p, snd.buf, sn);
    SentInFlush(s, snd, sn);
  }

  lemma SentInFlush(s: State, snd: Sender, sn: int)
    requires PushIn(FlushPass(s).DueSegs(snd.buf), sn)
    ensures PushIn(FlushSegs(s, snd), sn)
  {
    var g :| g in FlushPass(s).DueSegs(snd.buf) && g.cmd == CMD_PUSH && g.sn == sn;
    assert g in FlushSegs(s, snd);
  }

  lemma MidIsDue(s: State, i: nat)
    requires AllDue(s) && i < |FlushSender(Unbounded, s).buf|
    ensures FlushPass(s).Why(FlushSender(Unbounded, s).buf[i]) != Hold
  {
    AdmitForm(s, FlushWindow(s));
    if i < |s.snd.buf| { assert s.snd.buf[i] in s.snd.buf; }
  }

  lemma FlushSendsAcks(s: State, k: Ack)
    requires k in s.rcv.acks
    ensures AckIn(Flush(Unbounded, s).segs, k.sn)
  {
    var i :| 0 <= i < |s.rcv.acks| && s.rcv.acks[i] == k;
    var g := AckSegs(s)[i];
    assert g in FlushSegs(s, FlushSender(Unbounded, s));
  }

  lemma OutHasPush(n: Node, sn: int)
    requires NodeOk(n) && PushIn(Flush(Unbounded, n.u).segs, sn)
    ensures PushInAny(Out(n), sn)
  {
    var g :| g in Flush(Unbounded, n.u).segs && g.cmd == CMD_PUSH && g.sn == sn;
    OutHas(n, g);
    var p :| p in Out(n) && g in p.tags;
    assert PushIn(p.tags, sn);
  }

  lemma OutHasAck(n: Node, sn: int)
    requires NodeOk(n) && AckIn(Flush(Unbounded, n.u).segs, sn)
    ensures AckInAny(Out(n), sn)
  {
    var g :| g in Flush(Unbounded, n.u).segs && g.cmd == CMD_ACK && g.sn == sn;
    OutHas(n, g);
    var p :| p in Out(n) && g in p.tags;
    assert AckIn(p.tags, sn);
  }

  /** A data segment of a flush is one of the send window. */
  lemma FlushPushes(s: State, g: Seg)
    requires Ok(s) && g in Flush(Unbounded, s).segs && g.cmd == CMD_PUSH
    ensures s.snd.una <= g.sn
  {
    FlushSegKinds(s);
    FlushKeepsSender(s);
    var buf := Flush(Unbounded, s).s.snd.buf;
    assert FlushSegKind(s, buf, g);
    assert IsDataSeg(s, buf, g);
    var x :| x in buf && x.seg.sn == g.sn;
  }

  lemma FlushSegIsFresh(n: Node, m: Node, g: Seg)
    requires Paired(n, m) && AcksAbove(n.u, n.u.rcv.nxt - RECENT - SLACK) && g in Flush(Unbounded, n.u).segs
    ensures FreshSeg(m.u, g)
  {
    hide Paired, Flush;
    PairedGivesOk(n, m);
    FlushSegKinds(n.u);
    PeersClose(n, m);
    assert FlushSegKind(n.u, Flush(Unbounded, n.u).s.snd.buf, g);
    if g.cmd == CMD_PUSH { FlushPushes(n.u, g); }
  }

  /** How close the numbers of two peers are. */
  lemma PeersClose(n: Node, m: Node)
    requires Paired(n, m)
    ensures m.u.snd.nxt <= n.u.rcv.nxt + n.u.cfg.rcvWnd + m.u.cfg.sndWnd
    ensures m.u.rcv.nxt <= n.u.snd.una + 65536 && |m.u.rcv.queue| <= m.u.rcv.nxt
  {
    hide Link, NodeOk;
    PairedGivesOk(n, m);
    WindowsClose(m, n);
    WindowsClose(n, m);
    SenderSpan(n.u.cfg, n.u.snd);
  }

  /** What a flush just sent is not stale for the peer. */
  lemma OutIsFresh(n: Node, m: Node)
    requires Paired(n, m) && AcksAbove(n.u, n.u.rcv.nxt - RECENT - SLACK)
    ensures AllFresh(m.u, Out(n))
  {
    EmittedOk(n);
    forall p | p in Out(n) ensures Fresh(m.u, p.tags) {
      forall g | g in p.tags ensures FreshSeg(m.u, g) { FlushSegIsFresh(n, m, g); }
    }
  }

  lemma OutPushes(n: Node, sn: int)
    requires NodeOk(n) && PushInAny(Out(n), sn)
    ensures n.u.snd.una <= sn
  {
    EmittedOk(n);
    var p :| p in Out(n) && PushIn(p.tags, sn);
    var g :| g in p.tags && g.cmd == CMD_PUSH && g.sn == sn;
    FlushPushes(n.u, g);
  }

  /** After delivery, the peer's pending acks are still recent. */
  lemma StillRecent(n: Node, m: Node, t: State)
    requires Paired(n, m) && AcksAbove(m.u, m.u.rcv.nxt - RECENT) && Absorbed(m.u, t, Out(n)) && Ok(t)
    ensures AcksAbove(t, t.rcv.nxt - RECENT - 65536) && AcksAbove(t, t.rcv.nxt - RECENT - SLACK)
  {
    WindowsClose(n, m);
    SenderSpan(n.u.cfg, n.u.snd);
    assert t.rcv.nxt <= m.u.rcv.nxt + t.cfg.rcvWnd;
    forall k | k in t.rcv.acks ensures t.rcv.nxt - RECENT - 65536 <= k.sn {
      if k !in m.u.rcv.acks { OutPushes(n, k.sn); }
    }
  }

  /** The receiver has the segment `rcv_nxt` waits for only when its queue is full. */
  lemma HeldIsFull(wnd: nat, r: Receiver)
    requires RcvOk(wnd, r) && Held(r, r.nxt)
    ensures |r.queue| == wnd
  {
    var g :| g in r.buf && g.sn == r.nxt;
    assert r.buf[0] in r.buf;
  }

  // ---------------------------------------------------------------- the round

  /** Everything below the window end that was in the send buffer has been listed. */
  lemma AllListed(a: Node, b: Node, t: State, sn: int)
    requires Paired(a, b) && AllDue(a.u) && Absorbed(b.u, t, Out(a))
    requires InBuf(Flush(Unbounded, a.u).s.snd.buf, sn) && sn < b.u.rcv.nxt + b.u.cfg.rcvWnd
    ensures AckListed(t.rcv, sn)
  {
    FlushSendsAll(a.u, sn);
    OutHasPush(a, sn);
  }

  lemma ListedIsSent(b: Node, sn: int)
    requires NodeOk(b) && AckListed(b.u.rcv, sn)
    ensures AckInAny(Out(b), sn)
  {
    var k :| k in b.u.rcv.acks && k.sn == sn;
    FlushSendsAcks(b.u, k);
    OutHasAck(b, sn);
  }

  lemma PairedGivesOk(n: Node, m: Node)
    requires Paired(n, m)
    ensures Ok(n.u) && Ok(m.u)
  { }

  lemma PairedSym(n: Node, m: Node)
    requires Paired(n, m)
    ensures Paired(m, n)
  { }

  /** What a flush just sent can be delivered. */
  lemma FlushIsDeliverable(n: Node, m: Node)
    requires Paired(n, m) && AcksAbove(n.u, n.u.rcv.nxt - RECENT - SLACK)
    ensures Deliverable(m, NodeFlush(n), Out(n))
  {
    FlushStep(n, m);
    OutIsFresh(n, m);
    PairedSym(NodeFlush(n), m);
  }

  /** A flush, and the delivery of all it sent. */
  lemma FlushAndDeliver(n: Node, m: Node) returns (n1: Node, m1: Node)
    requires Paired(n, m) && AcksAbove(n.u, n.u.rcv.nxt - RECENT - SLACK)
    ensures n1 == NodeFlush(n) && m1 == DeliverAll(m, Out(n))
    ensures Paired(n1, m1) && Absorbed(m.u, m1.u, Out(n))
  {
    hide Paired, Absorbed, AcksAbove, NodeFlush, Out;
    n1 := NodeFlush(n);
    FlushIsDeliverable(n, m);
    PairedGivesOk(n, m);
    DeliverAllKeeps(m, n1, Out(n));
    DeliverAllAbsorbs(m, Out(n));
    m1 := DeliverAll(m, Out(n));
    PairedSym(m1, n1);
  }

  lemma SameReceiver(n: Node)
    requires NodeOk(n)
    ensures NodeFlush(n).u.rcv == n.u.rcv.(acks := []) && NodeFlush(n).u.cfg == n.u.cfg
  { }

  /** The state of the sender once every timer has run out, its flush was delivered, and
      the peer's answering flush was delivered back: nothing below the peer's window end is
      left in the send buffer, and `snd_una` has moved past all of it. */
  ghost predicate Cleared(a: State, end: int) {
    && (forall sn: int :: InBuf(a.snd.buf, sn) ==> sn >= end)
    && a.snd.una >= Min(a.snd.nxt, end)
  }

  /** The first half: `b` has everything and is about to acknowledge it. */
  lemma FirstHalf(a: Node, b: Node, end: int) returns (a1: Node, b1: Node)
    requires Paired(a, b) && AllDue(a.u) && end == b.u.rcv.nxt + b.u.cfg.rcvWnd
    requires AcksAbove(a.u, a.u.rcv.nxt - RECENT) && AcksAbove(b.u, b.u.rcv.nxt - RECENT)
    ensures a1 == NodeFlush(a) && b1 == DeliverAll(b, Out(a))
    ensures Paired(b1, a1) && AcksAbove(b1.u, b1.u.rcv.nxt - RECENT - SLACK)
    ensures Acknowledged(a1.u, Out(b1), end)
  {
    a1, b1 := FlushAndDeliver(a, b);
    PairedSym(a1, b1);
    StillRecent(a, b, b1.u);
    RoundAcked(a, b, b1, a1.u, end);
  }

  /** The second half: the acknowledgements come back. */
  lemma SecondHalf(a1: Node, b1: Node, end: int) returns (a2: Node)
    requires Paired(b1, a1) && AcksAbove(b1.u, b1.u.rcv.nxt - RECENT - SLACK)
    requires Acknowledged(a1.u, Out(b1), end)
    ensures a2 == DeliverAll(a1, Out(b1)) && a2.u.snd.nxt == a1.u.snd.nxt && Cleared(a2.u, end)
  {
    var b2;
    b2, a2 := FlushAndDeliver(b1, a1);
    ClearedBy(a1.u, a2.u, Out(b1), end);
  }

  /** Progress. In any state of a connection, let every timer of `a` have run out: `a`
      flushes, `b` gets all of it, `b` flushes, `a` gets all of that. Then every segment
      below the end of `b`'s window has left `a`'s send buffer. */
  lemma RoundClearsWindow(a: Node, b: Node) returns (a1: Node, b1: Node, a2: Node)
    requires Paired(a, b) && AllDue(a.u)
    requires AcksAbove(a.u, a.u.rcv.nxt - RECENT) && AcksAbove(b.u, b.u.rcv.nxt - RECENT)
    ensures a1 == NodeFlush(a) && b1 == DeliverAll(b, Out(a)) && a2 == DeliverAll(a1, Out(b1))
    ensures a2.u.snd.nxt == a1.u.snd.nxt && Cleared(a2.u, b.u.rcv.nxt + b.u.cfg.rcvWnd)
  {
    hide *;
    a1, b1 := FirstHalf(a, b, b.u.rcv.nxt + b.u.cfg.rcvWnd);
    a2 := SecondHalf(a1, b1, b.u.rcv.nxt + b.u.cfg.rcvWnd);
  }

  /** The same round leaves the connection in order, so the C states follow the unbounded ones. */
  lemma RoundStaysPaired(a: Node, b: Node) returns (a2: Node, b2: Node)
    requires Paired(a, b)
    requires AcksAbove(a.u, a.u.rcv.nxt - RECENT) && AcksAbove(b.u, b.u.rcv.nxt - RECENT)
    ensures var b1 := DeliverAll(b, Out(a));
            a2 == DeliverAll(NodeFlush(a), Out(b1)) && b2 == NodeFlush(b1) && Paired(b2, a2)
  {
    var a1, b1 := FlushAndDeliver(a, b);
    StillRecent(a, b, b1.u);
    PairedSym(a1, b1);
    b2, a2 := FlushAndDeliver(b1, a1);
  }

  /** Every number below `end` in the send buffer is named by an ack in the datagrams. */
  ghost predicate Acknowledged(u: State, pkts: seq<Pkt>, end: int) {
    forall sn: int :: InBuf(u.snd.buf, sn) && sn < end ==> AckInAny(pkts, sn)
  }

  lemma RoundAcked(a: Node, b: Node, b1: Node, u1: State, end: int)
    requires Paired(a, b) && AllDue(a.u) && NodeOk(b1) && Absorbed(b.u, b1.u, Out(a))
    requires u1 == Flush(Unbounded, a.u).s && end == b.u.rcv.nxt + b.u.cfg.rcvWnd
    ensures Acknowledged(u1, Out(b1), end)
  {
    forall sn: int | InBuf(u1.snd.buf, sn) && sn < end ensures AckInAny(Out(b1), sn) {
      AckedInRound(a, b, b1, sn);
    }
  }

  /** A number below the window end has gone through the peer's ack list. */
  lemma AckedInRound(a: Node, b: Node, b1: Node, sn: int)
    requires Paired(a, b) && AllDue(a.u) && NodeOk(b1) && Absorbed(b.u, b1.u, Out(a))
    requires InBuf(Flush(Unbounded, a.u).s.snd.buf, sn) && sn < b.u.rcv.nxt + b.u.cfg.rcvWnd
    ensures AckInAny(Out(b1), sn)
  {
    AllListed(a, b, b1.u, sn);
    ListedIsSent(b1, sn);
  }

  lemma ClearedBy(u1: State, u2: State, pkts: seq<Pkt>, end: int)
    requires Ok(u2) && Absorbed(u1, u2, pkts)
    requires Acknowledged(u1, pkts, end)
    ensures Cleared(u2, end)
  {
    if u2.snd.buf != [] { assert u2.snd.buf[0] in u2.snd.buf && InBuf(u2.snd.buf, u2.snd.una); }
  }

  lemma BaseStays(s: State, t: State, pkts: seq<Pkt>)
    requires Absorbed(s, t, pkts)
    ensures t.cfg == s.cfg && t.rcv.nxt - |t.rcv.queue| == s.rcv.nxt - |s.rcv.queue| && s.rcv.nxt <= t.rcv.nxt
    ensures t.snd.nxt == s.snd.nxt
  { }

  /** All that was numbered and fits the receiver's queue is in it. */
  lemma Arrived(a: Node, b: Node, a1: Node, b1: Node)
    requires Paired(a, b) && AllDue(a.u) && a1 == NodeFlush(a)
    requires Paired(a1, b1) && Absorbed(b.u, b1.u, Out(a))
    ensures b1.u.rcv.nxt >= Min(a1.u.snd.nxt, b.u.rcv.nxt - |b.u.rcv.queue| + b.u.cfg.rcvWnd)
  {
    hide Paired, AllDue, Absorbed, NodeFlush, Out, InBuf, AckListed;
    var sn := b1.u.rcv.nxt;
    BaseStays(b.u, b1.u, Out(a));
    if sn < Min(a1.u.snd.nxt, b.u.rcv.nxt - |b.u.rcv.queue| + b.u.cfg.rcvWnd) {
      if InBuf(a1.u.snd.buf, sn) { ListedIsBelow(a, b, a1, b1, sn); }
      PairedHolds(a1, b1, sn);
    }
  }

  lemma ListedIsBelow(a: Node, b: Node, a1: Node, b1: Node, sn: int)
    requires Paired(a, b) && AllDue(a.u) && a1 == NodeFlush(a) && Absorbed(b.u, b1.u, Out(a))
    requires InBuf(a1.u.snd.buf, sn) && sn < b.u.rcv.nxt + b.u.cfg.rcvWnd
    ensures AckListed(b1.u.rcv, sn)
  {
    hide Paired, AllDue, Absorbed, Out, Flush;
    AllListed(a, b, b1.u, sn);
  }

  /** The peer is not waiting for a number it acknowledges, nor for one its sender forgot,
      unless its queue is full. */
  lemma PairedHolds(n: Node, m: Node, sn: int)
    requires Paired(n, m) && sn == m.u.rcv.nxt < n.u.snd.nxt
    requires InBuf(n.u.snd.buf, sn) ==> AckListed(m.u.rcv, sn)
    ensures |m.u.rcv.queue| == m.u.cfg.rcvWnd
  {
    hide DataOnWire, AcksOnWire, Received, Delivered, SndOk, NetOk, Clocked, BufMatches;
    if InBuf(n.u.snd.buf, sn) {
      var k :| k in m.u.rcv.acks && k.sn == sn;
    }
    assert Held(m.u.rcv, sn);
    HeldIsFull(m.u.cfg.rcvWnd, m.u.rcv);
  }

  // ---------------------------------------------------------------- the round as a run

  /** Delivering datagrams one after the other is a run. */
  lemma {:induction false} DeliverRun(s: Sys, atA: bool, pkts: seq<Pkt>) returns (run: seq<Step>)
    requires if atA then Deliverable(s.a, s.b, pkts) else Deliverable(s.b, s.a, pkts)
    ensures IsRun(s, run)
    ensures Exec(s, run) == if atA then s.(a := DeliverAll(s.a, pkts)) else s.(b := DeliverAll(s.b, pkts))
    decreases |pkts|
  {
    hide NodeInput, Paired;
    if pkts == [] {
      run := [];
    } else {
      var st := Step(atA, InputE(pkts[0]));
      if atA {
        FirstAndRest(s.a.u, s.b.net, pkts);
        DeliverFirst(s.a, s.b, pkts);
      } else {
        FirstAndRest(s.b.u, s.a.net, pkts);
        DeliverFirst(s.b, s.a, pkts);
      }
      var rest := DeliverRun(Apply(s, st), atA, pkts[1..]);
      run := [st] + rest;
      assert run[0] == st && run[1..] == rest;
    }
  }

  lemma FlushRun(s: Sys, atA: bool) returns (run: seq<Step>)
    ensures IsRun(s, run)
    ensures Exec(s, run) == if atA then s.(a := NodeFlush(s.a)) else s.(b := NodeFlush(s.b))
  {
    hide NodeFlush, IsRun, Exec;
    run := [Step(atA, FlushE)];
    OneStep(s, run[0]);
  }
}
