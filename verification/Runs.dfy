/** Whole runs of the two-endpoint system: every event keeps the invariant, so the
    connection theorems hold in every reachable state. */
module Runs {
  import opened Serial
  import opened Wire
  import opened Engine
  import opened Window
  import opened Refinement
  import opened Sending
  import opened System
  import opened Safety
  import Congestion

  /** A node and its peer, in working order in both directions. */
  ghost predicate Paired(n: Node, m: Node) {
    NodeOk(n) && NodeOk(m) && n.u.cfg.conv == m.u.cfg.conv && Link(n, m) && Link(m, n)
  }

  // ---------------------------------------------------------------- send, recv

  lemma SendAccounted(cfg: Config, log: seq<Frag>, snd: Sender, accepted: seq<byte>, data: seq<byte>)
    requires Accounted(cfg, log, snd, accepted)
    ensures var r := Send(cfg, snd.queue, data);
            r.taken <= |data| && Accounted(cfg, log, snd.(queue := r.queue), accepted + data[..r.taken])
  {
    var q := snd.queue;
    var r := Send(cfg, q, data);
    SendBytes(cfg, q, data);
    SendKeepsSizes(cfg, q, data);
    BytesConcat(log, q);
    BytesConcat(log, r.queue);
    assert Bytes(log) + (Bytes(q) + data[..r.taken]) == Bytes(log) + Bytes(q) + data[..r.taken];
  }

  lemma SendMirrors(u: State, queue: seq<Frag>)
    requires Ok(u)
    ensures var u1 := u.(snd := u.snd.(queue := queue));
            Ok(u1) && Wrap(u1) == Wrap(u).(snd := Wrap(u).snd.(queue := queue))
  { }

  lemma SendStep(n: Node, m: Node, data: seq<byte>)
    requires Paired(n, m)
    ensures Paired(NodeSend(n, data), m)
  {
    SendAccounted(n.u.cfg, n.log, n.u.snd, n.accepted, data);
    SendMirrors(n.u, Send(n.u.cfg, n.u.snd.queue, data).queue);
  }

  lemma RecvLink(log: seq<Frag>, sndNet: seq<Pkt>, buf: seq<Unacked>, s: State, rcvNet: seq<Pkt>,
                 delivered: seq<byte>, len: int)
    requires Ok(s) && LinkOf(log, sndNet, buf, s.rcv, rcvNet, delivered)
    ensures var r := Recv(Unbounded, s, len);
            LinkOf(log, sndNet, buf, r.s.rcv, rcvNet,
                   if len >= 0 && r.code >= 0 then delivered + r.data else delivered)
  {
    hide Recv, PeekSize, MergeCount, Merged, Drain, RcvOk, RcvShape;
    var r := Recv(Unbounded, s, len);
    RecvKeeps(s, len);
    RecvDelivers(log, s, len);
    HoldsMore(log, buf, rcvNet, s.rcv, r.s.rcv);
    var base0, base1 := s.rcv.nxt - |s.rcv.queue|, r.s.rcv.nxt - |r.s.rcv.queue|;
    assert log[..base1] == log[..base0] + log[base0..base1];
    BytesConcat(log[..base0], log[base0..base1]);
  }

  lemma RecvFrame(s: State, len: int)
    requires RcvOk(s.cfg.rcvWnd, s.rcv)
    ensures var t := Recv(Unbounded, s, len).s;
            t.cfg == s.cfg && t.snd == s.snd && t.ctl.current == s.ctl.current && t.rcv.acks == s.rcv.acks
  {
    RecvKeeps(s, len);
  }

  lemma RecvStep(n: Node, m: Node, len: int)
    requires Paired(n, m)
    ensures Paired(NodeRecv(n, len), m)
  {
    RecvWraps(n.u, len);
    RecvKeeps(n.u, len);
    RecvFrame(n.u, len);
    RecvLink(m.log, m.net, m.u.snd.buf, n.u, n.net, n.delivered, len);
    assert NodeOk(NodeRecv(n, len));
  }

  // ---------------------------------------------------------------- flush, update

  lemma {:induction false} FlattenMember(dss: seq<seq<Seg>>, i: nat, g: Seg)
    requires i < |dss| && g in dss[i]
    ensures g in Flatten(dss)
  {
    if i > 0 { FlattenMember(dss[1..], i - 1, g); }
  }

  /** Everything a flush may send fits the wire and the mtu. */
  lemma FlushSegsFit(n: Node)
    requires NodeOk(n)
    ensures var f := Flush(Unbounded, n.u);
            forall g :: g in f.segs ==> g.Wrap().Fits() && g.conv == n.u.cfg.conv && g.Size() <= n.u.cfg.mtu
  {
    hide FlushSegs, FlushControl, FlushSender, Numbered, Pack;
    var s := n.u;
    var f := Flush(Unbounded, s);
    FlushSegKinds(s);
    FlushNumbers(s);
    var k := AdmitCount(s, FlushWindow(s));
    NumberedMatches(s, n.log, f.s.snd.buf, k);
    var log1 := n.log + s.snd.queue[..k];
    forall x | x in log1 ensures FragOk(s.cfg, x) { }
    forall g | g in f.segs ensures g.Wrap().Fits() && g.conv == s.cfg.conv && g.Size() <= s.cfg.mtu {
      assert FlushSegKind(s, f.s.snd.buf, g);
      if IsDataSeg(s, f.s.snd.buf, g) {
        var u :| u in f.s.snd.buf && u.seg.sn == g.sn && u.seg.Pay() == g.Pay();
        assert log1[g.sn] in log1;
        assert FragOk(s.cfg, g.Pay());
      }
    }
  }

  lemma DatagramOk(cfg: Config, ds: seq<seq<Seg>>, segs: seq<Seg>, i: nat)
    requires i < |ds| && Flatten(ds) == segs && ds[i] != [] && TotalSize(ds[i]) <= cfg.mtu
    requires forall g :: g in segs ==> g.Wrap().Fits() && g.conv == cfg.conv
    ensures PktOk(cfg, Pkt(EncodeAll(WrapSegs(ds[i])), ds[i])) && forall g :: g in ds[i] ==> g in segs
  {
    EncodeAllSize(WrapSegs(ds[i]));
    TotalSizeWraps(ds[i]);
    forall g | g in ds[i] ensures g in segs { FlattenMember(ds, i, g); }
  }

  lemma SameConfig(s: State)
    ensures Flush(Unbounded, s).s.cfg == s.cfg
  { }

  /** The datagrams of a flush are its segments, packed and encoded. */
  lemma EmittedAre(n: Node)
    requires NodeOk(n)
    ensures var es := Emitted(Flush(Wrapping, n.c), Flush(Unbounded, n.u));
            var ds := Pack(n.u.cfg.mtu, Flush(Unbounded, n.u).segs);
            |es| == |ds| && forall i :: 0 <= i < |ds| ==> es[i] == Pkt(EncodeAll(WrapSegs(ds[i])), ds[i])
  {
    hide Flush, Pack, WrapSegs;
    FlushWraps(n.u) by { hide *; }
    SameConfig(n.u);
    PackWraps(n.u.cfg.mtu, Flush(Unbounded, n.u).segs);
  }

  /** The datagrams of a flush: well-formed, and carrying the segments of the flush. */
  lemma EmittedOk(n: Node)
    requires NodeOk(n)
    ensures var c, u := Flush(Wrapping, n.c), Flush(Unbounded, n.u);
            forall p :: p in Emitted(c, u) ==> PktOk(n.u.cfg, p) && forall g :: g in p.tags ==> g in u.segs
  {
    hide NodeOk, Flush, Emitted, Pack, PktOk;
    var c, u := Flush(Wrapping, n.c), Flush(Unbounded, n.u);
    var ds := Pack(n.u.cfg.mtu, u.segs);
    FlushSegsFit(n);
    PackProperties(n.u.cfg.mtu, u.segs);
    EmittedAre(n);
    forall p | p in Emitted(c, u) ensures PktOk(n.u.cfg, p) && forall g :: g in p.tags ==> g in u.segs {
      var i :| 0 <= i < |Emitted(c, u)| && Emitted(c, u)[i] == p;
      DatagramOk(n.u.cfg, ds, u.segs, i);
    }
  }

  /** What the segments of a flush say is true. */
  lemma FlushSegsSound(s: State, log: seq<Frag>, mlog: seq<Frag>)
    requires Ok(s) && |log| == s.snd.nxt && BufMatches(log, s.snd.buf) && AcksHeld(mlog, s.rcv)
    ensures var log1 := log + s.snd.queue[..AdmitCount(s, FlushWindow(s))];
            forall g :: g in Flush(Unbounded, s).segs ==>
              && (g.cmd == CMD_PUSH ==> IsNumbered(log1, g))
              && g.una == s.rcv.nxt && (g.cmd == CMD_ACK ==> g.sn < |mlog| && Held(s.rcv, g.sn))
  {
    FlushSegKinds(s);
    FlushNumbers(s);
    var k := AdmitCount(s, FlushWindow(s));
    var buf := Flush(Unbounded, s).s.snd.buf;
    NumberedMatches(s, log, buf, k);
    var log1 := log + s.snd.queue[..k];
    forall g | FlushSegKind(s, buf, g)
      ensures g.cmd == CMD_PUSH ==> IsNumbered(log1, g)
      ensures g.una == s.rcv.nxt && (g.cmd == CMD_ACK ==> g.sn < |mlog| && Held(s.rcv, g.sn))
    {
      if IsDataSeg(s, buf, g) {
        var u :| u in buf && u.seg.sn == g.sn && u.seg.Pay() == g.Pay();
      }
    }
  }

  lemma EmittedSound(n: Node, mlog: seq<Frag>, net: seq<Pkt>)
    requires NodeOk(n) && AcksHeld(mlog, n.u.rcv)
    requires net == Emitted(Flush(Wrapping, n.c), Flush(Unbounded, n.u))
    ensures DataOnWire(n.log + n.u.snd.queue[..AdmitCount(n.u, FlushWindow(n.u))], net)
    ensures AcksOnWire(mlog, net, n.u.rcv.(acks := []))
  {
    EmittedOk(n);
    FlushSegsSound(n.u, n.log, mlog);
  }

  lemma NetGrows(log: seq<Frag>, net: seq<Pkt>, more: seq<Pkt>, r: Receiver, cfg: Config)
    ensures DataOnWire(log, net) && DataOnWire(log, more) ==> DataOnWire(log, net + more)
    ensures AcksOnWire(log, net, r) && AcksOnWire(log, more, r) ==> AcksOnWire(log, net + more, r)
    ensures NetOk(cfg, net) && NetOk(cfg, more) ==> NetOk(cfg, net + more)
  { }

  lemma FlushAccounted(cfg: Config, log: seq<Frag>, s: State, buf: seq<Unacked>, n: nat, accepted: seq<byte>)
    requires Accounted(cfg, log, s.snd, accepted) && Numbered(s, buf, n)
    ensures Accounted(cfg, log + s.snd.queue[..n], Sender(s.snd.una, s.snd.nxt + n, s.snd.queue[n..], buf), accepted)
  {
    NumberedMatches(s, log, buf, n);
    assert (log + s.snd.queue[..n]) + s.snd.queue[n..] == log + s.snd.queue;
  }

  lemma FlushFrame(s: State)
    requires Ok(s)
    ensures var t := Flush(Unbounded, s).s;
            var k := AdmitCount(s, FlushWindow(s));
            && Ok(t) && t.cfg == s.cfg && t.rcv == s.rcv.(acks := []) && t.ctl.current == s.ctl.current
            && t.snd == Sender(s.snd.una, s.snd.nxt + k, s.snd.queue[k..], t.snd.buf)
            && Numbered(s, t.snd.buf, k)
  {
    FlushKeeps(s);
    FlushKeepsSender(s);
    FlushNumbers(s);
    Congestion.FlushControlFrame(s, FlushSender(Unbounded, s));
  }

  lemma FlushLog(n: Node)
    requires Ok(n.u)
    ensures NodeFlush(n).log == n.log + n.u.snd.queue[..AdmitCount(n.u, FlushWindow(n.u))]
  {
    FlushKeepsSender(n.u);
  }

  lemma FlushNet(n: Node)
    requires NodeOk(n)
    ensures NetOk(n.u.cfg, n.net + Emitted(Flush(Wrapping, n.c), Flush(Unbounded, n.u)))
  {
    EmittedOk(n);
    NetGrows(n.log, n.net, Emitted(Flush(Wrapping, n.c), Flush(Unbounded, n.u)), n.u.rcv, n.u.cfg);
  }

  lemma FlushMirrors(n: Node)
    requires NodeOk(n)
    ensures var c, u := Flush(Wrapping, n.c).s, Flush(Unbounded, n.u).s;
            && Mirrors(c, u) && u.cfg == n.u.cfg && Clocked(u)
            && Accounted(u.cfg, n.log + n.u.snd.queue[..AdmitCount(n.u, FlushWindow(n.u))], u.snd, n.accepted)
  {
    FlushWraps(n.u);
    FlushFrame(n.u);
    FlushAccounted(n.u.cfg, n.log, n.u, Flush(Unbounded, n.u).s.snd.buf, AdmitCount(n.u, FlushWindow(n.u)), n.accepted);
  }

  lemma FlushNode(n: Node)
    requires NodeOk(n)
    ensures NodeOk(NodeFlush(n))
  {
    FlushLog(n);
    FlushNet(n);
    FlushMirrors(n);
  }

  /** Towards the peer: a longer log, a fuller send buffer, more data on the wire. */
  lemma FlushLinkOut(s: State, log: seq<Frag>, n: nat, net: seq<Pkt>, more: seq<Pkt>, buf: seq<Unacked>,
                     r: Receiver, rcvNet: seq<Pkt>, delivered: seq<byte>)
    requires LinkOf(log, net, s.snd.buf, r, rcvNet, delivered)
    requires |log| == s.snd.nxt && Numbered(s, buf, n) && DataOnWire(log + s.snd.queue[..n], more)
    ensures LinkOf(log + s.snd.queue[..n], net + more, buf, r, rcvNet, delivered)
  {
    var log1 := log + s.snd.queue[..n];
    LogGrows(log, s.snd.queue[..n], net, r);
    LogGrows(log, s.snd.queue[..n], rcvNet, r);
    assert DataOnWire(log1, net + more);
    NumberedHas(s, buf, n);
    assert log1[..r.nxt - |r.queue|] == log[..r.nxt - |r.queue|];
  }

  /** From the peer: the pending acks are on the wire now. */
  lemma FlushLinkIn(log: seq<Frag>, sndNet: seq<Pkt>, buf: seq<Unacked>, r: Receiver, net: seq<Pkt>, more: seq<Pkt>,
                    delivered: seq<byte>)
    requires LinkOf(log, sndNet, buf, r, net, delivered) && AcksOnWire(log, more, r.(acks := []))
    ensures LinkOf(log, sndNet, buf, r.(acks := []), net + more, delivered)
  {
    var d := r.(acks := []);
    HoldsMore(log, buf, net, r, d);
    assert AcksOnWire(log, net + more, d);
  }

  lemma FlushStep(n: Node, m: Node)
    requires Paired(n, m)
    ensures Paired(NodeFlush(n), m)
  {
    FlushNode(n);
    FlushLog(n);
    FlushFrame(n.u);
    var k := AdmitCount(n.u, FlushWindow(n.u));
    var more := Emitted(Flush(Wrapping, n.c), Flush(Unbounded, n.u));
    EmittedSound(n, m.log, more);
    FlushLinkOut(n.u, n.log, k, n.net, more, Flush(Unbounded, n.u).s.snd.buf, m.u.rcv, m.net, m.delivered);
    FlushLinkIn(m.log, m.net, m.u.snd.buf, n.u.rcv, n.net, more, n.delivered);
  }

  lemma TickClock(cfg: Config, ctl: Control, now: nat)
    ensures UpdateTick(cfg, ctl, now).ctl.current == now
  { }

  lemma TickStep(n: Node, m: Node, ctl: Control)
    requires Paired(n, m) && ctl.current < TWO32
    ensures Paired(n.(c := n.c.(ctl := ctl), u := n.u.(ctl := ctl)), m)
  {
    var n1 := n.(c := n.c.(ctl := ctl), u := n.u.(ctl := ctl));
    assert NodeOk(n1);
  }

  lemma UpdateStep(n: Node, m: Node, now: nat)
    requires Paired(n, m) && now < TWO32
    ensures Paired(NodeUpdate(n, now), m)
  {
    var t := UpdateTick(n.u.cfg, n.u.ctl, now);
    TickClock(n.u.cfg, n.u.ctl, now);
    TickStep(n, m, t.ctl);
    if t.due { FlushStep(n.(c := n.c.(ctl := t.ctl), u := n.u.(ctl := t.ctl)), m); }
  }

  // ---------------------------------------------------------------- input

  /** `snd_una` never passes the first segment the peer does not hold. */
  lemma UnaIsHeld(n: Node, m: Node, sn: nat)
    requires Paired(n, m) && sn < n.u.snd.una
    ensures Held(m.u.rcv, sn)
  {
    SenderSpan(n.u.cfg, n.u.snd);
    assert !InBuf(n.u.snd.buf, sn);
  }

  /** The sender's window never runs ahead of the receiver's by more than both windows. */
  lemma WindowsClose(n: Node, m: Node)
    requires Paired(n, m)
    ensures n.u.snd.una <= m.u.rcv.nxt + m.u.cfg.rcvWnd
    ensures m.u.rcv.nxt <= n.u.snd.nxt <= m.u.rcv.nxt + m.u.cfg.rcvWnd + n.u.cfg.sndWnd
  {
    var edge := m.u.rcv.nxt + m.u.cfg.rcvWnd;
    if n.u.snd.una > edge { UnaIsHeld(n, m, edge); }
    SenderSpan(n.u.cfg, n.u.snd);
  }

  /** `snd_una` runs ahead of the peer's `rcv_nxt` only past a segment parked behind a full
      receive queue: with room in the queue it never does. */
  lemma UnaBehind(n: Node, m: Node)
    requires Paired(n, m)
    ensures n.u.snd.una > m.u.rcv.nxt ==> |m.u.rcv.queue| == m.u.cfg.rcvWnd && Has(m.u.rcv.buf, m.u.rcv.nxt)
    ensures |m.u.rcv.queue| < m.u.cfg.rcvWnd ==> n.u.snd.una <= m.u.rcv.nxt
  {
    var r := m.u.rcv;
    if n.u.snd.una > r.nxt {
      UnaIsHeld(n, m, r.nxt);
      var g :| g in r.buf && g.sn == r.nxt;
      assert r.buf[0] in r.buf;
    }
  }

  lemma PktSound(n: Node, m: Node, pkt: Pkt)
    requires Paired(n, m) && pkt in m.net
    ensures forall g :: g in pkt.tags ==> Sound(n.log, m.log, m.u.rcv, g)
  {
    forall g | g in pkt.tags ensures Sound(n.log, m.log, m.u.rcv, g) {
      assert g.Wrap().Fits();
    }
  }

  /** A datagram that is not stale is close enough for 32-bit comparison: the other
      bounds follow from the invariant. */
  lemma FreshIsTimely(n: Node, m: Node, pkt: Pkt)
    requires Paired(n, m) && pkt in m.net && Fresh(n.u, pkt.tags)
    ensures AllTimely(n.u, pkt.tags)
  {
    PktSound(n, m, pkt);
    WindowsClose(m, n);
    WindowsClose(n, m);
    SenderSpan(m.u.cfg, m.u.snd);
    forall i | 0 <= i < |pkt.tags| ensures Timely(n.u, pkt.tags[i]) {
      assert pkt.tags[i] in pkt.tags;
      assert Sound(n.log, m.log, m.u.rcv, pkt.tags[i]);
    }
  }

  /** The decode loop finds the wrapped tags in the bytes. */
  lemma PktDecodes(cfg: Config, conv: nat, pkt: Pkt)
    requires PktOk(cfg, pkt) && conv == cfg.conv
    ensures DecodeAll(conv, pkt.bytes) == Parsed(WrapSegs(pkt.tags), 0) && |pkt.bytes| >= OVERHEAD
  {
    var gs := WrapSegs(pkt.tags);
    forall i | 0 <= i < |gs| ensures gs[i].Fits() && gs[i].conv == conv {
      assert pkt.tags[i] in pkt.tags;
    }
    DecodeAllRoundTrip(conv, gs);
  }

  /** The C program parses and processes the datagram as the unbounded engine processes
      its tags. */
  lemma InputRefines(n: Node, m: Node, pkt: Pkt)
    requires Paired(n, m) && pkt in m.net && Fresh(n.u, pkt.tags)
    ensures Input(Wrapping, n.c, pkt.bytes) == Inputting(Wrap(InputParsed(Unbounded, n.u, Parsed(pkt.tags, 0))), 0)
  {
    FreshIsTimely(n, m, pkt);
    PktDecodes(m.u.cfg, n.u.cfg.conv, pkt);
    InputWraps(n.u, Parsed(pkt.tags, 0));
  }

  /** What a datagram does not touch. */
  lemma InputFrame(s: State, gs: seq<Seg>)
    requires Ok(s)
    ensures var t := InputParsed(Unbounded, s, Parsed(gs, 0));
            && t.cfg == s.cfg && t.snd.nxt == s.snd.nxt && t.snd.queue == s.snd.queue
            && t.rcv.nxt - |t.rcv.queue| == s.rcv.nxt - |s.rcv.queue|
  {
    InputSegsKeep(s, gs);
    InputSegsQueue(s, gs);
    var t := InputSegs(Unbounded, s, gs);
    var m := MaxAck(Unbounded, gs);
    if m.Some? { ParseFastAckKeeps(t.cfg, t.snd, m.value); }
  }

  lemma {:induction false} InputSegsQueue(s: State, gs: seq<Seg>)
    ensures InputSegs(Unbounded, s, gs).snd.queue == s.snd.queue
    decreases |gs|
  {
    if gs != [] { InputSegsQueue(s, gs[..|gs| - 1]); }
  }

  /** Towards the peer: only held segments left the send buffer. */
  lemma InputLinkOut(log: seq<Frag>, net: seq<Pkt>, buf: seq<Unacked>, buf1: seq<Unacked>, r: Receiver,
                     rcvNet: seq<Pkt>, delivered: seq<byte>)
    requires LinkOf(log, net, buf, r, rcvNet, delivered) && NothingLost(log, buf1, r)
    ensures LinkOf(log, net, buf1, r, rcvNet, delivered)
  { }

  /** From the peer: more is held, nothing more is delivered yet. */
  lemma InputLinkIn(log: seq<Frag>, sndNet: seq<Pkt>, buf: seq<Unacked>, r: Receiver, d: Receiver, net: seq<Pkt>,
                    delivered: seq<byte>)
    requires LinkOf(log, sndNet, buf, r, net, delivered)
    requires Received(log, d) && NothingLost(log, buf, d) && AcksHeld(log, d)
    requires r.nxt <= d.nxt && d.nxt - |d.queue| == r.nxt - |r.queue| && forall sn: int :: Held(r, sn) ==> Held(d, sn)
    ensures LinkOf(log, sndNet, buf, d, net, delivered)
  {
    HoldsMore(log, buf, net, r, d);
  }

  lemma InputWorks(n: Node, m: Node, pkt: Pkt)
    requires Paired(n, m) && pkt in m.net
    ensures var u1 := InputParsed(Unbounded, n.u, Parsed(pkt.tags, 0));
            && Working(n.log, m.log, m.u.snd.buf, m.u.rcv, u1) && n.u.rcv.nxt <= u1.rcv.nxt
            && (forall sn: int :: Held(n.u.rcv, sn) ==> Held(u1.rcv, sn))
  {
    PktSound(n, m, pkt);
    assert Working(n.log, m.log, m.u.snd.buf, m.u.rcv, n.u);
    InputSound(n.log, m.log, m.u.snd.buf, m.u.rcv, n.u, pkt.tags);
  }

  lemma InputNode(n: Node, m: Node, pkt: Pkt)
    requires Paired(n, m) && pkt in m.net && Fresh(n.u, pkt.tags)
    ensures NodeOk(NodeInput(n, pkt))
  {
    InputRefines(n, m, pkt);
    InputWorks(n, m, pkt);
    InputFrame(n.u, pkt.tags);
  }

  lemma InputStep(n: Node, m: Node, pkt: Pkt)
    requires Paired(n, m) && pkt in m.net && Fresh(n.u, pkt.tags)
    ensures Paired(NodeInput(n, pkt), m)
  {
    InputNode(n, m, pkt);
    InputWorks(n, m, pkt);
    InputFrame(n.u, pkt.tags);
    var u1 := InputParsed(Unbounded, n.u, Parsed(pkt.tags, 0));
    InputLinkOut(n.log, n.net, n.u.snd.buf, u1.snd.buf, m.u.rcv, m.net, m.delivered);
    InputLinkIn(m.log, m.net, m.u.snd.buf, n.u.rcv, u1.rcv, n.net, n.delivered);
  }

  // ---------------------------------------------------------------- runs

  lemma StepKeeps(n: Node, m: Node, ev: Event)
    requires Paired(n, m) && Enabled(n, m, ev)
    ensures Paired(NodeStep(n, ev), m)
  {
    match ev
    case SendE(data) => SendStep(n, m, data);
    case RecvE(len) => RecvStep(n, m, len);
    case FlushE => FlushStep(n, m);
    case UpdateE(now) => UpdateStep(n, m, now);
    case InputE(pkt) => InputStep(n, m, pkt);
  }

  lemma NewNodeOk(cfg: Config)
    ensures NodeOk(NewNode(cfg))
  {
    var a := NewNode(cfg);
    assert a.c.snd == WrapSender(a.u.snd);
    assert a.c.rcv == WrapReceiver(a.u.rcv);
  }

  lemma InitOk(ca: Config, cb: Config)
    requires ca.conv == cb.conv
    ensures Inv(Sys(NewNode(ca), NewNode(cb)))
  {
    NewNodeOk(ca);
    NewNodeOk(cb);
  }

  lemma {:induction false} RunKeeps(s: Sys, run: seq<Step>)
    requires Inv(s) && IsRun(s, run)
    ensures Inv(Exec(s, run))
    decreases |run|
  {
    if run != [] {
      if run[0].atA { StepKeeps(s.a, s.b, run[0].ev); } else { StepKeeps(s.b, s.a, run[0].ev); }
      RunKeeps(Apply(s, run[0]), run[1..]);
    }
  }

  lemma {:induction false} RunConcat(s: Sys, r: seq<Step>, q: seq<Step>)
    requires IsRun(s, r) && IsRun(Exec(s, r), q)
    ensures IsRun(s, r + q) && Exec(s, r + q) == Exec(Exec(s, r), q)
    decreases |r|
  {
    hide StepEnabled, Apply;
    if r == [] {
      assert r + q == q;
    } else {
      assert (r + q)[0] == r[0] && (r + q)[1..] == r[1..] + q;
      RunConcat(Apply(s, r[0]), r[1..], q);
    }
  }

  lemma OneStep(s: Sys, st: Step)
    requires StepEnabled(s, st)
    ensures IsRun(s, [st]) && Exec(s, [st]) == Apply(s, st)
  {
    assert [st][1..] == [];
  }

  // ---------------------------------------------------------------- theorems

  /** One direction of a connection: what `r` returned to its user, followed by what is
      queued for it, is a prefix of what `s` accepted from its own. */
  ghost predicate DeliversPrefix(s: Node, r: Node) {
    r.delivered + Bytes(Payloads(r.c.rcv.queue)) <= s.accepted
  }

  /** Every segment numbered by the C program of `s` is in its send buffer or with `r`,
      and everything below `snd_una` is with `r`. */
  ghost predicate LosesNothing(s: Node, r: Node) {
    && (forall sn: int :: 0 <= sn < |s.log| ==> InBuf(s.u.snd.buf, sn) || Held(r.u.rcv, sn))
    && (forall sn: int :: 0 <= sn < s.u.snd.una ==> Held(r.u.rcv, sn))
    && (forall a :: a in r.u.rcv.acks ==> Held(r.u.rcv, a.sn))
    && (forall p, g :: p in r.net && g in p.tags ==>
          g.una <= r.u.rcv.nxt && (g.cmd == CMD_ACK ==> Held(r.u.rcv, g.sn)))
  }

  lemma LogPrefix(log: seq<Frag>, queue: seq<Frag>, base: nat, nxt: nat)
    requires base <= nxt <= |log|
    ensures Bytes(log[..base]) + Bytes(log[base..nxt]) <= Bytes(log + queue)
  {
    assert log[..nxt] == log[..base] + log[base..nxt];
    BytesConcat(log[..base], log[base..nxt]);
    var rest := log[nxt..] + queue;
    assert log + queue == log[..nxt] + rest;
    BytesConcat(log[..nxt], rest);
  }

  lemma DeliveredAndQueued(log: seq<Frag>, queue: seq<Frag>, wnd: nat, r: Receiver, delivered: seq<byte>)
    requires RcvShape(wnd, r) && Received(log, r) && Delivered(log, r, delivered)
    ensures delivered + Bytes(Payloads(WrapSegs(r.queue))) <= Bytes(log + queue)
  {
    QueueIsLogSlice(log, wnd, r);
    assert Payloads(WrapSegs(r.queue)) == Payloads(r.queue);
    LogPrefix(log, queue, r.nxt - |r.queue|, r.nxt);
  }

  lemma PrefixOfAccepted(s: Node, r: Node)
    requires Paired(s, r)
    ensures DeliversPrefix(s, r)
  {
    DeliveredAndQueued(s.log, s.u.snd.queue, r.u.cfg.rcvWnd, r.u.rcv, r.delivered);
  }

  lemma NothingIsLost(s: Node, r: Node)
    requires Paired(s, r)
    ensures LosesNothing(s, r)
  {
    forall sn: int | 0 <= sn < s.u.snd.una ensures Held(r.u.rcv, sn) { UnaIsHeld(s, r, sn); }
  }

  /** End-to-end safety. In every run of two endpoints, over a network that may lose,
      duplicate, reorder and delay their datagrams, as long as none is delivered 2^31
      sequence numbers late: the C state is the wrapped unbounded one, each side delivers
      a prefix of what the other accepted, and no segment is lost. */
  lemma EndToEnd(ca: Config, cb: Config, run: seq<Step>)
    requires ca.conv == cb.conv && IsRun(Sys(NewNode(ca), NewNode(cb)), run)
    ensures var s := Exec(Sys(NewNode(ca), NewNode(cb)), run);
            && s.a.c == Wrap(s.a.u) && s.b.c == Wrap(s.b.u)
            && DeliversPrefix(s.a, s.b) && DeliversPrefix(s.b, s.a)
            && LosesNothing(s.a, s.b) && LosesNothing(s.b, s.a)
  {
    InitOk(ca, cb);
    RunKeeps(Sys(NewNode(ca), NewNode(cb)), run);
    var s := Exec(Sys(NewNode(ca), NewNode(cb)), run);
    PrefixOfAccepted(s.a, s.b);
    PrefixOfAccepted(s.b, s.a);
    NothingIsLost(s.a, s.b);
    NothingIsLost(s.b, s.a);
  }
}
