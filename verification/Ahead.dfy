/** `snd_una` and the peer's `rcv_nxt`: when the first runs ahead of the second. */
module Ahead {
  import opened Options
  import opened Serial
  import opened Wire
  import opened Engine
  import opened Window
  import opened Refinement
  import opened System
  import opened Runs
  import opened Progress

  // ---------------------------------------------------------------- the order of arrival

  /** The segments of some datagrams, in order. */
  function AllTags(pkts: seq<Pkt>): seq<Seg> {
    if pkts == [] then [] else pkts[0].tags + AllTags(pkts[1..])
  }

  ghost predicate PushAt(gs: seq<Seg>, i: nat, sn: int) {
    i < |gs| && gs[i].cmd == CMD_PUSH && gs[i].sn == sn
  }

  ghost predicate HasRoom(r: Receiver, wnd: nat) { |r.queue| < wnd }

  /** A data segment below the window end is held afterwards. */
  lemma {:induction false} PushesAreHeld(s: State, gs: seq<Seg>, x: int)
    requires Ok(s) && PushIn(gs, x) && x < s.rcv.nxt + s.cfg.rcvWnd
    ensures Held(InputSegs(Unbounded, s, gs).rcv, x)
    decreases |gs|
  {
    hide InputAcks, InputPush, InputControl;
    var n := |gs| - 1;
    assert gs == gs[..n] + [gs[n]];
    InputSegsKeep(s, gs[..n]);
    var t := InputSegs(Unbounded, s, gs[..n]);
    if PushIn(gs[..n], x) { PushesAreHeld(s, gs[..n], x); }
    if gs[n].cmd == CMD_PUSH { InputPushKeeps(t.cfg.rcvWnd, t.rcv, gs[n]); }
  }

  /** The segment `rcv_nxt` waits for moves it, if there is room in the queue. */
  lemma NextMoves(s: State, gs: seq<Seg>)
    requires Ok(s) && PushIn(gs, s.rcv.nxt) && HasRoom(s.rcv, s.cfg.rcvWnd)
    ensures InputSegs(Unbounded, s, gs).rcv.nxt > s.rcv.nxt
  {
    hide InputSegs, RcvShape;
    PushesAreHeld(s, gs, s.rcv.nxt);
    InputSegsKeep(s, gs);
    var r := InputSegs(Unbounded, s, gs).rcv;
    if r.nxt == s.rcv.nxt { HeldIsFull(s.cfg.rcvWnd, r); }
  }

  lemma {:induction false} InputSegsConcat(s: State, a: seq<Seg>, b: seq<Seg>)
    ensures InputSegs(Unbounded, s, a + b) == InputSegs(Unbounded, InputSegs(Unbounded, s, a), b)
    decreases |b|
  {
    hide InputSeg;
    if b == [] {
      assert a + b == a;
    } else {
      var n := |b| - 1;
      assert (a + b)[..|a + b| - 1] == a + b[..n];
      InputSegsConcat(s, a, b[..n]);
    }
  }

  /** Once the segment `rcv_nxt` waits for has arrived, the one just behind the old window end
      is in the window, and is acknowledged. */
  lemma SecondIsListed(s: State, gs: seq<Seg>, i: nat, j: nat, y: int)
    requires Ok(s) && HasRoom(s.rcv, s.cfg.rcvWnd) && y <= s.rcv.nxt + s.cfg.rcvWnd
    requires PushAt(gs, i, s.rcv.nxt) && PushAt(gs, j, y) && i < j
    ensures AckListed(InputSegs(Unbounded, s, gs).rcv, y)
  {
    hide InputSegs, Ok, AckListed;
    var before, rest := gs[..j], gs[j..];
    assert before[i] in before && rest[0] in rest && gs == before + rest;
    InputSegsConcat(s, before, rest);
    NextMoves(s, before);
    InputSegsKeep(s, before);
    PushesAreAcked(InputSegs(Unbounded, s, before), rest);
  }

  lemma InputReceiver(s: State, gs: seq<Seg>)
    ensures InputParsed(Unbounded, s, Parsed(gs, 0)).rcv == InputSegs(Unbounded, s, gs).rcv
  {
    EndKeepsReceiver(InputSegs(Unbounded, s, gs), s.snd.una, MaxAck(Unbounded, gs));
  }

  lemma ListedStays(s: State, t: State, pkts: seq<Pkt>, sn: int)
    requires Absorbed(s, t, pkts)
    ensures AckListed(s.rcv, sn) ==> AckListed(t.rcv, sn)
    ensures PushInAny(pkts, sn) && sn < s.rcv.nxt + s.cfg.rcvWnd ==> AckListed(t.rcv, sn)
  { }

  lemma {:induction false} TagIsIn(pkts: seq<Pkt>, i: nat, sn: int)
    requires PushAt(AllTags(pkts), i, sn)
    ensures PushInAny(pkts, sn)
  {
    if i < |pkts[0].tags| {
      assert pkts[0].tags[i] in pkts[0].tags && pkts[0] in pkts;
    } else {
      TagIsIn(pkts[1..], i - |pkts[0].tags|, sn);
    }
  }

  /** The same for a series of datagrams. */
  lemma {:induction false} PairIsListed(n: Node, pkts: seq<Pkt>, i: nat, j: nat, y: int)
    requires Ok(n.u) && HasRoom(n.u.rcv, n.u.cfg.rcvWnd) && y <= n.u.rcv.nxt + n.u.cfg.rcvWnd
    requires PushAt(AllTags(pkts), i, n.u.rcv.nxt) && PushAt(AllTags(pkts), j, y) && i < j
    ensures AckListed(DeliverAll(n, pkts).u.rcv, y)
    decreases |pkts|
  {
    hide Ok, Absorbed, InputParsed, InputSegs, AckListed, PushInAny, PushIn;
    var gs, rest := pkts[0].tags, pkts[1..];
    var n1 := NodeInput(n, pkts[0]);
    var t := DeliverAll(n1, rest).u;
    FirstOne(n, pkts[0]);
    DeliverAllAbsorbs(n1, rest);
    if j < |gs| {
      SecondIsListed(n.u, gs, i, j, y);
      ListedStays(n1.u, t, rest, y);
    } else if i < |gs| {
      assert PushIn(gs, n.u.rcv.nxt) by { PushAtIn(gs, i, n.u.rcv.nxt); }
      NextMoves(n.u, gs);
      TagIsIn(rest, j - |gs|, y);
      ListedStays(n1.u, t, rest, y);
    } else if n1.u.rcv.nxt > n.u.rcv.nxt {
      TagIsIn(rest, j - |gs|, y);
      ListedStays(n1.u, t, rest, y);
    } else {
      PairIsListed(n1, rest, i - |gs|, j - |gs|, y);
    }
  }

  lemma PushAtIn(gs: seq<Seg>, i: nat, sn: int)
    requires PushAt(gs, i, sn)
    ensures PushIn(gs, sn)
  {
    assert gs[i] in gs;
  }

  /** What one datagram does to the receiver. */
  lemma FirstOne(n: Node, pkt: Pkt)
    requires Ok(n.u)
    ensures var t := NodeInput(n, pkt).u;
            && Ok(t) && t.cfg == n.u.cfg && t.rcv == InputSegs(Unbounded, n.u, pkt.tags).rcv
            && n.u.rcv.nxt <= t.rcv.nxt && (t.rcv.nxt == n.u.rcv.nxt ==> |t.rcv.queue| == |n.u.rcv.queue|)
  {
    hide InputParsed, InputSegs, Ok;
    InputReceiver(n.u, pkt.tags);
    InputParsedKeeps(n.u, Parsed(pkt.tags, 0));
    InputFrame(n.u, pkt.tags);
    InputSegsKeep(n.u, pkt.tags);
  }

  // ---------------------------------------------------------------- the order of departure

  /** When everything is due, a flush transmits its buffer as it stands. */
  lemma {:induction false} AllAreDue(p: Pass, buf: seq<Unacked>)
    requires forall x :: x in buf ==> p.Why(x) != Hold
    ensures |p.DueSegs(buf)| == |buf| && forall i :: 0 <= i < |buf| ==> p.DueSegs(buf)[i] == p.Touch(buf[i]).seg
    decreases |buf|
  {
    if buf != [] {
      var n := |buf| - 1;
      AllAreDue(p, buf[..n]);
      assert buf[n] in buf;
    }
  }

  /** Of two segments of the send buffer a flush transmits the one with the smaller number first. */
  lemma FlushOrder(s: State, x: int, y: int) returns (i: nat, j: nat)
    requires Ok(s) && AllDue(s) && x < y
    requires InBuf(Flush(Unbounded, s).s.snd.buf, x) && InBuf(Flush(Unbounded, s).s.snd.buf, y)
    ensures i < j && PushAt(Flush(Unbounded, s).segs, i, x) && PushAt(Flush(Unbounded, s).segs, j, y)
  {
    hide Flush, FlushSender, FlushPass, AllDue, InBuf, Ok, Pass.DueSegs, PushAt;
    var k := PlaceOf(s, x);
    var l := PlaceOf(s, y);
    BufferSorted(s, k, l);
    var head := DueBehind(s);
    DueAt(s, head, k, x);
    DueAt(s, head, l, y);
    i, j := head + k, head + l;
  }

  lemma BufferSorted(s: State, k: nat, l: nat)
    requires Ok(s) && k < |FlushSender(Unbounded, s).buf| && l < |FlushSender(Unbounded, s).buf|
    requires FlushSender(Unbounded, s).buf[k].seg.sn < FlushSender(Unbounded, s).buf[l].seg.sn
    ensures k < l
  {
    hide Admit;
    AdmitKeeps(s, FlushWindow(s));
  }

  /** Where the data segments of a flush begin. */
  lemma DueBehind(s: State) returns (head: nat)
    ensures head <= |Flush(Unbounded, s).segs|
    ensures Flush(Unbounded, s).segs[head..] == FlushPass(s).DueSegs(FlushSender(Unbounded, s).buf)
  {
    hide FlushSender, FlushControl, AckSegs, ProbeSegs, Pass.DueSegs, FlushPass;
    head := |AckSegs(s) + ProbeSegs(s, ProbeTimer(s.ctl))|;
  }

  lemma DueAt(s: State, head: nat, k: nat, sn: int)
    requires AllDue(s) && head <= |Flush(Unbounded, s).segs| && k < |FlushSender(Unbounded, s).buf|
    requires Flush(Unbounded, s).segs[head..] == FlushPass(s).DueSegs(FlushSender(Unbounded, s).buf)
    requires FlushSender(Unbounded, s).buf[k].seg.sn == sn && FlushSender(Unbounded, s).buf[k].seg.cmd == CMD_PUSH
    ensures PushAt(Flush(Unbounded, s).segs, head + k, sn)
  {
    hide Flush, FlushSender, FlushPass, AllDue, Pass.DueSegs, Pass.Why;
    var p, buf := FlushPass(s), FlushSender(Unbounded, s).buf;
    forall v | v in buf ensures p.Why(v) != Hold {
      var i :| 0 <= i < |buf| && buf[i] == v;
      MidIsDue(s, i);
    }
    AllAreDue(p, buf);
    assert Flush(Unbounded, s).segs[head + k] == Flush(Unbounded, s).segs[head..][k] == p.Touch(buf[k]).seg;
  }

  lemma FlushWindowFits(s: State)
    ensures FlushWindow(s) <= s.cfg.sndWnd
  { }

  /** Where a number of the flushed buffer stands in the buffer the flush walks over. */
  lemma PlaceOf(s: State, sn: int) returns (k: nat)
    requires Ok(s) && InBuf(Flush(Unbounded, s).s.snd.buf, sn)
    ensures k < |FlushSender(Unbounded, s).buf|
    ensures FlushSender(Unbounded, s).buf[k].seg.sn == sn && FlushSender(Unbounded, s).buf[k].seg.cmd == CMD_PUSH
  {
    hide FlushSegs, FlushControl, Admit, FlushWindow, Pass.Why;
    var p, buf := FlushPass(s), FlushSender(Unbounded, s).buf;
    FlushWindowFits(s);
    var v :| v in p.TouchAll(buf) && v.seg.sn == sn;
    k :| 0 <= k < |buf| && p.TouchAll(buf)[k] == v;
    AdmitKeeps(s, FlushWindow(s));
    assert buf[k] in buf && v == p.Touch(buf[k]);
  }

  lemma {:induction false} TagsFlatten(pkts: seq<Pkt>, ds: seq<seq<Seg>>)
    requires |pkts| == |ds| && forall i :: 0 <= i < |ds| ==> pkts[i].tags == ds[i]
    ensures AllTags(pkts) == Flatten(ds)
  {
    if pkts != [] { TagsFlatten(pkts[1..], ds[1..]); }
  }

  /** The datagrams of a flush carry its segments in order. */
  lemma OutInOrder(n: Node)
    requires NodeOk(n)
    ensures AllTags(Out(n)) == Flush(Unbounded, n.u).segs
  {
    hide NodeOk, Flush, Out, Pack;
    var segs := Flush(Unbounded, n.u).segs;
    OutTags(n);
    FlushSegsFit(n);
    PackProperties(n.u.cfg.mtu, segs);
    TagsFlatten(Out(n), Pack(n.u.cfg.mtu, segs));
  }

  // ---------------------------------------------------------------- when `snd_una` is ahead

  /** A receiver with an empty queue holds neither the segment it waits for nor the one just
      behind its window, so both are in the sender's buffer once they are numbered. */
  lemma BothInBuffer(n: Node, m: Node, sn: int)
    requires Paired(n, m) && HasRoom(m.u.rcv, m.u.cfg.rcvWnd)
    requires sn == m.u.rcv.nxt || sn == m.u.rcv.nxt + m.u.cfg.rcvWnd
    ensures sn < n.u.snd.nxt ==> InBuf(n.u.snd.buf, sn)
  {
    hide DataOnWire, AcksOnWire, Received, Delivered, NetOk, Clocked, BufMatches, SndOk;
    if Held(m.u.rcv, sn) && sn == m.u.rcv.nxt { HeldIsFull(m.u.cfg.rcvWnd, m.u.rcv); }
  }

  /** The number just behind the window of a receiver with room is acknowledged in the round. */
  lemma EndIsAcked(a: Node, b: Node, a1: Node, b1: Node)
    requires Paired(a, b) && AllDue(a.u) && HasRoom(b.u.rcv, b.u.cfg.rcvWnd)
    requires a1 == NodeFlush(a) && Paired(a1, b) && b1 == DeliverAll(b, Out(a)) && NodeOk(b1)
    requires a1.u.snd.nxt > b.u.rcv.nxt + b.u.cfg.rcvWnd
    ensures AckInAny(Out(b1), b.u.rcv.nxt + b.u.cfg.rcvWnd)
  {
    hide Paired, AllDue, Out, NodeFlush, DeliverAll, AckInAny, InBuf, PushAt, NodeOk, Flush;
    var x, y := b.u.rcv.nxt, b.u.rcv.nxt + b.u.cfg.rcvWnd;
    BothInBuffer(a1, b, x);
    BothInBuffer(a1, b, y);
    PairedNodes(a, b);
    FlushedState(a);
    var i, j := FlushOrder(a.u, x, y);
    OutInOrder(a);
    PairIsListed(b, Out(a), i, j, y);
    ListedIsSent(b1, y);
  }

  lemma FlushedState(n: Node)
    ensures NodeFlush(n).u == Flush(Unbounded, n.u).s
  { }

  lemma Acked(s: State, t: State, pkts: seq<Pkt>, sn: int)
    requires Absorbed(s, t, pkts) && AckInAny(pkts, sn) && Ok(t) && t.snd.una == sn
    ensures t.snd.una == t.snd.nxt
  {
    hide Ok;
    if t.snd.buf != [] { HeadInFlight(t); } else { EmptyBuffer(t); }
  }

  lemma EmptyBuffer(s: State)
    requires Ok(s) && s.snd.buf == []
    ensures s.snd.una == s.snd.nxt
  { }

  /** After a round trip in which nothing is lost: `snd_una` is ahead of `rcv_nxt` if and only if
      the receive queue is full and a segment behind it was numbered. */
  lemma AheadAfterRound(a: Node, b: Node) returns (a2: Node, b2: Node)
    requires Paired(a, b) && AllDue(a.u)
    requires AcksAbove(a.u, a.u.rcv.nxt - RECENT) && AcksAbove(b.u, b.u.rcv.nxt - RECENT)
    ensures b2 == NodeFlush(DeliverAll(b, Out(a)))
    ensures a2 == DeliverAll(NodeFlush(a), Out(DeliverAll(b, Out(a))))
    ensures a2.u.snd.una > b2.u.rcv.nxt <==> |b2.u.rcv.queue| == b2.u.cfg.rcvWnd && a2.u.snd.nxt > b2.u.rcv.nxt
  {
    hide *;
    var end := b.u.rcv.nxt + b.u.cfg.rcvWnd;
    var c1, b1, c2 := RoundClearsWindow(a, b);
    a2, b2 := RoundStaysPaired(a, b);
    ClearedIs(a2.u, end);
    AfterRound(a, b, b1, b2, a2);
    if b.u.rcv.queue == [] && a2.u.snd.nxt > end { PastTheEnd(a, b, c1, b1, a2, end); }
  }

  /** When the queue was empty before the round, `snd_una` passes even the window end. */
  lemma PastTheEnd(a: Node, b: Node, a1: Node, b1: Node, a2: Node, end: int)
    requires Paired(a, b) && AllDue(a.u) && b.u.rcv.queue == [] && end == b.u.rcv.nxt + b.u.cfg.rcvWnd
    requires AcksAbove(a.u, a.u.rcv.nxt - RECENT) && AcksAbove(b.u, b.u.rcv.nxt - RECENT)
    requires a1 == NodeFlush(a) && b1 == DeliverAll(b, Out(a)) && a2 == DeliverAll(a1, Out(b1))
    requires a2.u.snd.nxt == a1.u.snd.nxt > end
    ensures a2.u.snd.una != end
  {
    hide *;
    var d1, e1 := FirstHalf(a, b, end);
    FlushStep(a, b);
    PairedNodes(b1, a1);
    EmptyHasRoom(b.u);
    EndIsAcked(a, b, a1, b1);
    var b2, c2 := FlushAndDeliver(b1, a1);
    PairedNodes(b2, c2);
    if a2.u.snd.una == end { Acked(a1.u, a2.u, Out(b1), end); }
  }

  lemma EmptyHasRoom(s: State)
    ensures s.rcv.queue == [] ==> HasRoom(s.rcv, s.cfg.rcvWnd)
  { }

  lemma ClearedIs(s: State, end: int)
    requires Cleared(s, end)
    ensures s.snd.una >= end || s.snd.una >= s.snd.nxt
  { }

  lemma AfterRound(a: Node, b: Node, b1: Node, b2: Node, a2: Node)
    requires Paired(a, b) && AcksAbove(a.u, a.u.rcv.nxt - RECENT)
    requires b1 == DeliverAll(b, Out(a)) && b2 == NodeFlush(b1) && Paired(b2, a2)
    ensures b2.u.rcv.nxt - |b2.u.rcv.queue| == b.u.rcv.nxt - |b.u.rcv.queue| && b2.u.cfg == b.u.cfg
    ensures |b2.u.rcv.queue| <= b2.u.cfg.rcvWnd && a2.u.snd.una <= a2.u.snd.nxt
    ensures |b2.u.rcv.queue| < b2.u.cfg.rcvWnd ==> a2.u.snd.una <= b2.u.rcv.nxt
  {
    hide *;
    FewerAcks(a.u);
    var a1, c := FlushAndDeliver(a, b);
    AbsorbedBase(b.u, b1.u, Out(a));
    PairedGives(a1, b1);
    SameReceiver(b1);
    PairedSym(b2, a2);
    PairedGives(a2, b2);
    UnaBehind(a2, b2);
  }

  lemma AbsorbedBase(s: State, t: State, pkts: seq<Pkt>)
    requires Absorbed(s, t, pkts)
    ensures t.cfg == s.cfg && t.rcv.nxt - |t.rcv.queue| == s.rcv.nxt - |s.rcv.queue|
  { }

  lemma PairedGives(n: Node, m: Node)
    requires Paired(n, m)
    ensures NodeOk(m) && n.u.snd.una <= n.u.snd.nxt && |m.u.rcv.queue| <= m.u.cfg.rcvWnd
  {
    hide Link;
    SenderSpan(n.u.cfg, n.u.snd);
  }

  lemma FewerAcks(s: State)
    requires AcksAbove(s, s.rcv.nxt - RECENT)
    ensures AcksAbove(s, s.rcv.nxt - RECENT - SLACK)
  { }

  // ---------------------------------------------------------------- a run where it happens

  /** The smallest mtu, a send window of two and a receive window of one. */
  function Tiny(): Config { RawConfig(0, 50, 2, 1, false, 100, 0, true, false, 100, 20) }

  function Data(sn: nat): Seg { Seg(0, CMD_PUSH, 0, 1, 0, sn, 0, [0]) }

  /** The sender before the first flush: two one-byte messages wait. */
  function Loaded(): State {
    Initial(Tiny()).(snd := Sender(0, 0, [Frag(0, [0]), Frag(0, [0])], []))
  }

  lemma SendOne(q: seq<Frag>)
    ensures Send(Tiny(), q, [0]) == Sending(q + [Frag(0, [0])], 0, 1)
  {
    assert Fragments(26, false, 0, []) == [];
    assert [0][..1] == [0] && [0][0..] == [0];
    assert Fragments(26, false, 1, [0]) == [Frag(0, [0])];
  }

  lemma LoadedFlush()
    ensures Flush(Unbounded, Loaded()).segs == [Data(0), Data(1)] && Flush(Unbounded, Loaded()).s.snd.nxt == 2
  {
    var s := Loaded();
    AdmitForm(s, 2);
    assert FlushWindow(s) == 2;
    var buf := FlushSender(Unbounded, s).buf;
    assert buf == [Number(s, Frag(0, [0]), 0), Number(s, Frag(0, [0]), 1)];
    var p := FlushPass(s);
    assert buf[..1] == [buf[0]] && buf[..1][..0] == [];
    assert p.DueSegs(buf[..1]) == [Data(0)] by { assert p.DueSegs([]) == []; }
    assert p.DueSegs(buf) == [Data(0), Data(1)];
    assert AckSegs(s) == [] && ProbeSegs(s, ProbeTimer(s.ctl)) == [];
  }

  lemma OneDatagram(g: Seg, h: Seg)
    requires g.Size() == 25 == h.Size()
    ensures Pack(50, [g, h]) == [[g, h]]
  {
    var none := Packing([], []);
    assert [g, h][..1] == [g] && [g][..0] == [];
    assert none.PutAll(50, [g]) == Packing([], [g]);
    assert TotalSize([g]) == 25 by { assert [g][1..] == []; }
    assert none.PutAll(50, [g, h]) == Packing([], [g, h]);
    assert Pack(50, [g, h]) == [] + [[g, h]];
  }

  /** The receiver after the datagram: the first segment fills the queue, the second is
      parked, and both are to be acknowledged. */
  lemma TwoArrive()
    ensures InputParsed(Unbounded, Initial(Tiny()), Parsed([Data(0), Data(1)], 0)).rcv
         == Receiver(1, [Data(1)], [Data(0)], [Ack(0, 0), Ack(1, 0)])
  {
    var s, gs := Initial(Tiny()), [Data(0), Data(1)];
    FirstArrives();
    SecondArrives();
    assert gs[..1] == [Data(0)] && gs[..1][..0] == [];
    hide InputPush, InputAcks, InputControl, InputEnd;
    assert InputSegs(Unbounded, s, []) == s;
    assert InputSegs(Unbounded, s, gs[..1]) == InputSeg(Unbounded, s, Data(0));
    var t := InputSegs(Unbounded, s, gs);
    assert t == InputSeg(Unbounded, InputSeg(Unbounded, s, Data(0)), Data(1));
    EndKeepsReceiver(t, s.snd.una, MaxAck(Unbounded, gs));
  }

  lemma FirstArrives()
    ensures InputPush(Unbounded, 1, Receiver(0, [], [], []), Data(0)) == Receiver(1, [], [Data(0)], [Ack(0, 0)])
  {
    var r := Receiver(0, [Data(0)], [], [Ack(0, 0)]);
    var none: seq<Ack> := [];
    assert none + [Ack(0, 0)] == [Ack(0, 0)];
    assert Insert(Unbounded, [], Data(0)) == [Data(0)];
    assert r.buf[1..] == [] && r.queue + [Data(0)] == [Data(0)];
    assert Drain(Unbounded, 1, r) == Drain(Unbounded, 1, Receiver(1, [], [Data(0)], [Ack(0, 0)]));
  }

  lemma SecondArrives()
    ensures InputPush(Unbounded, 1, Receiver(1, [], [Data(0)], [Ack(0, 0)]), Data(1))
         == Receiver(1, [Data(1)], [Data(0)], [Ack(0, 0), Ack(1, 0)])
  {
    assert Insert(Unbounded, [], Data(1)) == [Data(1)];
  }

  lemma EndKeepsReceiver(s: State, una0: nat, m: Option<nat>)
    ensures InputEnd(Unbounded, s, una0, m).rcv == s.rcv
  { }

  /** The sender with two messages queued. */
  function Sender1(): Node { NodeSend(NodeSend(NewNode(Tiny()), [0]), [0]) }

  lemma SenderIsLoaded()
    ensures Paired(Sender1(), NewNode(Tiny())) && Sender1().u == Loaded()
  {
    hide LinkOf, NodeOk;
    var a, b := NewNode(Tiny()), NewNode(Tiny());
    InitOk(Tiny(), Tiny());
    SendStep(a, b, [0]);
    SendStep(NodeSend(a, [0]), b, [0]);
    SendOne([]);
    SendOne([Frag(0, [0])]);
    var none: seq<Frag> := [];
    assert none + [Frag(0, [0])] == [Frag(0, [0])] && [Frag(0, [0])] + [Frag(0, [0])] == [Frag(0, [0]), Frag(0, [0])];
  }

  /** What it sends: one datagram with both segments. */
  lemma BothInOne(n: Node)
    requires NodeOk(n) && n.u == Loaded()
    ensures |Out(n)| == 1 && Out(n)[0].tags == [Data(0), Data(1)]
  {
    hide FlushSegs, FlushControl, FlushSender, Pack;
    FlushWraps(n.u);
    LoadedFlush();
    PackWraps(50, Flush(Unbounded, n.u).segs);
    OneDatagram(Data(0), Data(1));
  }

  /** With both numbers acknowledged, nothing is left in flight. */
  lemma BothAcked(s: State, t: State, pkts: seq<Pkt>)
    requires Absorbed(s, t, pkts) && Ok(t) && s.snd.nxt == 2 && AckInAny(pkts, 0) && AckInAny(pkts, 1)
    ensures t.snd.una == 2
  {
    if t.snd.buf != [] { HeadInFlight(t); }
  }

  lemma HeadInFlight(s: State)
    requires Ok(s) && s.snd.buf != []
    ensures InBuf(s.snd.buf, s.snd.una) && s.snd.una < s.snd.nxt
  {
    assert s.snd.buf[0] in s.snd.buf;
  }

  lemma DeliverOne(n: Node, pkts: seq<Pkt>)
    requires |pkts| == 1
    ensures DeliverAll(n, pkts) == NodeInput(n, pkts[0])
  {
    assert DeliverAll(NodeInput(n, pkts[0]), pkts[1..]) == NodeInput(n, pkts[0]);
  }

  /** The endpoints along the way, and where they end: `snd_una` is 2, `rcv_nxt` is 1. */
  lemma AheadNodes(a1: Node, a2: Node, b1: Node, b2: Node, a3: Node)
    requires a1 == Sender1() && a2 == NodeFlush(a1) && b1 == DeliverAll(NewNode(Tiny()), Out(a1))
    requires b2 == NodeFlush(b1) && a3 == DeliverAll(a2, Out(b1))
    ensures Deliverable(NewNode(Tiny()), a2, Out(a1)) && Deliverable(a2, b2, Out(b1))
    ensures a3.c.snd.una == 2 && b2.c.rcv.nxt == 1
  {
    hide *;
    SenderIsLoaded();
    var b := NewNode(Tiny());
    LoadedHasNoAcks();
    FlushIsDeliverable(a1, b);
    var c2, c1 := FlushAndDeliver(a1, b);
    PairedNodes(a1, b);
    BothInOne(a1);
    DeliverOne(b, Out(a1));
    ParkedState(b, Out(a1)[0]);
    FlushNumber(a1);
    PairedSym(a2, b1);
    PairedNodes(b1, a2);
    ListedIsSent(b1, 0);
    ListedIsSent(b1, 1);
    FlushIsDeliverable(b1, a2);
    var d2, d3 := FlushAndDeliver(b1, a2);
    PairedNodes(d2, d3);
    BothAcked(a2.u, a3.u, Out(b1));
    SameReceiver(b1);
    WrappedSmall(a3);
    WrappedSmall(b2);
  }

  lemma PairedNodes(n: Node, m: Node)
    requires Paired(n, m)
    ensures NodeOk(n) && NodeOk(m) && Ok(n.u) && Ok(m.u)
  { }

  lemma LoadedHasNoAcks()
    ensures AcksAbove(Loaded(), Loaded().rcv.nxt - RECENT - SLACK)
  { }

  lemma ParkedState(b: Node, pkt: Pkt)
    requires b == NewNode(Tiny()) && pkt.tags == [Data(0), Data(1)]
    ensures var u := NodeInput(b, pkt).u;
            && u.rcv.nxt == 1 && AckListed(u.rcv, 0) && AckListed(u.rcv, 1)
            && AcksAbove(u, u.rcv.nxt - RECENT - SLACK)
  {
    TwoArrive();
    var u := NodeInput(b, pkt).u;
    hide InputParsed;
    assert u.rcv.acks[0] in u.rcv.acks && u.rcv.acks[1] in u.rcv.acks;
  }

  lemma FlushNumber(n: Node)
    requires n.u == Loaded()
    ensures NodeFlush(n).u.snd.nxt == 2
  {
    LoadedFlush();
  }

  lemma WrappedSmall(n: Node)
    requires NodeOk(n)
    ensures n.u.snd.una < 10 ==> n.c.snd.una == n.u.snd.una
    ensures n.u.rcv.nxt < 10 ==> n.c.rcv.nxt == n.u.rcv.nxt
  {
    U32Small(n.u.snd.una);
    U32Small(n.u.rcv.nxt);
  }

  /** "`snd_una` never passes the peer's `rcv_nxt`" is false: two segments are sent to a
      receiver with room for one, both are acknowledged, and the acknowledgements arrive. */
  lemma SndUnaAhead() returns (run: seq<Step>)
    ensures var s := Sys(NewNode(Tiny()), NewNode(Tiny()));
            IsRun(s, run) && Exec(s, run).a.c.snd.una == 2 && Exec(s, run).b.c.rcv.nxt == 1
  {
    var a, b := NewNode(Tiny()), NewNode(Tiny());
    var a1 := Sender1();
    var a2, b1 := NodeFlush(a1), DeliverAll(b, Out(a1));
    var b2, a3 := NodeFlush(b1), DeliverAll(a2, Out(b1));
    AheadNodes(a1, a2, b1, b2, a3);
    hide *;
    var s := Sys(a, b);
    var up := LoadRun(a, b);
    var down := DeliverRun(Exec(s, up), false, Out(a1));
    RunConcat(s, up, down);
    var flush := FlushRun(Sys(a2, b1), false);
    RunConcat(s, up + down, flush);
    var back := DeliverRun(Sys(a2, b2), true, Out(b1));
    RunConcat(s, up + down + flush, back);
    run := up + down + flush + back;
  }

  lemma LoadRun(a: Node, b: Node) returns (run: seq<Step>)
    ensures IsRun(Sys(a, b), run)
    ensures Exec(Sys(a, b), run) == Sys(NodeFlush(NodeSend(NodeSend(a, [0]), [0])), b)
  {
    var send, flush := Step(true, SendE([0])), Step(true, FlushE);
    var s := Sys(a, b);
    hide NodeSend, NodeFlush, IsRun, Exec;
    OneStep(s, send);
    OneStep(Apply(s, send), send);
    RunConcat(s, [send], [send]);
    OneStep(Apply(Apply(s, send), send), flush);
    RunConcat(s, [send] + [send], [flush]);
    run := [send] + [send] + [flush];
  }
}
