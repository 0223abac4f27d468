/** Message mode (`stream == 0`): every successful receive returns exactly the next whole
    message that was sent. */
module Messages {
  import opened Serial
  import opened Wire
  import opened Engine
  import opened Window
  import opened Refinement
  import opened Sending
  import opened System
  import opened Safety
  import opened Runs

  /** The fragments of one message. */
  function MsgFrags(cfg: Config, msg: seq<byte>): seq<Frag> {
    Fragments(cfg.Mss(), false, FragCount(cfg.Mss(), |msg|), msg)
  }

  function AllFrags(cfg: Config, msgs: seq<seq<byte>>): seq<Frag> {
    if msgs == [] then [] else MsgFrags(cfg, msgs[0]) + AllFrags(cfg, msgs[1..])
  }

  predicate Sized(cfg: Config, msg: seq<byte>) {
    FragCount(cfg.Mss(), |msg|) <= 255
  }

  /** What was numbered or queued is the fragments of the messages sent, and what was
      taken, the first `base` of them, is the fragments of the messages returned, which are
      the first of those sent. */
  ghost predicate MsgOf(cfg: Config, log: seq<Frag>, queue: seq<Frag>, sent: seq<seq<byte>>, got: seq<seq<byte>>,
                        base: int)
  {
    && !cfg.stream
    && log + queue == AllFrags(cfg, sent)
    && (forall m :: m in sent ==> Sized(cfg, m))
    && got <= sent
    && 0 <= base <= |log| && log[..base] == AllFrags(cfg, got)
  }

  /** How many segments of the log a receiver has handed over. */
  function Base(r: Receiver): int { r.nxt - |r.queue| }

  /** Message order from `s` to `r`. */
  ghost predicate MsgInv(s: Node, r: Node) {
    MsgOf(s.u.cfg, s.log, s.u.snd.queue, s.sent, r.got, Base(r.u.rcv))
  }

  lemma {:induction false} AllFragsConcat(cfg: Config, a: seq<seq<byte>>, b: seq<seq<byte>>)
    ensures AllFrags(cfg, a + b) == AllFrags(cfg, a) + AllFrags(cfg, b)
  {
    if a == [] {
      assert a + b == b;
    } else {
      assert (a + b)[1..] == a[1..] + b;
      AllFragsConcat(cfg, a[1..], b);
    }
  }

  lemma AllFragsOne(cfg: Config, m: seq<byte>)
    ensures AllFrags(cfg, [m]) == MsgFrags(cfg, m)
  { }

  /** The fragments of a message, counting down to 0. */
  lemma MsgShape(cfg: Config, m: seq<byte>)
    requires Sized(cfg, m)
    ensures var fs := MsgFrags(cfg, m);
            && |fs| == FragCount(cfg.Mss(), |m|) >= 1 && Bytes(fs) == m
            && forall i :: 0 <= i < |fs| ==> fs[i].frg == |fs| - 1 - i
  {
    FragCountCovers(cfg.Mss(), |m|);
    FragmentsBytes(cfg.Mss(), false, FragCount(cfg.Mss(), |m|), m);
  }

  /** The size `ikcp_peeksize` promises is the size the merge loop copies, for every queue:
      the assertion in `ikcp_recv` cannot fail. */
  lemma PeekIsMerged(queue: seq<Seg>)
    requires PeekSize(queue) >= 0
    ensures PeekSize(queue) == |Merged(queue)|
  {
    SumIsMerged(queue);
  }

  /** The peek loop adds up the lengths of exactly the segments the merge loop copies. */
  lemma {:induction false} SumIsMerged(queue: seq<Seg>)
    ensures PeekSum(queue) == |Merged(queue)|
  {
    if queue != [] {
      var n := MergeCount(queue);
      var fs := Payloads(queue[..n]);
      assert Merged(queue) == queue[0].data + Bytes(fs[1..]);
      if queue[0].frg == 0 {
        assert n == 1 && Bytes(fs[1..]) == [];
      } else {
        SumIsMerged(queue[1..]);
        assert queue[1..][..n - 1] == queue[..n][1..];
        assert fs[1..] == Payloads(queue[1..][..n - 1]);
      }
    }
  }

  /** A countdown of `k + 1` fragments is merged whole. */
  lemma {:induction false} MergeCountdown(queue: seq<Seg>, k: nat)
    requires k < |queue| && forall i :: 0 <= i <= k ==> queue[i].frg == k - i
    ensures MergeCount(queue) == k + 1
  {
    if k > 0 { MergeCountdown(queue[1..], k - 1); }
  }

  // ---------------------------------------------------------------- one receive

  /** A receive that succeeds takes exactly the fragments of the next message. */
  lemma RecvTakesMessage(cfg: Config, queue: seq<Seg>, rest: seq<Frag>, m: seq<byte>)
    requires Sized(cfg, m) && queue != [] && PeekSize(queue) >= 0
    requires Payloads(queue) <= MsgFrags(cfg, m) + rest
    ensures MergeCount(queue) == |MsgFrags(cfg, m)| && Merged(queue) == m
  {
    MsgShape(cfg, m);
    var fs := MsgFrags(cfg, m);
    var n := |fs|;
    assert queue[0].frg == Payloads(queue)[0].frg == fs[0].frg == n - 1;
    assert n <= |queue|;
    forall i | 0 <= i < n ensures queue[i].frg == n - 1 - i {
      assert Payloads(queue)[i] == fs[i];
    }
    MergeCountdown(queue, n - 1);
    assert Payloads(queue[..n]) == fs;
  }

  /** What is still to be received is the fragments of the messages not yet returned. */
  lemma StillToCome(cfg: Config, log: seq<Frag>, queue: seq<Frag>, sent: seq<seq<byte>>, got: seq<seq<byte>>, base: int)
    requires MsgOf(cfg, log, queue, sent, got, base)
    ensures (log + queue)[base..] == AllFrags(cfg, sent[|got|..])
  {
    var k := |got|;
    assert sent == got + sent[k..];
    AllFragsConcat(cfg, got, sent[k..]);
    assert (log + queue)[..base] == log[..base];
    assert log + queue == AllFrags(cfg, got) + AllFrags(cfg, sent[k..]);
  }

  lemma QueuePrefix(s: Node, r: Node)
    requires Paired(s, r) && MsgInv(s, r)
    ensures Payloads(r.u.rcv.queue) <= AllFrags(s.u.cfg, s.sent[|r.got|..])
  {
    var base := Base(r.u.rcv);
    StillToCome(s.u.cfg, s.log, s.u.snd.queue, s.sent, r.got, base);
    QueueIsLogSlice(s.log, r.u.cfg.rcvWnd, r.u.rcv);
    assert (s.log + s.u.snd.queue)[base..][..|r.u.rcv.queue|] == s.log[base..r.u.rcv.nxt];
  }

  lemma RecvReturnsNext(s: Node, r: Node, len: int)
    requires Paired(s, r) && MsgInv(s, r)
    requires len >= 0 && Recv(Unbounded, r.u, len).code >= 0
    ensures |r.got| < |s.sent| && Recv(Unbounded, r.u, len).data == s.sent[|r.got|]
    ensures MergeCount(r.u.rcv.queue) == |MsgFrags(s.u.cfg, s.sent[|r.got|])|
  {
    QueuePrefix(s, r);
    var left := s.sent[|r.got|..];
    assert left != [];
    assert left[0] in s.sent;
    RecvTakesMessage(s.u.cfg, r.u.rcv.queue, AllFrags(s.u.cfg, left[1..]), left[0]);
  }

  /** With the fragments of the next message at its head, the queue gives that message. */
  lemma HeadIsWhole(cfg: Config, queue: seq<Seg>, rest: seq<Frag>, m: seq<byte>)
    requires Sized(cfg, m) && Payloads(queue) <= MsgFrags(cfg, m) + rest
    requires |MsgFrags(cfg, m)| <= |queue|
    ensures queue != [] && PeekSize(queue) == |m|
  {
    MsgShape(cfg, m);
    assert queue[0].frg == Payloads(queue)[0].frg == MsgFrags(cfg, m)[0].frg;
    RecvTakesMessage(cfg, queue, rest, m);
    PeekIsMerged(queue);
  }

  /** A receive succeeds if and only if there is a next message, all its fragments are in the
      queue and the buffer is large enough for it; and then it returns that message. */
  lemma RecvExactly(s: Node, r: Node, len: int)
    requires Paired(s, r) && MsgInv(s, r) && len >= 0
    ensures var rd := Recv(Unbounded, r.u, len);
            && (rd.code >= 0 <==>
                && |r.got| < |s.sent| && |s.sent[|r.got|]| <= len
                && FragCount(s.u.cfg.Mss(), |s.sent[|r.got|]|) <= |r.u.rcv.queue|)
            && (rd.code >= 0 ==> rd.data == s.sent[|r.got|])
  {
    hide Drain, LinkOf, NodeOk, MergeCount, Merged;
    var queue := r.u.rcv.queue;
    var rd := Recv(Unbounded, r.u, len);
    if rd.code >= 0 {
      RecvReturnsNext(s, r, len);
      MsgShape(s.u.cfg, s.sent[|r.got|]);
      PeekIsMerged(queue);
    } else if |r.got| < |s.sent| && FragCount(s.u.cfg.Mss(), |s.sent[|r.got|]|) <= |queue| {
      var left := s.sent[|r.got|..];
      assert left[0] == s.sent[|r.got|] && left[0] in s.sent;
      QueuePrefix(s, r);
      MsgShape(s.u.cfg, left[0]);
      HeadIsWhole(s.u.cfg, queue, AllFrags(s.u.cfg, left[1..]), left[0]);
    }
  }

  /** A full queue can be read exactly when the next message has no more fragments than the
      receive window: then a large enough buffer gets it, else the connection is stuck. */
  lemma FullQueueIsRead(s: Node, r: Node, len: int)
    requires Paired(s, r) && MsgInv(s, r) && |r.u.rcv.queue| == r.u.cfg.rcvWnd
    ensures |r.got| < |s.sent|
    ensures len >= |s.sent[|r.got|]| ==>
              (Recv(Unbounded, r.u, len).code >= 0 <==> FragCount(s.u.cfg.Mss(), |s.sent[|r.got|]|) <= r.u.cfg.rcvWnd)
  {
    hide Recv, LinkOf, NodeOk;
    QueuePrefix(s, r);
    assert s.sent[|r.got|..] != [];
    if len >= 0 { RecvExactly(s, r, len); }
  }

  // ---------------------------------------------------------------- steps

  /** One more message taken. */
  lemma TakeOne(cfg: Config, log: seq<Frag>, queue: seq<Frag>, sent: seq<seq<byte>>, got: seq<seq<byte>>, base: int)
    requires MsgOf(cfg, log, queue, sent, got, base) && |got| < |sent|
    requires base + |MsgFrags(cfg, sent[|got|])| <= |log|
    ensures MsgOf(cfg, log, queue, sent, got + [sent[|got|]], base + |MsgFrags(cfg, sent[|got|])|)
  {
    var k, m := |got|, sent[|got|];
    var fs := MsgFrags(cfg, m);
    StillToCome(cfg, log, queue, sent, got, base);
    assert sent[k..] == [m] + sent[k + 1..];
    AllFragsConcat(cfg, [m], sent[k + 1..]);
    AllFragsOne(cfg, m);
    assert (log + queue)[base..][..|fs|] == fs;
    assert log[..base + |fs|] == log[..base] + log[base..base + |fs|];
    assert log[base..base + |fs|] == (log + queue)[base..][..|fs|];
    AllFragsConcat(cfg, got, [m]);
  }

  lemma RecvMsg(s: Node, r: Node, len: int)
    requires Paired(s, r) && MsgInv(s, r)
    ensures MsgInv(s, NodeRecv(r, len))
  {
    hide PeekSize, MergeCount, Merged, Drain, RcvOk, RcvShape;
    RecvWraps(r.u, len);
    RecvDelivers(s.log, r.u, len);
    if len >= 0 && Recv(Unbounded, r.u, len).code >= 0 {
      RecvReturnsNext(s, r, len);
      TakeOne(s.u.cfg, s.log, s.u.snd.queue, s.sent, r.got, Base(r.u.rcv));
    }
  }

  lemma SendMsg(s: Node, r: Node, data: seq<byte>)
    requires MsgInv(s, r) && Mirrors(s.c, s.u)
    ensures MsgInv(NodeSend(s, data), r)
  {
    var cfg, q := s.u.cfg, s.u.snd.queue;
    assert data[0..] == data;
    var snt := Send(cfg, q, data);
    if snt.code == 0 {
      AllFragsConcat(cfg, s.sent, [data]);
      AllFragsOne(cfg, data);
      assert s.log + snt.queue == (s.log + q) + MsgFrags(cfg, data);
    }
  }

  lemma MoveMsg(cfg: Config, log: seq<Frag>, queue: seq<Frag>, sent: seq<seq<byte>>, got: seq<seq<byte>>, base: int,
                k: nat)
    requires MsgOf(cfg, log, queue, sent, got, base) && k <= |queue|
    ensures MsgOf(cfg, log + queue[..k], queue[k..], sent, got, base)
  {
    assert (log + queue[..k]) + queue[k..] == log + queue;
    assert (log + queue[..k])[..base] == log[..base];
  }

  lemma FlushMsg(s: Node, r: Node)
    requires NodeOk(s) && MsgInv(s, r)
    ensures MsgInv(NodeFlush(s), r)
  {
    FlushLog(s);
    FlushFrame(s.u);
    MoveMsg(s.u.cfg, s.log, s.u.snd.queue, s.sent, r.got, Base(r.u.rcv), AdmitCount(s.u, FlushWindow(s.u)));
  }

  lemma FlushMsgIn(s: Node, r: Node)
    requires NodeOk(r) && MsgInv(s, r)
    ensures MsgInv(s, NodeFlush(r))
  {
    FlushFrame(r.u);
  }

  lemma InputMsg(n: Node, m: Node, pkt: Pkt)
    requires NodeOk(n)
    ensures MsgInv(n, m) ==> MsgInv(NodeInput(n, pkt), m)
    ensures MsgInv(m, n) ==> MsgInv(m, NodeInput(n, pkt))
  {
    InputFrame(n.u, pkt.tags);
  }

  /** Every event keeps message order, in both roles of the node it happens at. */
  lemma StepKeepsMsg(n: Node, m: Node, ev: Event)
    requires Paired(n, m) && Enabled(n, m, ev)
    ensures MsgInv(n, m) ==> MsgInv(NodeStep(n, ev), m)
    ensures MsgInv(m, n) ==> MsgInv(m, NodeStep(n, ev))
  {
    match ev
    case SendE(data) =>
      if MsgInv(n, m) { SendMsg(n, m, data); }
    case RecvE(len) =>
      if MsgInv(m, n) { RecvMsg(m, n, len); }
      if MsgInv(n, m) { RecvFrame(n.u, len); }
    case FlushE =>
      if MsgInv(n, m) { FlushMsg(n, m); }
      if MsgInv(m, n) { FlushMsgIn(m, n); }
    case UpdateE(now) =>
      var t := UpdateTick(n.u.cfg, n.u.ctl, now);
      TickClock(n.u.cfg, n.u.ctl, now);
      TickStep(n, m, t.ctl);
      var n1 := n.(c := n.c.(ctl := t.ctl), u := n.u.(ctl := t.ctl));
      if t.due && MsgInv(n, m) { FlushMsg(n1, m); }
      if t.due && MsgInv(m, n) { FlushMsgIn(m, n1); }
    case InputE(pkt) => InputMsg(n, m, pkt);
  }

  lemma {:induction false} RunKeepsMsg(s: Sys, run: seq<Step>)
    requires Inv(s) && IsRun(s, run) && MsgInv(s.a, s.b)
    ensures MsgInv(Exec(s, run).a, Exec(s, run).b)
    decreases |run|
  {
    if run != [] {
      if run[0].atA {
        StepKeepsMsg(s.a, s.b, run[0].ev);
        StepKeeps(s.a, s.b, run[0].ev);
      } else {
        StepKeepsMsg(s.b, s.a, run[0].ev);
        StepKeeps(s.b, s.a, run[0].ev);
      }
      RunKeepsMsg(Apply(s, run[0]), run[1..]);
    }
  }

  /** Message mode, over every run: the successful receives of one side have returned
      exactly the first messages the other side sent, whole and in order. */
  lemma WholeMessages(ca: Config, cb: Config, run: seq<Step>)
    requires ca.conv == cb.conv && !ca.stream && IsRun(Sys(NewNode(ca), NewNode(cb)), run)
    ensures var s := Exec(Sys(NewNode(ca), NewNode(cb)), run);
            s.b.got <= s.a.sent
  {
    InitOk(ca, cb);
    assert MsgInv(NewNode(ca), NewNode(cb));
    RunKeepsMsg(Sys(NewNode(ca), NewNode(cb)), run);
  }

  /** The same in every reachable state of the C program. */
  lemma ReceivesExactly(ca: Config, cb: Config, run: seq<Step>, len: int)
    requires ca.conv == cb.conv && !ca.stream && IsRun(Sys(NewNode(ca), NewNode(cb)), run) && len >= 0
    ensures var s := Exec(Sys(NewNode(ca), NewNode(cb)), run);
            var rd := Recv(Wrapping, s.b.c, len);
            && (rd.code >= 0 <==>
                && |s.b.got| < |s.a.sent| && |s.a.sent[|s.b.got|]| <= len
                && FragCount(ca.Mss(), |s.a.sent[|s.b.got|]|) <= |s.b.c.rcv.queue|)
            && (rd.code >= 0 ==> rd.data == s.a.sent[|s.b.got|])
  {
    hide IsRun, Exec, LinkOf, Accounted, Recv, RcvOk, SndOk;
    var s0 := Sys(NewNode(ca), NewNode(cb));
    InitOk(ca, cb);
    RunKeeps(s0, run);
    RunKeepsMsg(s0, run);
    RunKeepsFit(s0, run);
    var s := Exec(s0, run);
    RecvExactly(s.a, s.b, len);
    RecvWraps(s.b.u, len);
  }

  // ---------------------------------------------------------------- messages that never arrive

  /** No message returned has more fragments than the receive window. */
  ghost predicate Fitting(s: Node, r: Node) {
    forall m :: m in r.got ==> FragCount(s.u.cfg.Mss(), |m|) <= r.u.cfg.rcvWnd
  }

  lemma StepKeepsConfig(n: Node, ev: Event)
    requires NodeOk(n)
    ensures NodeStep(n, ev).u.cfg == n.u.cfg
  {
    match ev
    case RecvE(len) => RecvFrame(n.u, len);
    case FlushE => FlushFrame(n.u);
    case UpdateE(now) => FlushFrame(n.u.(ctl := UpdateTick(n.u.cfg, n.u.ctl, now).ctl));
    case InputE(pkt) => InputFrame(n.u, pkt.tags);
    case SendE(data) =>
  }

  lemma StepKeepsFit(s: Node, r: Node, ev: Event)
    requires Paired(s, r) && MsgInv(s, r) && Fitting(s, r)
    ensures Fitting(s, NodeStep(r, ev))
  {
    StepKeepsConfig(r, ev);
    match ev
    case RecvE(len) =>
      if len >= 0 {
        RecvWraps(r.u, len);
        RecvExactly(s, r, len);
      }
    case _ =>
  }

  lemma {:induction false} RunKeepsFit(s: Sys, run: seq<Step>)
    requires Inv(s) && IsRun(s, run) && MsgInv(s.a, s.b) && Fitting(s.a, s.b)
    ensures var t := Exec(s, run);
            t.a.u.cfg == s.a.u.cfg && t.b.u.cfg == s.b.u.cfg && Fitting(t.a, t.b)
    decreases |run|
  {
    if run != [] {
      if run[0].atA {
        StepKeepsMsg(s.a, s.b, run[0].ev);
        StepKeeps(s.a, s.b, run[0].ev);
        StepKeepsConfig(s.a, run[0].ev);
      } else {
        StepKeepsMsg(s.b, s.a, run[0].ev);
        StepKeeps(s.b, s.a, run[0].ev);
        StepKeepsConfig(s.b, run[0].ev);
        StepKeepsFit(s.a, s.b, run[0].ev);
      }
      RunKeepsFit(Apply(s, run[0]), run[1..]);
    }
  }

  /** `ikcp_send` takes messages of up to 255 fragments, yet one with more fragments than the
      peer's receive window is never returned, nor is anything sent after it: over every run
      the messages received all come before it. */
  lemma OversizedBlocks(ca: Config, cb: Config, run: seq<Step>, k: nat)
    requires ca.conv == cb.conv && !ca.stream && IsRun(Sys(NewNode(ca), NewNode(cb)), run)
    requires var s := Exec(Sys(NewNode(ca), NewNode(cb)), run);
             k < |s.a.sent| && FragCount(ca.Mss(), |s.a.sent[k]|) > cb.rcvWnd
    ensures var s := Exec(Sys(NewNode(ca), NewNode(cb)), run);
            |s.b.got| <= k
  {
    hide IsRun, Exec, LinkOf, Accounted;
    var s0 := Sys(NewNode(ca), NewNode(cb));
    InitOk(ca, cb);
    RunKeepsMsg(s0, run);
    RunKeepsFit(s0, run);
    var s := Exec(s0, run);
  }
}
