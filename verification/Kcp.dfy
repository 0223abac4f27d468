/** The KCP control block as the C code keeps it: fields updated in place, the lists as
    sequences, the ack list as a growing array and the output buffer as a byte array.
    Every method is proved to compute the function of `Engine` that specifies it. */
module Kcp {
  import opened Options
  import opened Serial
  import opened Wire
  import opened Engine
  import opened Sending
  import opened Messages
  import opened Loops

  /** The pending acknowledgements: `count` pairs (sn, ts) in a block that doubles when full. */
  class AckList {
    ghost var acks: seq<Ack>
    var block: array<nat>
    var count: nat
    var capacity: nat

    ghost predicate Valid()
      reads this, block
    {
      && count == |acks| <= capacity && block.Length == 2 * capacity
      && forall i :: 0 <= i < count ==> block[2 * i] == acks[i].sn && block[2 * i + 1] == acks[i].ts
    }

    constructor ()
      ensures Valid() && acks == [] && fresh(block)
    {
      block := new nat[0];
      count, capacity, acks := 0, 0, [];
    }

    /** `ikcp_ack_push`: appending survives the growth of the block. */
    method Push(sn: nat, ts: nat)
      requires Valid()
      modifies this, block
      ensures Valid() && acks == old(acks) + [Ack(sn, ts)]
      ensures block == old(block) || fresh(block)
    {
      var newsize := count + 1;
      if newsize > capacity {
        var newblock := 8;
        while newblock < newsize
          invariant newblock >= 8
        {
          newblock := newblock * 2;
        }
        var bigger := new nat[newblock * 2];
        var x := 0;
        while x < count
          invariant x <= count && unchanged(this) && unchanged(block)
          invariant forall i :: 0 <= i < x ==> bigger[2 * i] == acks[i].sn && bigger[2 * i + 1] == acks[i].ts
        {
          bigger[x * 2], bigger[x * 2 + 1] := block[x * 2], block[x * 2 + 1];
          x := x + 1;
        }
        block, capacity := bigger, newblock;
      }
      block[count * 2], block[count * 2 + 1] := sn, ts;
      count := count + 1;
      acks := acks + [Ack(sn, ts)];
    }

    /** `ikcp_ack_get`. */
    method Get(p: nat) returns (sn: nat, ts: nat)
      requires Valid() && p < count
      ensures Ack(sn, ts) == acks[p]
    {
      sn, ts := block[p * 2], block[p * 2 + 1];
    }

    method Clear()
      requires Valid()
      modifies this`count, this`acks
      ensures Valid() && acks == []
    {
      count, acks := 0, [];
    }
  }

  class Session {
    const cfg: Config
    // sequence numbers
    var sndUna: nat
    var sndNxt: nat
    var rcvNxt: nat
    // lists and their counters
    var sndQueue: seq<Frag>
    var sndBuf: seq<Unacked>
    var rcvBuf: seq<Seg>
    var rcvQueue: seq<Seg>
    var nsndQue: nat
    var nsndBuf: nat
    var nrcvBuf: nat
    var nrcvQue: nat
    const ackList: AckList
    // windows, timers, estimators
    var rmtWnd: nat
    var cwnd: nat
    var incr: nat
    var ssthresh: nat
    var askSend: bool
    var askTell: bool
    var probeWait: nat
    var tsProbe: nat
    var current: nat
    var tsFlush: nat
    var updated: bool
    var xmit: nat
    var dead: bool
    var srtt: int
    var rttVar: int
    var rto: nat
    // output buffer
    const buffer: array<byte>

    /** Send side: the counters are the list lengths, every segment fits a datagram, and the
        retransmission count is 32 bits wide. */
    ghost predicate SndValid()
      reads this`sndQueue, this`sndBuf, this`nsndQue, this`nsndBuf, this`xmit
    {
      nsndQue == |sndQueue| && nsndBuf == |sndBuf| && QueueOk(cfg, sndQueue) && Short(cfg, sndBuf) && xmit < TWO32
    }

    /** Receive side: the counters are the list lengths. */
    ghost predicate RcvValid()
      reads this`rcvBuf, this`rcvQueue, this`nrcvBuf, this`nrcvQue
    {
      nrcvBuf == |rcvBuf| && nrcvQue == |rcvQueue|
    }

    ghost predicate Valid()
      reads this, ackList, ackList.block
    {
      && SndValid() && RcvValid() && ackList.Valid()
      && buffer.Length == (cfg.mtu + OVERHEAD) * 3 && (ackList.block as object) != (buffer as object)
    }

    ghost function Snd(): Sender
      reads this`sndUna, this`sndNxt, this`sndQueue, this`sndBuf
    {
      Sender(sndUna, sndNxt, sndQueue, sndBuf)
    }

    ghost function Rcv(): Receiver
      reads this`rcvNxt, this`rcvBuf, this`rcvQueue, ackList`acks
    {
      Receiver(rcvNxt, rcvBuf, rcvQueue, ackList.acks)
    }

    ghost function Ctl(): Control
      reads this
    {
      Control(rmtWnd, cwnd, incr, ssthresh, askSend, askTell, probeWait, tsProbe, current, tsFlush,
              updated, xmit, dead, srtt, rttVar, rto)
    }

    /** The value this control block stands for. */
    ghost function Model(): State
      reads this, ackList
    {
      State(cfg, Snd(), Rcv(), Ctl())
    }

    /** `ikcp_create` and the configuration calls. */
    constructor (cfg: Config)
      ensures Valid() && fresh(ackList) && fresh(ackList.block) && fresh(buffer)
      ensures this.cfg == cfg && Model() == Initial(cfg)
    {
      this.cfg := cfg;
      sndUna, sndNxt, rcvNxt := 0, 0, 0;
      sndQueue, sndBuf, rcvBuf, rcvQueue := [], [], [], [];
      nsndQue, nsndBuf, nrcvBuf, nrcvQue := 0, 0, 0, 0;
      ackList := new AckList();
      rmtWnd, cwnd, incr, ssthresh := WND_DEF, 0, 0, THRESH_INIT;
      askSend, askTell, probeWait, tsProbe := false, false, 0, 0;
      current, tsFlush, updated, xmit, dead := 0, INTERVAL, false, 0, false;
      srtt, rttVar, rto := 0, 0, RTO_DEF;
      buffer := new byte[(cfg.mtu + OVERHEAD) * 3];
    }

    // -------------------------------------------------------------- ikcp_recv, ikcp_peeksize

    /** `ikcp_peeksize`. */
    method PeekSize() returns (length: int)
      requires RcvValid()
      ensures length == Engine.PeekSize(rcvQueue)
    {
      if |rcvQueue| == 0 { return -1; }
      if rcvQueue[0].frg == 0 { return |rcvQueue[0].data|; }
      if nrcvQue < rcvQueue[0].frg + 1 { return -1; }
      length := 0;
      var i := 0;
      while i < |rcvQueue|
        invariant i <= |rcvQueue| && length + PeekSum(rcvQueue[i..]) == PeekSum(rcvQueue)
      {
        assert rcvQueue[i..][1..] == rcvQueue[i + 1..];
        length := length + |rcvQueue[i].data|;
        i := i + 1;
        if rcvQueue[i - 1].frg == 0 { return; }
      }
    }

    /** The loop that moves in-order segments to the receive queue. */
    method MoveReady()
      requires RcvValid()
      modifies this`rcvBuf, this`nrcvBuf, this`rcvQueue, this`nrcvQue, this`rcvNxt
      ensures RcvValid() && Rcv() == Drain(Wrapping, cfg.rcvWnd, old(Rcv()))
    {
      while |rcvBuf| > 0
        invariant RcvValid()
        invariant Drain(Wrapping, cfg.rcvWnd, Rcv()) == Drain(Wrapping, cfg.rcvWnd, old(Rcv()))
        decreases |rcvBuf|
      {
        var seg := rcvBuf[0];
        if seg.sn == rcvNxt && nrcvQue < cfg.rcvWnd {
          rcvBuf := rcvBuf[1..];
          nrcvBuf := nrcvBuf - 1;
          rcvQueue := rcvQueue + [seg];
          nrcvQue := nrcvQue + 1;
          rcvNxt := U32(rcvNxt + 1);
        } else {
          break;
        }
      }
    }

    /** The merge loop of `ikcp_recv`; a peek leaves the queue alone. */
    method Merge(peeking: bool) returns (data: seq<byte>)
      requires RcvValid()
      modifies this`rcvQueue, this`nrcvQue
      ensures RcvValid() && data == Merged(old(rcvQueue))
      ensures rcvQueue == if peeking then old(rcvQueue) else old(rcvQueue)[MergeCount(old(rcvQueue))..]
    {
      ghost var q := rcvQueue;
      data := [];
      var i := 0;
      while (if peeking then i else 0) < |rcvQueue|
        invariant i <= |q| && MergeCount(q) == i + MergeCount(q[i..])
        invariant data == Bytes(Payloads(q[..i]))
        invariant rcvQueue == (if peeking then q else q[i..]) && RcvValid()
        decreases |q| - i
      {
        PayloadsSnoc(q, i);
        assert q[i..][1..] == q[i + 1..];
        var seg := if peeking then rcvQueue[i] else rcvQueue[0];
        data := data + seg.data;
        if !peeking {
          rcvQueue := rcvQueue[1..];
          nrcvQue := nrcvQue - 1;
        }
        i := i + 1;
        if seg.frg == 0 { break; }
      }
      assert MergeCount(q) == i;
    }

    /** What `ikcp_recv` does once the message is known to fit. */
    method Take(peeking: bool) returns (data: seq<byte>)
      requires RcvValid()
      modifies this`rcvBuf, this`nrcvBuf, this`rcvQueue, this`nrcvQue, this`rcvNxt, this`askTell
      ensures RcvValid() && data == Merged(old(rcvQueue))
      ensures var q1 := if peeking then old(rcvQueue) else old(rcvQueue)[MergeCount(old(rcvQueue))..];
              Rcv() == Drain(Wrapping, cfg.rcvWnd, old(Rcv()).(queue := q1))
      ensures askTell == (old(askTell) || (|old(rcvQueue)| >= cfg.rcvWnd && |rcvQueue| < cfg.rcvWnd))
    {
      var recover := nrcvQue >= cfg.rcvWnd;
      data := Merge(peeking);
      MoveReady();
      if nrcvQue < cfg.rcvWnd && recover { askTell := true; }
    }

    /** `ikcp_recv`; a negative `len` asks for a peek. */
    method Recv(len: int) returns (code: int, data: seq<byte>)
      requires RcvValid()
      modifies this`rcvBuf, this`nrcvBuf, this`rcvQueue, this`nrcvQue, this`rcvNxt, this`askTell
      ensures RcvValid()
      ensures Receiving(Model(), code, data) == Engine.Recv(Wrapping, old(Model()), len)
    {
      hide Engine.PeekSize, Merged, MergeCount, Drain;
      ghost var s := Model();
      if Engine.PeekSize(rcvQueue) >= 0 { PeekIsMerged(rcvQueue); }
      data := [];
      var peek := PeekSize();
      if |rcvQueue| == 0 {
        code := -1;
      } else if peek < 0 {
        code := -2;
      } else if peek > (if len < 0 then -len else len) {
        code := -3;
      } else {
        data := Take(len < 0);
        assert |data| == peek;
        code := |data|;
      }
    }

    // -------------------------------------------------------------- ikcp_send

    /** The fragmenting loop of `ikcp_send`. */
    method Fragment(count: nat, data: seq<byte>)
      modifies this`sndQueue, this`nsndQue
      ensures sndQueue == old(sndQueue) + Fragments(cfg.Mss(), cfg.stream, count, data)
      ensures nsndQue - |sndQueue| == old(nsndQue - |sndQueue|)
    {
      var rest := data;
      var i := 0;
      ghost var all := sndQueue + Fragments(cfg.Mss(), cfg.stream, count, data);
      while i < count
        invariant i <= count && sndQueue + Fragments(cfg.Mss(), cfg.stream, count - i, rest) == all
        invariant nsndQue - |sndQueue| == old(nsndQue - |sndQueue|)
      {
        var size := if |rest| > cfg.Mss() then cfg.Mss() else |rest|;
        var frag := Frag(if cfg.stream then 0 else count - i - 1, rest[..size]);
        assert Fragments(cfg.Mss(), cfg.stream, count - i, rest)
            == [frag] + Fragments(cfg.Mss(), cfg.stream, count - i - 1, rest[size..]);
        assert sndQueue + ([frag] + Fragments(cfg.Mss(), cfg.stream, count - i - 1, rest[size..]))
            == sndQueue + [frag] + Fragments(cfg.Mss(), cfg.stream, count - i - 1, rest[size..]);
        sndQueue := sndQueue + [frag];
        nsndQue := nsndQue + 1;
        rest := rest[size..];
        i := i + 1;
      }
    }

    /** `ikcp_send`. */
    method Send(data: seq<byte>) returns (code: int)
      requires SndValid()
      modifies this`sndQueue, this`nsndQue
      ensures SndValid()
      ensures var r := Engine.Send(cfg, old(sndQueue), data); code == r.code && sndQueue == r.queue
    {
      SendKeepsSizes(cfg, sndQueue, data);
      var rest := data;
      if cfg.stream {
        if |sndQueue| > 0 {
          var last := sndQueue[|sndQueue| - 1];
          if |last.data| < cfg.Mss() {
            var capacity := cfg.Mss() - |last.data|;
            var extend := if |data| < capacity then |data| else capacity;
            sndQueue := sndQueue[..|sndQueue| - 1] + [Frag(0, last.data + data[..extend])];
            rest := data[extend..];
          }
        }
        if |rest| <= 0 { return 0; }
      }
      assert rest == data[Extend(cfg, old(sndQueue), |data|)..] && sndQueue == ExtendTail(cfg, old(sndQueue), data);
      var count := if |rest| <= cfg.Mss() then 1 else (|rest| + cfg.Mss() - 1) / cfg.Mss();
      if count > 255 { return -2; }
      FragCountCovers(cfg.Mss(), |rest|);
      Fragment(count, rest);
      return 0;
    }

    // -------------------------------------------------------------- acknowledgements

    /** `ikcp_update_ack`. */
    method UpdateAck(rtt: int)
      modifies this`srtt, this`rttVar, this`rto
      ensures Ctl() == Engine.UpdateAck(cfg, old(Ctl()), rtt)
    {
      if srtt == 0 {
        srtt, rttVar := rtt, CDiv(rtt, 2);
      } else {
        var delta := I32(rtt - srtt);
        if delta < 0 { delta := -delta; }
        rttVar := I32(CDiv(I32(3 * rttVar) + delta, 4));
        srtt := CDiv(I32(I32(7 * srtt) + rtt), 8);
        if srtt < 1 { srtt := 1; }
      }
      rto := Bound(cfg.minRto, U32(srtt + Max(cfg.interval, U32(4 * rttVar))), RTO_MAX);
    }

    /** `ikcp_shrink_buf`. */
    method ShrinkBuf()
      modifies this`sndUna
      ensures Snd() == Shrink(old(Snd()))
    {
      if |sndBuf| > 0 { sndUna := sndBuf[0].seg.sn; } else { sndUna := sndNxt; }
    }

    /** The search loop of `ikcp_parse_ack`. */
    method RemoveAcked(sn: nat)
      requires nsndBuf == |sndBuf|
      modifies this`sndBuf, this`nsndBuf
      ensures nsndBuf == |sndBuf| && sndBuf == RemoveSn(Wrapping, old(sndBuf), sn)
    {
      ghost var buf := sndBuf;
      var i := 0;
      assert PassedAck(buf, 0, sn) by { assert buf[..0] + buf[0..] == buf; }
      hide PassedAck, RemoveSn;
      while i < |sndBuf| && sn != sndBuf[i].seg.sn && Diff(sn, sndBuf[i].seg.sn) >= 0
        invariant i <= |sndBuf| && sndBuf == buf && nsndBuf == |buf| && PassedAck(buf, i, sn)
      {
        PassAck(buf, i, sn);
        i := i + 1;
      }
      StopAtAck(buf, i, sn);
      if i < |sndBuf| && sn == sndBuf[i].seg.sn {
        sndBuf := sndBuf[..i] + sndBuf[i + 1..];
        nsndBuf := nsndBuf - 1;
      }
    }

    /** `ikcp_parse_ack`. */
    method ParseAck(sn: nat)
      requires SndValid()
      modifies this`sndBuf, this`nsndBuf
      ensures SndValid() && Snd() == Engine.ParseAck(Wrapping, old(Snd()), sn)
    {
      if Diff(sn, sndUna) < 0 || Diff(sn, sndNxt) >= 0 { return; }
      RemoveSnShort(cfg, sndBuf, sn);
      RemoveAcked(sn);
    }

    /** `ikcp_parse_una`. */
    method ParseUna(una: nat)
      requires SndValid()
      modifies this`sndBuf, this`nsndBuf
      ensures SndValid() && Snd() == Engine.ParseUna(Wrapping, old(Snd()), una)
    {
      while |sndBuf| > 0
        invariant SndValid()
        invariant DropUntil(Wrapping, sndBuf, una) == DropUntil(Wrapping, old(sndBuf), una)
        decreases |sndBuf|
      {
        if Diff(una, sndBuf[0].seg.sn) > 0 {
          sndBuf := sndBuf[1..];
          nsndBuf := nsndBuf - 1;
        } else {
          break;
        }
      }
    }

    /** The loop of `ikcp_parse_fastack`: the skipped segments are counted in place. */
    method CountSkipped(sn: nat)
      modifies this`sndBuf
      ensures sndBuf == CountSkips(Wrapping, old(sndBuf), sn)
    {
      SkipStart(sndBuf, sn);
      hide Skipped, CountSkips;
      ghost var buf := sndBuf;
      var i := 0;
      while i < |sndBuf| && Diff(sn, sndBuf[i].seg.sn) >= 0
        invariant i <= |sndBuf| == |buf| && Skipped(buf, sndBuf, i, sn)
      {
        SkipStep(buf, sndBuf, i, sn);
        if sn != sndBuf[i].seg.sn {
          sndBuf := sndBuf[i := sndBuf[i].(fastAck := U32(sndBuf[i].fastAck + 1))];
        }
        i := i + 1;
      }
      SkipEnd(buf, sndBuf, i, sn);
    }

    /** `ikcp_parse_fastack`. */
    method ParseFastAck(sn: nat)
      requires SndValid()
      modifies this`sndBuf
      ensures SndValid() && Snd() == Engine.ParseFastAck(Wrapping, old(Snd()), sn)
    {
      if Diff(sn, sndUna) < 0 || Diff(sn, sndNxt) >= 0 { return; }
      CountSkipsShort(cfg, sndBuf, sn);
      CountSkipped(sn);
    }

    // -------------------------------------------------------------- ikcp_parse_data

    /** The backward scan of `ikcp_parse_data`, which stops behind the first smaller number. */
    method Place(g: Seg)
      requires RcvValid()
      modifies this`rcvBuf, this`nrcvBuf
      ensures RcvValid() && rcvBuf == Insert(Wrapping, old(rcvBuf), g)
    {
      ScanStart(rcvBuf, g);
      hide Scanned, Insert, Diff;
      var p: nat := |rcvBuf|;
      while p > 0 && rcvBuf[p - 1].sn != g.sn && Diff(g.sn, rcvBuf[p - 1].sn) <= 0
        invariant p <= |rcvBuf| && Scanned(rcvBuf, p, g)
        modifies {}
      {
        ScanStep(rcvBuf, p, g);
        p := p - 1;
      }
      ScanEnd(rcvBuf, p, g);
      if p == 0 || rcvBuf[p - 1].sn != g.sn {
        rcvBuf := rcvBuf[..p] + [g] + rcvBuf[p..];
        nrcvBuf := nrcvBuf + 1;
      }
    }

    /** `ikcp_parse_data`. */
    method ParseData(g: Seg)
      requires RcvValid()
      modifies this`rcvBuf, this`nrcvBuf, this`rcvQueue, this`nrcvQue, this`rcvNxt
      ensures RcvValid() && Rcv() == Engine.ParseData(Wrapping, cfg.rcvWnd, old(Rcv()), g)
    {
      if Diff(g.sn, U32(rcvNxt + cfg.rcvWnd)) >= 0 || Diff(g.sn, rcvNxt) < 0 { return; }
      Place(g);
      MoveReady();
    }

    // -------------------------------------------------------------- ikcp_input

    /** The PUSH branch of `ikcp_input`. */
    method AcceptPush(g: Seg)
      requires RcvValid() && ackList.Valid()
      modifies this`rcvBuf, this`nrcvBuf, this`rcvQueue, this`nrcvQue, this`rcvNxt, ackList, ackList.block
      ensures RcvValid() && ackList.Valid() && (ackList.block == old(ackList.block) || fresh(ackList.block))
      ensures Rcv() == InputPush(Wrapping, cfg.rcvWnd, old(Rcv()), g)
    {
      if Diff(g.sn, U32(rcvNxt + cfg.rcvWnd)) < 0 {
        ackList.Push(g.sn, g.ts);
        if Diff(g.sn, rcvNxt) >= 0 { ParseData(g); }
      }
    }

    /** The ACK branch of `ikcp_input`. */
    method AcceptAck(g: Seg)
      requires SndValid()
      modifies this`sndBuf, this`nsndBuf, this`sndUna, this`srtt, this`rttVar, this`rto
      ensures SndValid() && Snd() == Shrink(Engine.ParseAck(Wrapping, old(Snd()), g.sn))
      ensures var rtt := Diff(old(current), g.ts);
              Ctl() == if rtt >= 0 then Engine.UpdateAck(cfg, old(Ctl()), rtt) else old(Ctl())
    {
      hide Engine.UpdateAck, Engine.ParseAck, Short, QueueOk, Diff;
      if Diff(current, g.ts) >= 0 { UpdateAck(Diff(current, g.ts)); }
      ParseAck(g.sn);
      ShrinkBuf();
    }

    /** The window and the cumulative acknowledgement every segment carries. */
    method NoteUna(g: Seg)
      requires SndValid()
      modifies this`rmtWnd, this`sndBuf, this`nsndBuf, this`sndUna
      ensures SndValid() && Snd() == Shrink(Engine.ParseUna(Wrapping, old(Snd()), g.una))
      ensures Ctl() == old(Ctl()).(rmtWnd := g.wnd)
    {
      hide Engine.ParseUna, Short, QueueOk;
      rmtWnd := g.wnd;
      ParseUna(g.una);
      ShrinkBuf();
    }

    /** What a segment tells about the peer: its window, its acknowledgements, its question. */
    method AcceptHeader(g: Seg)
      requires SndValid()
      modifies this`rmtWnd, this`sndBuf, this`nsndBuf, this`sndUna, this`srtt, this`rttVar, this`rto, this`askTell
      ensures SndValid() && Snd() == InputAcks(Wrapping, old(Snd()), g)
      ensures Ctl() == InputControl(cfg, old(Ctl()), g)
    {
      hide Engine.UpdateAck, Engine.ParseAck, Engine.ParseUna, Shrink, Short, QueueOk, Diff;
      NoteUna(g);
      if g.cmd == CMD_ACK {
        AcceptAck(g);
      } else if g.cmd == CMD_WASK {
        askTell := true;
      }
    }

    /** One turn of the decode loop. */
    method AcceptSeg(g: Seg)
      requires Valid()
      modifies this, ackList, ackList.block
      ensures Valid() && (ackList.block == old(ackList.block) || fresh(ackList.block))
      ensures Model() == InputSeg(Wrapping, old(Model()), g)
    {
      hide InputAcks, InputPush, InputControl, AckList.Valid, Short, QueueOk;
      AcceptHeader(g);
      if g.cmd == CMD_PUSH { AcceptPush(g); }
    }

    /** The congestion step of `ikcp_input`. */
    method OpenWindow()
      modifies this`cwnd, this`incr
      ensures Ctl() == GrowCwnd(cfg, old(Ctl()))
    {
      var mss := cfg.Mss();
      if cwnd < rmtWnd {
        if cwnd < ssthresh {
          cwnd, incr := U32(cwnd + 1), U32(incr + mss);
        } else {
          if incr < mss { incr := mss; }
          incr := U32(incr + U32(mss * mss) / incr + mss / 16);
          if U32(U32(cwnd + 1) * mss) <= incr { cwnd := U32(cwnd + 1); }
        }
        if cwnd > rmtWnd { cwnd, incr := rmtWnd, U32(rmtWnd * mss); }
      }
    }

    /** The decode loop of `ikcp_input`, which stops at the first malformed segment. */
    method AcceptAll(data: seq<byte>) returns (code: int, flag: bool, maxAck: nat)
      requires Valid()
      modifies this, ackList, ackList.block
      ensures Valid() && (ackList.block == old(ackList.block) || fresh(ackList.block))
      ensures var p := DecodeAll(cfg.conv, data);
              && code == p.code && Model() == InputSegs(Wrapping, old(Model()), p.segs)
              && (code == 0 ==> (if flag then Some(maxAck) else None) == MaxAck(Wrapping, p.segs))
    {
      code, flag, maxAck := 0, false, 0;
      ghost var s, gs: seq<Seg> := Model(), [];
      var rest := data;
      NothingParsed(s, data);
      hide Parsing, DecodeAll, InputSegs, InputSeg, MaxAck, AckList.Valid, SndValid, RcvValid;
      while |rest| >= OVERHEAD
        invariant Valid() && (ackList.block == old(ackList.block) || fresh(ackList.block)) && code == 0
        invariant Parsing(s, data, gs, rest, Model(), if flag then Some(maxAck) else None)
        decreases |rest|
      {
        ParseNext(s, data, gs, rest, Model(), if flag then Some(maxAck) else None);
        if Decode32(rest, 0) != cfg.conv { code := -1; break; }
        if |rest| - OVERHEAD < DecodeLen(rest) { code := -2; break; }
        if !KnownCmd(rest[4]) { code := -3; break; }
        var g := DecodeSeg(rest);
        AcceptSeg(g);
        if g.cmd == CMD_ACK {
          if !flag { flag, maxAck := true, g.sn; } else if Diff(g.sn, maxAck) > 0 { maxAck := g.sn; }
        }
        rest := rest[OVERHEAD + DecodeLen(rest)..];
        gs := gs + [g];
      }
      if code == 0 { AllParsed(s, data, gs, rest, Model(), if flag then Some(maxAck) else None); }
    }

    /** What follows the decode loop when no segment was malformed. */
    method Finish(una: nat, flag: bool, maxAck: nat)
      requires SndValid()
      modifies this`sndBuf, this`cwnd, this`incr
      ensures SndValid() && Model() == InputEnd(Wrapping, old(Model()), una, if flag then Some(maxAck) else None)
    {
      if flag { ParseFastAck(maxAck); }
      if Diff(sndUna, una) > 0 { OpenWindow(); }
    }

    /** `ikcp_input` on any bytes at all. */
    method Input(data: seq<byte>) returns (code: int)
      requires Valid()
      modifies this, ackList, ackList.block
      ensures Valid() && (ackList.block == old(ackList.block) || fresh(ackList.block))
      ensures Inputting(Model(), code) == Engine.Input(Wrapping, old(Model()), data)
    {
      if |data| < OVERHEAD { return -1; }
      var una := sndUna;
      var flag, maxAck;
      code, flag, maxAck := AcceptAll(data);
      if code < 0 { return; }
      Finish(una, flag, maxAck);
    }

    // -------------------------------------------------------------- the output buffer

    method Put8(ptr: nat, b: byte) returns (next: nat)
      requires ptr < buffer.Length
      modifies buffer
      ensures next == ptr + 1 && buffer[..next] == old(buffer[..ptr]) + [b]
    {
      buffer[ptr] := b;
      return ptr + 1;
    }

    /** `ikcp_encode16u`. */
    method Put16(ptr: nat, w: nat) returns (next: nat)
      requires ptr + 2 <= buffer.Length
      modifies buffer
      ensures next == ptr + 2 && buffer[..next] == old(buffer[..ptr]) + Encode16(w)
    {
      next := Put8(ptr, w % 256);
      next := Put8(next, w / 256 % 256);
    }

    /** `ikcp_encode32u`. */
    method Put32(ptr: nat, l: nat) returns (next: nat)
      requires ptr + 4 <= buffer.Length
      modifies buffer
      ensures next == ptr + 4 && buffer[..next] == old(buffer[..ptr]) + Encode32(l)
    {
      next := Put8(ptr, l % 256);
      next := Put8(next, l / 256 % 256);
      next := Put8(next, l / 65536 % 256);
      next := Put8(next, l / 16777216 % 256);
    }

    /** `ikcp_encode_seg`. */
    method PutHeader(ptr: nat, g: Seg) returns (next: nat)
      requires ptr + OVERHEAD <= buffer.Length
      modifies buffer
      ensures next == ptr + OVERHEAD && buffer[..next] == old(buffer[..ptr]) + EncodeHeader(g)
    {
      next := Put32(ptr, g.conv);
      next := Put8(next, g.cmd % 256);
      next := Put8(next, g.frg % 256);
      next := Put16(next, g.wnd);
      assert buffer[..next] == old(buffer[..ptr]) + (Encode32(g.conv) + [g.cmd % 256, g.frg % 256] + Encode16(g.wnd));
      next := Put32(next, g.ts);
      next := Put32(next, g.sn);
      next := Put32(next, g.una);
      next := Put32(next, |g.data|);
    }

    /** Copying a payload behind its header. */
    method PutData(ptr: nat, data: seq<byte>) returns (next: nat)
      requires ptr + |data| <= buffer.Length
      modifies buffer
      ensures next == ptr + |data| && buffer[..next] == old(buffer[..ptr]) + data
    {
      next := ptr;
      ghost var head := buffer[..ptr];
      for i := 0 to |data|
        invariant next == ptr + i && buffer[..next] == head + data[..i]
      {
        next := Put8(next, data[i]);
      }
    }

    /** Of the segments `gs` emitted so far, the first `ptr` bytes of the buffer hold those of
        the datagram being filled, and `sent` are the datagrams already output. */
    ghost predicate Filled(gs: seq<Seg>, ptr: nat, sent: seq<seq<byte>>)
      reads buffer
    {
      var p := Packing([], []).PutAll(cfg.mtu, gs);
      && buffer.Length == (cfg.mtu + OVERHEAD) * 3 && ptr <= cfg.mtu
      && buffer[..ptr] == EncodeAll(p.cur) && sent == EncodeEach(p.done)
    }

    /** `ikcp_output`: nothing is sent for an empty datagram. */
    method Output(ptr: nat, sent: seq<seq<byte>>, ghost gs: seq<Seg>) returns (sent': seq<seq<byte>>)
      requires Filled(gs, ptr, sent)
      ensures sent' == EncodeEach(Pack(cfg.mtu, gs))
    {
      ghost var p := Packing([], []).PutAll(cfg.mtu, gs);
      EncodeAllSize(p.cur);
      sent' := sent;
      if ptr > 0 {
        sent' := sent + [buffer[..ptr]];
        assert EncodeEach(p.done + [p.cur]) == EncodeEach(p.done) + [EncodeAll(p.cur)];
      }
    }

    /** Adding one segment to the datagram, which is output first when it would overflow. */
    method Emit(g: Seg, ptr: nat, sent: seq<seq<byte>>, ghost gs: seq<Seg>) returns (next: nat, sent': seq<seq<byte>>)
      requires Filled(gs, ptr, sent) && g.Size() <= cfg.mtu
      modifies buffer
      ensures Filled(gs + [g], next, sent')
    {
      ghost var p := Packing([], []).PutAll(cfg.mtu, gs);
      EncodeAllSize(p.cur);
      next, sent' := ptr, sent;
      if ptr + OVERHEAD + |g.data| > cfg.mtu {
        sent' := Output(ptr, sent, gs);
        next := 0;
      }
      ghost var cur := if ptr + OVERHEAD + |g.data| > cfg.mtu then [] else p.cur;
      assert buffer[..next] == EncodeAll(cur);
      next := PutHeader(next, g);
      next := PutData(next, g.data);
      EncodeOneMore(cur, g);
      PutAllMore(cfg.mtu, gs, g);
      assert [] + [g] == [g];
    }

    // -------------------------------------------------------------- ikcp_flush

    /** What this flush transmits with. */
    ghost function Now(): Pass
      reads this`current, this`rto, this`rcvNxt, this`rcvQueue
    {
      Pass(cfg, current, rto, if |rcvQueue| < cfg.rcvWnd then cfg.rcvWnd - |rcvQueue| else 0, rcvNxt)
    }

    /** `ikcp_wnd_unused`. */
    method FreeSlots() returns (n: nat)
      requires RcvValid()
      ensures n == WndUnused(cfg, Rcv())
    {
      if nrcvQue < cfg.rcvWnd { return cfg.rcvWnd - nrcvQue; }
      return 0;
    }

    /** The acknowledgement loop of a flush; `seg` is the header template it leaves behind. */
    method FlushAcks(seg0: Seg) returns (seg: Seg, ptr: nat, sent: seq<seq<byte>>)
      requires Valid() && seg0 == Header(Model(), CMD_ACK, 0, 0)
      modifies buffer
      ensures Filled(AckSegs(Model()), ptr, sent)
      ensures seg == var last := LastAck(ackList.acks); seg0.(sn := last.sn, ts := last.ts)
    {
      ghost var s := Model();
      seg, ptr, sent := seg0, 0, [];
      assert AckSegs(s)[..0] == [] && Filled([], ptr, sent);
      hide AckSegs, Filled;
      for i := 0 to ackList.count
        invariant Filled(AckSegs(s)[..i], ptr, sent)
        invariant seg == var last := LastAck(ackList.acks[..i]); seg0.(sn := last.sn, ts := last.ts)
      {
        AckSegAt(s, i);
        var sn, ts := ackList.Get(i);
        seg := seg.(sn := sn, ts := ts);
        ptr, sent := Emit(seg, ptr, sent, AckSegs(s)[..i]);
      }
      assert AckSegs(s)[..ackList.count] == AckSegs(s) && ackList.acks[..ackList.count] == ackList.acks;
    }

    /** The zero-window probe timer. */
    method TickProbe()
      modifies this`probeWait, this`tsProbe, this`askSend
      ensures Ctl() == ProbeTimer(old(Ctl()))
    {
      if rmtWnd == 0 {
        if probeWait == 0 {
          probeWait := PROBE_INIT;
          tsProbe := U32(current + probeWait);
        } else if Diff(current, tsProbe) >= 0 {
          if probeWait < PROBE_INIT { probeWait := PROBE_INIT; }
          probeWait := U32(probeWait + probeWait / 2);
          if probeWait > PROBE_LIMIT { probeWait := PROBE_LIMIT; }
          tsProbe := U32(current + probeWait);
          askSend := true;
        }
      } else {
        tsProbe, probeWait := 0, 0;
      }
    }

    /** The loop that numbers queued segments while the window has room. */
    method NumberSegs(window: nat, wnd: nat, ghost s: State)
      requires SndValid() && s.cfg == cfg && s.snd == Snd() && FlushPass(s) == Now() && wnd == Now().wnd
      modifies this`sndQueue, this`nsndQue, this`sndBuf, this`nsndBuf, this`sndNxt
      ensures SndValid() && Snd() == Admit(Wrapping, s, window)
    {
      while Diff(sndNxt, U32(sndUna + window)) < 0
        invariant SndValid() && sndUna == s.snd.una
        invariant Admit(Wrapping, s.(snd := Snd()), window) == Admit(Wrapping, s, window)
        decreases |sndQueue|
      {
        if |sndQueue| == 0 { break; }
        var f := sndQueue[0];
        assert FragOk(cfg, f);
        var u := Unacked(Seg(cfg.conv, CMD_PUSH, f.frg, wnd, current, sndNxt, rcvNxt, f.data), current, rto, 0, 0);
        sndQueue, nsndQue := sndQueue[1..], nsndQue - 1;
        sndBuf, nsndBuf := sndBuf + [u], nsndBuf + 1;
        sndNxt := U32(sndNxt + 1);
      }
    }

    /** Is the segment transmitted now, and with which timers? */
    method Judge(v: Unacked, resent: nat, rtomin: nat, lost: bool, change: nat)
      returns (u: Unacked, needsend: bool, lost': bool, change': nat)
      requires resent == cfg.Resent() && rtomin == Now().RtoMin()
      modifies this`xmit
      ensures var why := Now().Why(v);
              && needsend == (why != Hold) && lost' == (lost || why == Timeout)
              && xmit == (if why == Timeout then U32(old(xmit) + 1) else old(xmit))
              && change' == (if why == Fast then change + 1 else change)
      ensures u.seg == v.seg && (needsend || u == v) && Now().Touch(v) ==
              if needsend then u.(seg := v.seg.(ts := current, wnd := Now().wnd, una := rcvNxt)) else u
    {
      u, needsend, lost', change' := v, true, lost, change;
      if u.xmit == 0 {
        u := u.(xmit := U32(u.xmit + 1), rto := rto, resendTs := U32(current + rto + rtomin));
      } else if Diff(current, u.resendTs) >= 0 {
        xmit := U32(xmit + 1);
        u := u.(xmit := U32(u.xmit + 1), rto := U32(u.rto + (if cfg.nodelay then rto / 2 else rto)));
        u := u.(resendTs := U32(current + u.rto));
        lost' := true;
      } else if u.fastAck >= resent {
        u := u.(xmit := U32(u.xmit + 1), fastAck := 0, resendTs := U32(current + u.rto));
        change' := change + 1;
      } else {
        needsend := false;
      }
    }

    /** One turn of the transmission loop: the segment is rewritten in place. */
    method TransmitOne(i: nat, wnd: nat, resent: nat, rtomin: nat, ptr: nat, sent: seq<seq<byte>>,
                       lost: bool, change: nat, ghost turn: Turn)
      returns (next: nat, sent': seq<seq<byte>>, lost': bool, change': nat)
      requires turn == Turn(sndBuf, turn.segs, xmit, dead, lost, change)
      requires i < |sndBuf| && |sndBuf[i].seg.data| <= cfg.Mss() && Filled(turn.segs, ptr, sent)
      requires wnd == Now().wnd && resent == cfg.Resent() && rtomin == Now().RtoMin()
      modifies this`sndBuf, this`xmit, this`dead, buffer
      ensures var after := turn.After(Now(), i);
              && after == Turn(sndBuf, after.segs, xmit, dead, lost', change') && Filled(after.segs, next, sent')
    {
      hide Filled, Pass.Touch, Pass.Why, U32;
      next, sent' := ptr, sent;
      var u, needsend;
      u, needsend, lost', change' := Judge(sndBuf[i], resent, rtomin, lost, change);
      if needsend {
        u := u.(seg := u.seg.(ts := current, wnd := wnd, una := rcvNxt));
        sndBuf := sndBuf[i := u];
        next, sent' := Emit(u.seg, ptr, sent, turn.segs);
        if u.xmit >= cfg.deadLink { dead := true; }
      } else {
        assert sndBuf[i := u] == sndBuf;
      }
    }

    /** The transmission loop of a flush. */
    method Transmit(wnd: nat, ptr: nat, sent: seq<seq<byte>>, ghost gs: seq<Seg>)
      returns (next: nat, sent': seq<seq<byte>>, lost: bool, change: nat, ghost turn: Turn)
      requires Short(cfg, sndBuf) && xmit < TWO32 && Filled(gs, ptr, sent) && wnd == Now().wnd
      modifies this`sndBuf, this`xmit, this`dead, buffer
      ensures turn == Turn(sndBuf, turn.segs, xmit, dead, lost, change) && Filled(turn.segs, next, sent')
      ensures Turned(Now(), Turn(old(sndBuf), gs, old(xmit), old(dead), false, 0), turn, |old(sndBuf)|)
    {
      var resent := if cfg.fastResend > 0 then cfg.fastResend else NEVER_RESEND;
      var rtomin := if cfg.nodelay then 0 else rto / 8;
      ghost var pass, start := Now(), Turn(sndBuf, gs, xmit, dead, false, 0);
      next, sent', lost, change, turn := ptr, sent, false, 0, start;
      FirstTurn(pass, start);
      hide Filled, Turned, Turn.After, Short;
      for i := 0 to |sndBuf|
        invariant turn == Turn(sndBuf, turn.segs, xmit, dead, lost, change) && |sndBuf| == |start.buf|
        invariant Now() == pass && Filled(turn.segs, next, sent') && Turned(pass, start, turn, i)
      {
        NextTurn(pass, start, turn, i);
        ShortAt(cfg, start.buf, i);
        next, sent', lost, change := TransmitOne(i, wnd, resent, rtomin, next, sent', lost, change, turn);
        turn := turn.After(pass, i);
      }
    }

    /** The probe commands of a flush. */
    method FlushProbes(seg: Seg, ptr: nat, sent: seq<seq<byte>>, ghost gs: seq<Seg>)
      returns (next: nat, sent': seq<seq<byte>>)
      requires Filled(gs, ptr, sent) && seg.data == []
      modifies this`askSend, this`askTell, buffer
      ensures !askSend && !askTell
      ensures Filled(gs + Probes(seg, old(askSend), old(askTell)), next, sent')
    {
      hide Filled;
      next, sent' := ptr, sent;
      assert gs + [] == gs;
      if askSend {
        next, sent' := Emit(seg.(cmd := CMD_WASK), next, sent', gs);
      }
      ghost var gs1 := gs + if askSend then [seg.(cmd := CMD_WASK)] else [];
      assert gs1 + [] == gs1;
      if askTell {
        next, sent' := Emit(seg.(cmd := CMD_WINS), next, sent', gs1);
      }
      assert gs1 + (if askTell then [seg.(cmd := CMD_WINS)] else []) == gs + Probes(seg, askSend, askTell);
      askSend, askTell := false, false;
    }

    /** A fast retransmit halves the threshold. */
    method Halve(resent: nat)
      requires resent == cfg.Resent()
      modifies this`ssthresh, this`cwnd, this`incr
      ensures var th := Max(U32(sndNxt - sndUna) / 2, THRESH_MIN);
              var cw := U32(th + cfg.Resent());
              Ctl() == old(Ctl()).(ssthresh := th, cwnd := cw, incr := U32(cw * cfg.Mss()))
    {
      var inflight := U32(sndNxt - sndUna);
      ssthresh := inflight / 2;
      if ssthresh < THRESH_MIN { ssthresh := THRESH_MIN; }
      cwnd := U32(ssthresh + resent);
      incr := U32(cwnd * cfg.Mss());
    }

    /** A timeout closes the window to one segment. */
    method Collapse(window: nat)
      modifies this`ssthresh, this`cwnd, this`incr
      ensures Ctl() == old(Ctl()).(ssthresh := Max(window / 2, THRESH_MIN), cwnd := 1, incr := cfg.Mss())
    {
      ssthresh := window / 2;
      if ssthresh < THRESH_MIN { ssthresh := THRESH_MIN; }
      cwnd, incr := 1, cfg.Mss();
    }

    /** The congestion state at the end of a flush. */
    method AdjustWindow(lost: bool, change: nat, window: nat)
      modifies this`ssthresh, this`cwnd, this`incr
      ensures Ctl() == CwndAfterFlush(cfg, old(Ctl()), change > 0, lost, U32(sndNxt - sndUna), window)
    {
      hide U32;
      var resent := if cfg.fastResend > 0 then cfg.fastResend else NEVER_RESEND;
      if change > 0 { Halve(resent); }
      if lost { Collapse(window); }
      if cwnd < 1 { cwnd, incr := 1, cfg.Mss(); }
    }

    /** The probe timer and the probe commands. */
    method ProbePeer(seg: Seg, ptr: nat, sent: seq<seq<byte>>, ghost gs: seq<Seg>)
      returns (next: nat, sent': seq<seq<byte>>)
      requires Filled(gs, ptr, sent) && seg.data == []
      modifies this`probeWait, this`tsProbe, this`askSend, this`askTell, buffer
      ensures var ctl := ProbeTimer(old(Ctl()));
              && Ctl() == ctl.(askSend := false, askTell := false)
              && Filled(gs + Probes(seg, ctl.askSend, ctl.askTell), next, sent')
    {
      hide Filled, ProbeTimer, Probes;
      TickProbe();
      next, sent' := FlushProbes(seg, ptr, sent, gs);
    }

    /** The first half of a flush: pending acknowledgements, then probe commands. */
    method FlushControls(wnd: nat) returns (ptr: nat, sent: seq<seq<byte>>)
      requires Valid() && wnd == Now().wnd
      modifies this`probeWait, this`tsProbe, this`askSend, this`askTell, ackList`count, ackList`acks, buffer
      ensures ackList.Valid() && Rcv() == old(Rcv()).(acks := [])
      ensures Ctl() == ProbeTimer(old(Ctl())).(askSend := false, askTell := false)
      ensures Filled(AckSegs(old(Model())) + ProbeSegs(old(Model()), ProbeTimer(old(Ctl()))), ptr, sent)
    {
      hide Filled, AckSegs, ProbeTimer, ProbeSegs, Probes, SndValid;
      ghost var s := Model();
      var seg := Seg(cfg.conv, CMD_ACK, 0, wnd, 0, 0, rcvNxt, []);
      seg, ptr, sent := FlushAcks(seg);
      ackList.Clear();
      ProbesOfFlush(s, ProbeTimer(Ctl()), seg);
      ptr, sent := ProbePeer(seg, ptr, sent, AckSegs(s));
    }

    /** Transmission up to the last datagram. */
    method Deliver(wnd: nat, ptr: nat, sent: seq<seq<byte>>, ghost gs: seq<Seg>)
      returns (sent': seq<seq<byte>>, lost: bool, change: nat)
      requires Short(cfg, sndBuf) && xmit < TWO32 && Filled(gs, ptr, sent) && wnd == Now().wnd
      modifies this`sndBuf, this`xmit, this`dead, buffer
      ensures Short(cfg, sndBuf) && sndBuf == Now().TouchAll(old(sndBuf))
      ensures sent' == EncodeEach(Pack(cfg.mtu, gs + Now().DueSegs(old(sndBuf))))
      ensures lost == (Now().CountWhy(old(sndBuf), Timeout) > 0) && change == Now().CountWhy(old(sndBuf), Fast)
      ensures Ctl() == old(Ctl()).(xmit := U32(old(xmit) + Now().CountWhy(old(sndBuf), Timeout)),
                                   dead := old(dead) || Now().Dies(old(sndBuf)))
    {
      hide Filled, Turned, Short, Pack, EncodeEach, Pass.TouchAll, Pass.DueSegs, Pass.CountWhy, Pass.Dies;
      ghost var pass, start := Now(), Turn(sndBuf, gs, xmit, dead, false, 0);
      var next;
      ghost var turn;
      next, sent', lost, change, turn := Transmit(wnd, ptr, sent, gs);
      LastTurn(pass, start, turn);
      TouchAllShort(cfg, pass, start.buf);
      sent' := Output(next, sent', turn.segs);
    }

    /** Transmission, and the congestion window after it. */
    method DeliverAndAdjust(wnd: nat, window: nat, ptr: nat, sent: seq<seq<byte>>, ghost gs: seq<Seg>)
      returns (sent': seq<seq<byte>>)
      requires Short(cfg, sndBuf) && xmit < TWO32 && Filled(gs, ptr, sent) && wnd == Now().wnd
      modifies this`sndBuf, this`xmit, this`dead, this`ssthresh, this`cwnd, this`incr, buffer
      ensures Short(cfg, sndBuf) && sndBuf == Now().TouchAll(old(sndBuf)) && xmit < TWO32
      ensures sent' == EncodeEach(Pack(cfg.mtu, gs + Now().DueSegs(old(sndBuf))))
      ensures var lost, fast := Now().CountWhy(old(sndBuf), Timeout), Now().CountWhy(old(sndBuf), Fast);
              Ctl() == CwndAfterFlush(cfg,
                old(Ctl()).(xmit := U32(old(xmit) + lost), dead := old(dead) || Now().Dies(old(sndBuf))),
                fast > 0, lost > 0, U32(sndNxt - sndUna), window)
    {
      hide Filled, Short, Pack, EncodeEach, Pass.TouchAll, Pass.DueSegs, Pass.CountWhy, Pass.Dies;
      var lost, change;
      sent', lost, change := Deliver(wnd, ptr, sent, gs);
      ghost var ctl := Ctl();
      AdjustWindow(lost, change, window);
      AdjustKeepsXmit(cfg, ctl, change > 0, lost, U32(sndNxt - sndUna), window);
      hide CwndAfterFlush;
    }

    /** The window of a flush, and the numbering of what it has room for. */
    method AdmitWindow(wnd: nat, ghost s: State) returns (window: nat)
      requires SndValid() && wnd == Now().wnd && s.cfg == cfg && s.snd == Snd() && FlushPass(s) == Now()
      requires Ctl() == ProbeTimer(s.ctl).(askSend := false, askTell := false)
      modifies this`sndQueue, this`nsndQue, this`sndBuf, this`nsndBuf, this`sndNxt
      ensures SndValid() && Snd() == FlushSender(Wrapping, s) && window == FlushWindow(s)
    {
      hide QueueOk, Short, Admit, ProbeTimer;
      window := if cfg.sndWnd <= rmtWnd then cfg.sndWnd else rmtWnd;
      if !cfg.noCwnd && cwnd <= window { window := cwnd; }
      NumberSegs(window, wnd, s);
    }

    /** The second half: number, transmit, adjust the congestion window. */
    method FlushData(wnd: nat, ptr: nat, sent: seq<seq<byte>>, ghost s: State, ghost gs: seq<Seg>)
      returns (sent': seq<seq<byte>>)
      requires SndValid() && Filled(gs, ptr, sent) && wnd == Now().wnd
      requires s.cfg == cfg && s.snd == Snd() && FlushPass(s) == Now()
      requires Ctl() == ProbeTimer(s.ctl).(askSend := false, askTell := false)
      modifies this`sndQueue, this`nsndQue, this`sndBuf, this`nsndBuf, this`sndNxt, this`xmit, this`dead
      modifies this`ssthresh, this`cwnd, this`incr, buffer
      ensures var snd := FlushSender(Wrapping, s);
              && SndValid() && Snd() == snd.(buf := FlushPass(s).TouchAll(snd.buf)) && Ctl() == FlushControl(s, snd)
              && sent' == EncodeEach(Pack(cfg.mtu, gs + FlushPass(s).DueSegs(snd.buf)))
    {
      hide Filled, Short, QueueOk, FlushSender, FlushWindow, FlushControl, FlushPass, Pack, EncodeEach;
      hide ProbeTimer, CwndAfterFlush, Pass.TouchAll, Pass.DueSegs, Pass.CountWhy, Pass.Dies;
      var window := AdmitWindow(wnd, s);
      ControlOfFlush(s, Snd());
      sent' := DeliverAndAdjust(wnd, window, ptr, sent, gs);
    }

    /** `ikcp_flush`; `sent` is what the output callback is given. */
    method Flush() returns (sent: seq<seq<byte>>)
      requires Valid()
      modifies this, ackList`count, ackList`acks, buffer
      ensures Valid()
      ensures var f := Engine.Flush(Wrapping, old(Model()));
              Model() == f.s && sent == EncodeEach(f.Datagrams())
    {
      hide Filled, Short, QueueOk, AckSegs, ProbeSegs, Pack, FlushSender, FlushControl, Pass.TouchAll, Pass.DueSegs;
      ghost var s := Model();
      var wnd := FreeSlots();
      var ptr;
      ptr, sent := FlushControls(wnd);
      sent := FlushData(wnd, ptr, sent, s, AckSegs(s) + ProbeSegs(s, ProbeTimer(s.ctl)));
    }

    // -------------------------------------------------------------- ikcp_update, ikcp_check

    /** `ikcp_update`. */
    method Update(now: nat) returns (sent: seq<seq<byte>>)
      requires Valid()
      modifies this, ackList`count, ackList`acks, buffer
      ensures Valid()
      ensures var f := Engine.Update(Wrapping, old(Model()), now);
              Model() == f.s && sent == EncodeEach(f.Datagrams())
    {
      var due := Tick(now);
      sent := [];
      if due { sent := Flush(); }
    }

    /** The clock of `ikcp_update`: is a flush due? */
    method Tick(now: nat) returns (due: bool)
      modifies this`current, this`updated, this`tsFlush
      ensures Engine.Tick(due, Ctl()) == UpdateTick(cfg, old(Ctl()), now)
    {
      current := now;
      if !updated { updated, tsFlush := true, current; }
      var slap := Diff(current, tsFlush);
      if slap >= 10000 || slap < -10000 { tsFlush, slap := current, 0; }
      due := slap >= 0;
      if due {
        tsFlush := U32(tsFlush + cfg.interval);
        if Diff(current, tsFlush) >= 0 { tsFlush := U32(current + cfg.interval); }
      }
    }

    /** `ikcp_check`. */
    method Check(now: nat) returns (ts: nat)
      ensures ts == Engine.Check(Model(), now)
    {
      if !updated { return now; }
      var tsFlush := this.tsFlush;
      if Diff(now, tsFlush) >= 10000 || Diff(now, tsFlush) < -10000 { tsFlush := now; }
      if Diff(now, tsFlush) >= 0 { return now; }
      var tmFlush := Diff(tsFlush, now);
      var tmPacket := TWO31 - 1;
      for i := 0 to |sndBuf|
        invariant NearestResend(sndBuf[..i], now) == Some(tmPacket)
      {
        assert sndBuf[..i + 1][..i] == sndBuf[..i];
        var diff := Diff(sndBuf[i].resendTs, now);
        if diff <= 0 {
          DueAtOnce(sndBuf, i, now);
          return now;
        }
        if diff < tmPacket { tmPacket := diff; }
      }
      assert sndBuf[..|sndBuf|] == sndBuf;
      var minimal := if tmPacket < tmFlush then tmPacket else tmFlush;
      if minimal >= cfg.interval { minimal := cfg.interval; }
      return U32(now + minimal);
    }
  }
}
