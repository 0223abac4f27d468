/** What `ikcp_send` does to the queue: the byte stream it stands for, the size of every
    segment, full packing in stream mode and fragment numbering in message mode. */
module Sending {
  import opened Serial
  import opened Wire
  import opened Engine

  /** Enough room for the whole argument. */
  lemma FragCountCovers(mss: nat, len: nat)
    requires mss > 0
    ensures len <= FragCount(mss, len) * mss
    ensures len > 0 ==> (FragCount(mss, len) - 1) * mss < len
    ensures FragCount(mss, len) >= 1
  {
    if len > mss {
      var q, r := (len + mss - 1) / mss, (len + mss - 1) % mss;
      assert len + mss - 1 == q * mss + r;
      assert (q - 1) * mss == q * mss - mss;
    } else {
      assert 1 * mss == mss && 0 * mss == 0;
    }
  }

  /** The fragments carry the data, in order, none longer than the mss. */
  lemma {:induction false} FragmentsBytes(mss: nat, stream: bool, count: nat, data: seq<byte>)
    requires |data| <= count * mss && count <= 255
    ensures var fs := Fragments(mss, stream, count, data);
            && |fs| == count && Bytes(fs) == data
            && forall i :: 0 <= i < count ==> |fs[i].data| <= mss && fs[i].frg == if stream then 0 else count - 1 - i
  {
    if count > 0 {
      var size := Min(|data|, mss);
      assert (count - 1) * mss == count * mss - mss;
      FragmentsBytes(mss, stream, count - 1, data[size..]);
      assert data[..size] + data[size..] == data;
    } else {
      assert 0 * mss == 0;
    }
  }

  /** All fragments but the last are full when the count is the smallest possible. */
  lemma {:induction false} FragmentsFull(mss: nat, stream: bool, count: nat, data: seq<byte>)
    requires count > 0 ==> (count - 1) * mss < |data|
    ensures var fs := Fragments(mss, stream, count, data);
            |fs| == count && forall i :: 0 <= i < count - 1 ==> |fs[i].data| == mss
  {
    if count > 1 {
      assert (count - 1) * mss == (count - 2) * mss + mss;
      assert (count - 2) * mss >= 0;
      FragmentsFull(mss, stream, count - 1, data[mss..]);
    } else if count == 1 {
      assert Fragments(mss, stream, 0, data[Min(|data|, mss)..]) == [];
    }
  }

  lemma ExtendTailBytes(cfg: Config, queue: seq<Frag>, data: seq<byte>)
    ensures Extend(cfg, queue, |data|) <= |data|
    ensures Bytes(ExtendTail(cfg, queue, data)) == Bytes(queue) + data[..Extend(cfg, queue, |data|)]
  {
    var ext := Extend(cfg, queue, |data|);
    var q1 := ExtendTail(cfg, queue, data);
    if q1 != queue {
      var n := |queue| - 1;
      var last, longer := queue[n], q1[n];
      assert queue == queue[..n] + [last] && q1 == queue[..n] + [longer];
      BytesConcat(queue[..n], [last]);
      BytesConcat(queue[..n], [longer]);
      assert Bytes([last]) == last.data && Bytes([longer]) == longer.data;
      assert Bytes(queue[..n]) + (last.data + data[..ext]) == Bytes(queue[..n]) + last.data + data[..ext];
    } else {
      if cfg.stream && queue != [] && |queue[|queue| - 1].data| < cfg.Mss() {
        var n := |queue| - 1;
        assert q1[n] == Frag(0, queue[n].data + data[..ext]);
        assert |q1[n].data| == |queue[n].data| + ext;
      }
      assert data[..0] == [];
    }
  }

  /** What a send appends after extending the last segment. */
  lemma AppendedBytes(cfg: Config, queue: seq<Frag>, rest: seq<byte>)
    requires FragCount(cfg.Mss(), |rest|) <= 255
    ensures Bytes(queue + Fragments(cfg.Mss(), cfg.stream, FragCount(cfg.Mss(), |rest|), rest)) == Bytes(queue) + rest
  {
    var count := FragCount(cfg.Mss(), |rest|);
    FragCountCovers(cfg.Mss(), |rest|);
    FragmentsBytes(cfg.Mss(), cfg.stream, count, rest);
    BytesConcat(queue, Fragments(cfg.Mss(), cfg.stream, count, rest));
  }

  /** A send extends the byte stream by exactly what it takes: the whole argument when it
      succeeds, and on the -2 return only what the last queued segment absorbed. */
  lemma SendBytes(cfg: Config, queue: seq<Frag>, data: seq<byte>)
    ensures var r := Send(cfg, queue, data);
            && r.taken <= |data| && (r.code == 0 || r.code == -2)
            && (r.code == 0 ==> r.taken == |data|)
            && (r.code == -2 ==> r.taken == Extend(cfg, queue, |data|))
            && Bytes(r.queue) == Bytes(queue) + data[..r.taken]
  {
    ExtendTailBytes(cfg, queue, data);
    var ext := Extend(cfg, queue, |data|);
    var rest, q1 := data[ext..], ExtendTail(cfg, queue, data);
    assert data[..|data|] == data[..ext] + rest;
    if !(cfg.stream && rest == []) && FragCount(cfg.Mss(), |rest|) <= 255 {
      AppendedBytes(cfg, q1, rest);
      ConcatAssoc(Bytes(queue), data[..ext], rest);
    }
  }

  lemma ConcatAssoc(a: seq<byte>, b: seq<byte>, c: seq<byte>)
    ensures a + b + c == a + (b + c)
  { }

  lemma TooManyFragments(mss: nat, len: nat)
    requires mss > 0
    ensures FragCount(mss, len) > 255 <==> len > 255 * mss
  {
    FragCountCovers(mss, len);
    var c := FragCount(mss, len);
    if c > 255 { MulMono(255, c - 1, mss); } else { MulMono(c, 255, mss); }
  }

  /** The send is refused exactly when what is left after extending the last segment
      needs more than 255 fragments. */
  lemma SendRefused(cfg: Config, queue: seq<Frag>, data: seq<byte>)
    ensures Send(cfg, queue, data).code == -2 <==> |data| - Extend(cfg, queue, |data|) > 255 * cfg.Mss()
  {
    TooManyFragments(cfg.Mss(), |data| - Extend(cfg, queue, |data|));
  }

  /** A refused send is not without effect: in stream mode the last segment may have grown
      before the rest turned out to need too many fragments. */
  lemma RefusedAfterExtending(cfg: Config) returns (queue: seq<Frag>, data: seq<byte>)
    requires cfg.stream
    ensures var r := Send(cfg, queue, data);
            && r.code == -2 && r.taken > 0 && QueueOk(cfg, queue)
            && Bytes(r.queue) == Bytes(queue) + data[..r.taken] != Bytes(queue)
  {
    var mss := cfg.Mss();
    queue := [Frag(0, seq(mss - 1, i => 0))];
    data := seq(2 + 255 * mss, i => 0);
    assert Extend(cfg, queue, |data|) == 1;
    SendBytes(cfg, queue, data);
    SendRefused(cfg, queue, data);
    assert |Bytes(queue) + data[..1]| == |Bytes(queue)| + 1;
  }

  /** A send changes the queue although it is refused exactly when, in stream mode, the last
      segment has room and what does not fit into it needs more than 255 fragments. */
  lemma RefusedWithEffect(cfg: Config, queue: seq<Frag>, data: seq<byte>)
    ensures var r := Send(cfg, queue, data);
            var room := if queue == [] then 0 else cfg.Mss() - |queue[|queue| - 1].data|;
            (r.code == -2 && Bytes(r.queue) != Bytes(queue)) <==>
              (cfg.stream && room > 0 && |data| - room > 255 * cfg.Mss())
  {
    var ext := Extend(cfg, queue, |data|);
    SendBytes(cfg, queue, data);
    SendRefused(cfg, queue, data);
    assert |Bytes(queue) + data[..ext]| == |Bytes(queue)| + ext;
    assert ext == 0 ==> data[..ext] == [] && Bytes(queue) + data[..ext] == Bytes(queue);
  }

  /** A segment fits a datagram and, in stream mode, is no fragment of a longer message. */
  predicate FragOk(cfg: Config, f: Frag) {
    f.frg < 256 && |f.data| <= cfg.Mss() && (cfg.stream ==> f.frg == 0)
  }

  ghost predicate QueueOk(cfg: Config, queue: seq<Frag>) {
    forall f :: f in queue ==> FragOk(cfg, f)
  }

  /** Every queued segment fits a datagram. */
  lemma SendKeepsSizes(cfg: Config, queue: seq<Frag>, data: seq<byte>)
    requires QueueOk(cfg, queue)
    ensures QueueOk(cfg, Send(cfg, queue, data).queue)
  {
    ExtendTailBytes(cfg, queue, data);
    var ext := Extend(cfg, queue, |data|);
    var rest := data[ext..];
    var q1 := ExtendTail(cfg, queue, data);
    assert QueueOk(cfg, q1) by {
      forall f | f in q1 ensures FragOk(cfg, f) {
        var i :| 0 <= i < |q1| && q1[i] == f;
        if i < |queue| - 1 { assert q1[i] == queue[i]; } else { assert queue[i] in queue; }
      }
    }
    var count := FragCount(cfg.Mss(), |rest|);
    if count <= 255 {
      FragCountCovers(cfg.Mss(), |rest|);
      FragmentsBytes(cfg.Mss(), cfg.stream, count, rest);
    }
  }

  /** In stream mode every segment of the queue but the last is full, and none is a fragment. */
  ghost predicate FullyPacked(cfg: Config, queue: seq<Frag>) {
    && (forall i :: 0 <= i < |queue| - 1 ==> |queue[i].data| == cfg.Mss())
    && (forall i :: 0 <= i < |queue| ==> queue[i].frg == 0 && |queue[i].data| <= cfg.Mss())
  }

  lemma ExtendKeepsPacking(cfg: Config, queue: seq<Frag>, data: seq<byte>)
    requires cfg.stream && FullyPacked(cfg, queue)
    ensures var ext, q1 := Extend(cfg, queue, |data|), ExtendTail(cfg, queue, data);
            ext <= |data| && FullyPacked(cfg, q1) && (ext < |data| && q1 != [] ==> |q1[|q1| - 1].data| == cfg.Mss())
  { }

  lemma SendKeepsPacking(cfg: Config, queue: seq<Frag>, data: seq<byte>)
    requires cfg.stream && FullyPacked(cfg, queue)
    ensures FullyPacked(cfg, Send(cfg, queue, data).queue)
  {
    ExtendKeepsPacking(cfg, queue, data);
    var rest := data[Extend(cfg, queue, |data|)..];
    var count := FragCount(cfg.Mss(), |rest|);
    if rest != [] && count <= 255 {
      FragCountCovers(cfg.Mss(), |rest|);
      FragmentsBytes(cfg.Mss(), cfg.stream, count, rest);
      FragmentsFull(cfg.Mss(), cfg.stream, count, rest);
    }
  }
}
