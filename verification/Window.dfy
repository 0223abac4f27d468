/** The two windows of an endpoint, on sequence numbers that do not wrap: what every
    operation keeps of the send buffer, and of the reorder buffer and receive queue. */
module Window {
  import opened Serial
  import opened Wire
  import opened Engine

  // ---------------------------------------------------------------- the send window

  ghost predicate SortedUnacked(buf: seq<Unacked>) {
    forall i, j :: 0 <= i < j < |buf| ==> buf[i].seg.sn < buf[j].seg.sn
  }

  /** `snd_buf` is strictly sorted in [snd_una, snd_nxt), starts at snd_una, and the
      window never exceeds `snd_wnd`. */
  ghost predicate SndOk(cfg: Config, s: Sender) {
    && SortedUnacked(s.buf)
    && (forall u :: u in s.buf ==> s.una <= u.seg.sn < s.nxt && u.seg.cmd == CMD_PUSH && u.seg.conv == cfg.conv)
    && (if s.buf == [] then s.una == s.nxt else s.una == s.buf[0].seg.sn)
    && s.nxt - s.una <= cfg.sndWnd
  }

  /** The cumulative acknowledgement removes exactly the segments below it. */
  lemma {:induction false} DropUntilContents(buf: seq<Unacked>, una: nat)
    requires SortedUnacked(buf)
    ensures var r := DropUntil(Unbounded, buf, una);
            SortedUnacked(r) && forall u :: u in r <==> u in buf && u.seg.sn >= una
  {
    if buf != [] && una > buf[0].seg.sn {
      DropUntilContents(buf[1..], una);
      assert forall u :: u in buf <==> u == buf[0] || u in buf[1..];
    }
  }

  /** The selective acknowledgement removes exactly the segment it names. */
  lemma {:induction false} RemoveSnContents(buf: seq<Unacked>, sn: nat)
    requires SortedUnacked(buf)
    ensures var r := RemoveSn(Unbounded, buf, sn);
            SortedUnacked(r) && forall u :: u in r <==> u in buf && u.seg.sn != sn
  {
    if buf != [] {
      assert forall u :: u in buf <==> u == buf[0] || u in buf[1..];
      if sn > buf[0].seg.sn {
        RemoveSnContents(buf[1..], sn);
        var r1 := RemoveSn(Unbounded, buf[1..], sn);
        assert forall i :: 0 <= i < |r1| ==> r1[i] in buf[1..];
      }
    }
  }

  lemma ShrinkKeeps(cfg: Config, s: Sender)
    requires SortedUnacked(s.buf) && s.nxt - s.una <= cfg.sndWnd && s.una <= s.nxt
    requires forall u :: u in s.buf ==> s.una <= u.seg.sn < s.nxt && u.seg.cmd == CMD_PUSH && u.seg.conv == cfg.conv
    ensures SndOk(cfg, Shrink(s)) && s.una <= Shrink(s).una && Shrink(s).nxt == s.nxt
  {
    forall u | u in s.buf ensures Shrink(s).una <= u.seg.sn {
      var i :| 0 <= i < |s.buf| && s.buf[i] == u;
      assert s.buf[0] in s.buf;
    }
    if s.buf != [] { assert s.buf[0] in s.buf; }
  }

  /** One decoded segment, whatever it acknowledges: the window invariant is kept, both
      ends are monotone, and the buffer loses exactly what was acknowledged. */
  lemma InputAcksKeeps(cfg: Config, s: Sender, g: Seg)
    requires SndOk(cfg, s)
    ensures var t := InputAcks(Unbounded, s, g);
            && SndOk(cfg, t) && s.una <= t.una && t.nxt == s.nxt && t.queue == s.queue
            && forall u :: u in t.buf <==>
                 u in s.buf && u.seg.sn >= g.una && !(g.cmd == CMD_ACK && u.seg.sn == g.sn)
  {
    DropUntilContents(s.buf, g.una);
    var s1 := ParseUna(Unbounded, s, g.una);
    ShrinkKeeps(cfg, s1);
    var s2 := Shrink(s1);
    if g.cmd == CMD_ACK {
      RemoveSnContents(s2.buf, g.sn);
      var s3 := ParseAck(Unbounded, s2, g.sn);
      ShrinkKeeps(cfg, s3);
    }
  }

  /** Fast-ack counting changes no segment. */
  lemma {:induction false} CountSkipsKeeps(buf: seq<Unacked>, sn: nat)
    ensures var r := CountSkips(Unbounded, buf, sn);
            |r| == |buf| && forall i :: 0 <= i < |buf| ==> r[i] == buf[i].(fastAck := r[i].fastAck)
  {
    if buf != [] && sn >= buf[0].seg.sn { CountSkipsKeeps(buf[1..], sn); }
  }

  /** Replacing timers and headers in place keeps the window. */
  lemma SameNumbersKeep(cfg: Config, s: Sender, buf: seq<Unacked>)
    requires SndOk(cfg, s) && |buf| == |s.buf|
    requires forall i :: 0 <= i < |buf| ==> buf[i].seg.sn == s.buf[i].seg.sn && buf[i].seg.cmd == s.buf[i].seg.cmd
                                            && buf[i].seg.conv == s.buf[i].seg.conv
    ensures SndOk(cfg, s.(buf := buf))
  {
    forall u | u in buf ensures s.una <= u.seg.sn < s.nxt && u.seg.cmd == CMD_PUSH && u.seg.conv == cfg.conv {
      var i :| 0 <= i < |buf| && buf[i] == u;
      assert s.buf[i] in s.buf;
    }
  }

  lemma ParseFastAckKeeps(cfg: Config, s: Sender, sn: nat)
    requires SndOk(cfg, s)
    ensures var t := ParseFastAck(Unbounded, s, sn);
            && SndOk(cfg, t) && t == s.(buf := t.buf) && |t.buf| == |s.buf|
            && forall i :: 0 <= i < |s.buf| ==> t.buf[i].seg == s.buf[i].seg
  {
    CountSkipsKeeps(s.buf, sn);
    SameNumbersKeep(cfg, s, ParseFastAck(Unbounded, s, sn).buf);
  }

  /** How many segments a flush numbers. */
  function AdmitCount(s: State, window: nat): nat {
    Min(|s.snd.queue|, Max(0, s.snd.una + window - s.snd.nxt))
  }

  /** The numbering loop, in closed form: the next segments of the queue, in order, as
      many as the window has room for. */
  lemma {:induction false} AdmitForm(s: State, window: nat)
    ensures var n := AdmitCount(s, window);
            Admit(Unbounded, s, window) ==
              Sender(s.snd.una, s.snd.nxt + n, s.snd.queue[n..],
                     s.snd.buf + seq(n, i requires 0 <= i < n => Number(s, s.snd.queue[i], s.snd.nxt + i)))
    decreases |s.snd.queue|
  {
    var n := AdmitCount(s, window);
    if n > 0 {
      var t := s.snd;
      var first := Number(s, t.queue[0], t.nxt);
      var s1 := s.(snd := t.(queue := t.queue[1..], buf := t.buf + [first], nxt := t.nxt + 1));
      AdmitForm(s1, window);
      assert AdmitCount(s1, window) == n - 1;
      var tail := seq(n - 1, i requires 0 <= i < n - 1 => Number(s1, s1.snd.queue[i], s1.snd.nxt + i));
      var all := seq(n, i requires 0 <= i < n => Number(s, s.snd.queue[i], s.snd.nxt + i));
      assert [first] + tail == all;
      assert s1.snd.buf + tail == t.buf + ([first] + tail);
    }
  }

  lemma NumberedKeeps(s: State)
    requires SndOk(s.cfg, s.snd) && s.snd.queue != [] && s.snd.nxt - s.snd.una < s.cfg.sndWnd
    ensures SndOk(s.cfg, s.snd.(queue := s.snd.queue[1..], nxt := s.snd.nxt + 1,
                                buf := s.snd.buf + [Number(s, s.snd.queue[0], s.snd.nxt)]))
  {
    var u := Number(s, s.snd.queue[0], s.snd.nxt);
    var buf := s.snd.buf + [u];
    assert forall v :: v in buf <==> v in s.snd.buf || v == u;
    forall i, j | 0 <= i < j < |buf| ensures buf[i].seg.sn < buf[j].seg.sn {
      assert buf[i] in s.snd.buf;
    }
  }

  lemma {:induction false} AdmitKeeps(s: State, window: nat)
    requires SndOk(s.cfg, s.snd) && window <= s.cfg.sndWnd
    ensures var t := Admit(Unbounded, s, window);
            && SndOk(s.cfg, t) && t.una == s.snd.una && t.nxt == s.snd.nxt + AdmitCount(s, window)
            && t.queue == s.snd.queue[AdmitCount(s, window)..] && s.snd.buf <= t.buf
    decreases |s.snd.queue|
  {
    var t := s.snd;
    if AdmitCount(s, window) > 0 {
      NumberedKeeps(s);
      var first := Number(s, t.queue[0], t.nxt);
      AdmitKeeps(s.(snd := t.(queue := t.queue[1..], buf := t.buf + [first], nxt := t.nxt + 1)), window);
    }
  }

  /** A flush keeps the send window: it only numbers queued segments and rewrites timers. */
  lemma FlushKeepsSender(s: State)
    requires SndOk(s.cfg, s.snd)
    ensures var t := Flush(Unbounded, s).s;
            var n := AdmitCount(s, FlushWindow(s));
            && SndOk(s.cfg, t.snd) && t.snd.una == s.snd.una && t.snd.nxt == s.snd.nxt + n
            && t.snd.queue == s.snd.queue[n..]
  {
    hide FlushSegs, FlushControl;
    var window := FlushWindow(s);
    AdmitKeeps(s, window);
    SameNumbersKeep(s.cfg, Admit(Unbounded, s, window), Flush(Unbounded, s).s.snd.buf);
  }

  // ---------------------------------------------------------------- the receive window

  ghost predicate SortedSegs(buf: seq<Seg>) {
    forall i, j :: 0 <= i < j < |buf| ==> buf[i].sn < buf[j].sn
  }

  /** `rcv_buf` is strictly sorted in [rcv_nxt, rcv_nxt + rcv_wnd), and `rcv_queue` holds
      the segments just below `rcv_nxt`, at most `rcv_wnd` of them. */
  ghost predicate RcvShape(wnd: nat, r: Receiver) {
    && SortedSegs(r.buf)
    && (forall g :: g in r.buf ==> r.nxt <= g.sn < r.nxt + wnd)
    && |r.queue| <= wnd && |r.queue| <= r.nxt
    && (forall i :: 0 <= i < |r.queue| ==> r.queue[i].sn == r.nxt - |r.queue| + i)
  }

  /** Nothing that could be moved to the queue is left in the reorder buffer. */
  ghost predicate Drained(wnd: nat, r: Receiver) {
    r.buf == [] || r.buf[0].sn != r.nxt || |r.queue| >= wnd
  }

  ghost predicate RcvOk(wnd: nat, r: Receiver) {
    RcvShape(wnd, r) && Drained(wnd, r)
  }

  ghost predicate Has(buf: seq<Seg>, sn: int) {
    exists g :: g in buf && g.sn == sn
  }

  /** The receiver has the segment numbered `sn`. */
  ghost predicate Held(r: Receiver, sn: int) {
    sn < r.nxt || Has(r.buf, sn)
  }

  /** Inserting adds the segment unless its number is already there. */
  lemma {:induction false} InsertContents(buf: seq<Seg>, g: Seg)
    requires SortedSegs(buf)
    ensures var r := Insert(Unbounded, buf, g);
            && SortedSegs(r)
            && (forall h :: h in r <==> h in buf || (h == g && !Has(buf, g.sn)))
    decreases |buf|
  {
    if buf != [] {
      var n := |buf| - 1;
      if buf[n].sn == g.sn {
        assert buf[n] in buf;
      } else if g.sn > buf[n].sn {
        forall h | h in buf ensures h.sn != g.sn {
          var i :| 0 <= i < |buf| && buf[i] == h;
        }
      } else {
        InsertContents(buf[..n], g);
        InsertBelowLast(buf, g);
      }
    }
  }

  lemma InsertBelowLast(buf: seq<Seg>, g: Seg)
    requires SortedSegs(buf) && buf != [] && g.sn < buf[|buf| - 1].sn
    requires var r := Insert(Unbounded, buf[..|buf| - 1], g);
             && SortedSegs(r)
             && (forall h :: h in r <==> h in buf[..|buf| - 1] || (h == g && !Has(buf[..|buf| - 1], g.sn)))
    ensures var r := Insert(Unbounded, buf[..|buf| - 1], g) + [buf[|buf| - 1]];
             && SortedSegs(r)
             && (forall h :: h in r <==> h in buf || (h == g && !Has(buf, g.sn)))
  {
    var n := |buf| - 1;
    var r1 := Insert(Unbounded, buf[..n], g);
    assert forall h :: h in buf <==> h in buf[..n] || h == buf[n];
    assert Has(buf, g.sn) <==> Has(buf[..n], g.sn);
    forall h | h in r1 ensures h.sn < buf[n].sn { }
    var r := r1 + [buf[n]];
    forall i, j | 0 <= i < j < |r| ensures r[i].sn < r[j].sn {
      assert r[i] in r1;
    }
  }

  /** The drain loop, in closed form: it moves the `n` first segments of the buffer. */
  ghost predicate DrainedBy(wnd: nat, r: Receiver, d: Receiver, n: nat) {
    && n <= |r.buf|
    && (forall i :: 0 <= i < n ==> r.buf[i].sn == r.nxt + i)
    && d == Receiver(r.nxt + n, r.buf[n..], r.queue + r.buf[..n], r.acks)
  }

  lemma {:induction false} DrainForm(wnd: nat, r: Receiver) returns (n: nat)
    ensures DrainedBy(wnd, r, Drain(Unbounded, wnd, r), n)
    ensures Drained(wnd, Drain(Unbounded, wnd, r))
    ensures |r.queue| <= wnd ==> |r.queue| + n <= wnd
    decreases |r.buf|
  {
    if r.buf != [] && r.buf[0].sn == r.nxt && |r.queue| < wnd {
      var r1 := r.(nxt := r.nxt + 1, buf := r.buf[1..], queue := r.queue + [r.buf[0]]);
      var m := DrainForm(wnd, r1);
      n := m + 1;
      assert r.buf[..n] == [r.buf[0]] + r1.buf[..m];
      assert r1.queue + r1.buf[..m] == r.queue + r.buf[..n];
      assert r1.buf[m..] == r.buf[n..];
      assert forall i :: 0 <= i < m ==> r1.buf[i] == r.buf[i + 1];
      forall i | 0 <= i < n ensures r.buf[i].sn == r.nxt + i {
        if i > 0 { assert r1.buf[i - 1].sn == r1.nxt + (i - 1); }
      }
    } else {
      n := 0;
      assert r.queue + r.buf[..0] == r.queue;
    }
  }

  /** Draining keeps the receive window, loses nothing and stops only when it must. */
  lemma DrainKeeps(wnd: nat, r: Receiver)
    requires RcvShape(wnd, r)
    ensures var d := Drain(Unbounded, wnd, r);
            && RcvOk(wnd, d) && r.nxt <= d.nxt && r.queue <= d.queue && d.acks == r.acks
            && d.nxt - |d.queue| == r.nxt - |r.queue|
            && (forall sn: int :: Held(r, sn) <==> Held(d, sn))
            && (forall g :: g in d.buf ==> g in r.buf)
            && (forall i :: |r.queue| <= i < |d.queue| ==> d.queue[i] in r.buf)
  {
    var n := DrainForm(wnd, r);
    DrainedByShape(wnd, r, Drain(Unbounded, wnd, r), n);
    DrainedByHeld(wnd, r, Drain(Unbounded, wnd, r), n);
  }

  lemma DrainedByShape(wnd: nat, r: Receiver, d: Receiver, n: nat)
    requires RcvShape(wnd, r) && DrainedBy(wnd, r, d, n) && |r.queue| + n <= wnd
    ensures RcvShape(wnd, d)
    ensures forall g :: g in d.buf ==> g in r.buf
    ensures forall i :: |r.queue| <= i < |d.queue| ==> d.queue[i] in r.buf
  {
    forall g | g in d.buf ensures d.nxt <= g.sn < d.nxt + wnd && g in r.buf {
      var i :| 0 <= i < |d.buf| && d.buf[i] == g;
      assert r.buf[i + n] == g;
      if n > 0 { assert r.buf[n - 1].sn == r.nxt + (n - 1); }
    }
    forall i | |r.queue| <= i < |d.queue| ensures d.queue[i] in r.buf && d.queue[i].sn == d.nxt - |d.queue| + i {
      assert d.queue[i] == r.buf[i - |r.queue|];
    }
  }

  lemma DrainedByHeld(wnd: nat, r: Receiver, d: Receiver, n: nat)
    requires RcvShape(wnd, r) && DrainedBy(wnd, r, d, n)
    ensures forall sn: int :: Held(r, sn) <==> Held(d, sn)
  {
    forall sn: int ensures Held(r, sn) <==> Held(d, sn) {
      if Has(r.buf, sn) {
        var g :| g in r.buf && g.sn == sn;
        var i :| 0 <= i < |r.buf| && r.buf[i] == g;
        if i >= n { assert d.buf[i - n] == g; } else { assert g.sn == r.nxt + i; }
      }
      if r.nxt <= sn < d.nxt { assert r.buf[sn - r.nxt] in r.buf; }
      if Has(d.buf, sn) {
        var g :| g in d.buf && g.sn == sn;
        assert g in r.buf;
      }
    }
  }

  /** One data segment, whatever its number: the receive window is kept and, when the
      segment is inside it, its number is held from then on. */
  lemma ParseDataKeeps(wnd: nat, r: Receiver, g: Seg)
    requires RcvOk(wnd, r)
    ensures var d := ParseData(Unbounded, wnd, r, g);
            && RcvOk(wnd, d) && r.nxt <= d.nxt && r.queue <= d.queue && d.acks == r.acks
            && d.nxt - |d.queue| == r.nxt - |r.queue|
            && (forall sn: int :: Held(d, sn) <==> Held(r, sn) || (sn == g.sn && g.sn < r.nxt + wnd))
            && (forall h :: h in d.buf ==> h in r.buf || h == g)
            && (forall i :: |r.queue| <= i < |d.queue| ==> d.queue[i] in r.buf || d.queue[i] == g)
  {
    if r.nxt <= g.sn < r.nxt + wnd {
      InsertKeepsShape(wnd, r, g);
      DrainKeeps(wnd, r.(buf := Insert(Unbounded, r.buf, g)));
    }
  }

  lemma InsertKeepsShape(wnd: nat, r: Receiver, g: Seg)
    requires RcvShape(wnd, r) && r.nxt <= g.sn < r.nxt + wnd
    ensures var r1 := r.(buf := Insert(Unbounded, r.buf, g));
            && RcvShape(wnd, r1)
            && (forall sn: int :: Held(r1, sn) <==> Held(r, sn) || sn == g.sn)
            && (forall h :: h in r1.buf ==> h in r.buf || h == g)
  {
    InsertContents(r.buf, g);
    var r1 := r.(buf := Insert(Unbounded, r.buf, g));
    assert Has(r1.buf, g.sn);
    forall sn: int ensures Held(r1, sn) <==> Held(r, sn) || sn == g.sn { }
  }

  lemma InputPushKeeps(wnd: nat, r: Receiver, g: Seg)
    requires RcvOk(wnd, r)
    ensures var d := InputPush(Unbounded, wnd, r, g);
            && RcvOk(wnd, d) && r.nxt <= d.nxt && r.queue <= d.queue
            && d.nxt - |d.queue| == r.nxt - |r.queue|
            && d.acks == r.acks + (if g.sn < r.nxt + wnd then [Ack(g.sn, g.ts)] else [])
            && (forall sn: int :: Held(d, sn) <==> Held(r, sn) || (sn == g.sn && g.sn < r.nxt + wnd))
            && (forall h :: h in d.buf ==> h in r.buf || h == g)
            && (forall i :: |r.queue| <= i < |d.queue| ==> d.queue[i] in r.buf || d.queue[i] == g)
  {
    var r1 := r.(acks := r.acks + [Ack(g.sn, g.ts)]);
    ParseDataKeeps(wnd, r1, g);
    assert forall sn: int :: Held(r1, sn) <==> Held(r, sn);
  }

  /** `ikcp_recv` keeps the receive window; the segments it takes are the first of the queue. */
  lemma RecvKeeps(s: State, len: int)
    requires RcvOk(s.cfg.rcvWnd, s.rcv)
    ensures var t := Recv(Unbounded, s, len).s;
            && RcvOk(s.cfg.rcvWnd, t.rcv) && s.rcv.nxt <= t.rcv.nxt <= s.rcv.nxt + s.cfg.rcvWnd
            && t.rcv.acks == s.rcv.acks
            && (forall sn: int :: Held(s.rcv, sn) <==> Held(t.rcv, sn))
            && (forall g :: g in t.rcv.buf ==> g in s.rcv.buf)
  {
    var q := s.rcv.queue;
    var q1 := if len < 0 then q else q[MergeCount(q)..];
    var r1 := s.rcv.(queue := q1);
    assert RcvShape(s.cfg.rcvWnd, r1);
    assert forall sn: int :: Held(s.rcv, sn) <==> Held(r1, sn);
    DrainKeeps(s.cfg.rcvWnd, r1);
  }

  /** Strictly sorted numbers in an interval are at most as many as the interval is long. */
  lemma {:induction false} BufferFits(wnd: nat, r: Receiver)
    requires RcvShape(wnd, r)
    ensures |r.buf| <= wnd
  {
    if r.buf != [] {
      SpreadFrom(r.buf, |r.buf| - 1);
      assert r.buf[0] in r.buf && r.buf[|r.buf| - 1] in r.buf;
    }
  }

  lemma {:induction false} SpreadFrom(buf: seq<Seg>, i: nat)
    requires SortedSegs(buf) && i < |buf|
    ensures buf[i].sn >= buf[0].sn + i
  {
    if i > 0 { SpreadFrom(buf, i - 1); }
  }
}
