/** Confluence of the reorder buffer: the order in which in-window segments arrive, and
    how often each does, makes no difference to what the receiver ends up with. */
module Reorder {
  import opened Serial
  import opened Wire
  import opened Engine
  import opened Window
  import opened Refinement
  import E = Endpoint

  /** Segments fed to `ikcp_parse_data` one after the other. */
  function Feed(ar: Arith, wnd: nat, r: Receiver, gs: seq<Seg>): Receiver
    decreases |gs|
  {
    if gs == [] then r else ParseData(ar, wnd, Feed(ar, wnd, r, gs[..|gs| - 1]), gs[|gs| - 1])
  }

  /** A held segment without the header fields that nothing reads afterwards. */
  datatype Item = Item(sn: nat, pay: Frag)

  function Items(gs: seq<Seg>): (r: seq<Item>)
    ensures |r| == |gs|
  {
    seq(|gs|, i requires 0 <= i < |gs| => Item(gs[i].sn, gs[i].Pay()))
  }

  /** What the user and the protocol see of a receiver. */
  datatype View = View(nxt: nat, queue: seq<Item>, buf: seq<Item>)

  function ViewOf(r: Receiver): View {
    View(r.nxt, Items(r.queue), Items(r.buf))
  }

  ghost predicate SameNumbers(a: seq<Seg>, b: seq<Seg>) {
    forall sn: int :: Has(a, sn) <==> Has(b, sn)
  }

  ghost predicate Carries(gs: seq<Seg>, pay: nat -> Frag) {
    forall g :: g in gs ==> g.Pay() == pay(g.sn)
  }

  ghost predicate InWindow(r: Receiver, wnd: nat, gs: seq<Seg>) {
    forall g :: g in gs ==> r.nxt <= g.sn < r.nxt + wnd
  }

  // ---------------------------------------------------------------- what feeding adds

  ghost predicate FedFrom(wnd: nat, r: Receiver, d: Receiver, gs: seq<Seg>) {
    && RcvOk(wnd, d) && r.nxt <= d.nxt && r.queue <= d.queue && d.nxt - |d.queue| == r.nxt - |r.queue|
    && (forall sn: int :: Held(d, sn) <==> Held(r, sn) || Has(gs, sn))
    && (forall h :: h in d.buf ==> h in r.buf || h in gs)
    && (forall i :: |r.queue| <= i < |d.queue| ==> d.queue[i] in r.buf || d.queue[i] in gs)
  }

  lemma HasSnoc(gs: seq<Seg>, g: Seg)
    ensures forall sn: int :: Has(gs + [g], sn) <==> Has(gs, sn) || sn == g.sn
  {
    assert g in gs + [g];
    forall sn: int | Has(gs, sn) ensures Has(gs + [g], sn) {
      var h :| h in gs && h.sn == sn;
      assert h in gs + [g];
    }
  }

  lemma FedSnoc(wnd: nat, r: Receiver, d: Receiver, gs: seq<Seg>, g: Seg)
    requires FedFrom(wnd, r, d, gs) && g.sn < r.nxt + wnd
    ensures FedFrom(wnd, r, ParseData(Unbounded, wnd, d, g), gs + [g])
  {
    ParseDataKeeps(wnd, d, g);
    HasSnoc(gs, g);
  }

  lemma {:induction false} FeedAdds(wnd: nat, r: Receiver, gs: seq<Seg>)
    requires RcvOk(wnd, r) && InWindow(r, wnd, gs)
    ensures FedFrom(wnd, r, Feed(Unbounded, wnd, r, gs), gs)
    decreases |gs|
  {
    if gs != [] {
      var n := |gs| - 1;
      assert gs == gs[..n] + [gs[n]];
      FeedAdds(wnd, r, gs[..n]);
      FedSnoc(wnd, r, Feed(Unbounded, wnd, r, gs[..n]), gs[..n], gs[n]);
    }
  }

  // ---------------------------------------------------------------- the result is determined

  /** A receiver that holds more in order than another with the same segments would have
      had to leave the other undrained. */
  lemma NotBehind(wnd: nat, d: Receiver, e: Receiver)
    requires RcvOk(wnd, d) && RcvOk(wnd, e) && d.nxt - |d.queue| == e.nxt - |e.queue|
    requires forall sn: int :: Held(d, sn) <==> Held(e, sn)
    ensures d.nxt >= e.nxt
  {
    if Has(d.buf, d.nxt) { NextMeansFull(wnd, d); }
    assert Held(e, d.nxt) <==> Held(d, d.nxt);
  }

  /** The next segment stays in the buffer only when the queue is full. */
  lemma NextMeansFull(wnd: nat, d: Receiver)
    requires RcvOk(wnd, d) && Has(d.buf, d.nxt)
    ensures |d.queue| >= wnd
  {
    var g :| g in d.buf && g.sn == d.nxt;
    var i :| 0 <= i < |d.buf| && d.buf[i] == g;
    assert d.buf[0] in d.buf;
    assert i == 0;
  }

  /** Two strictly sorted buffers with the same numbers and payloads show the same items. */
  lemma {:induction false} SortedItems(a: seq<Seg>, b: seq<Seg>, pay: nat -> Frag)
    requires SortedSegs(a) && SortedSegs(b) && Carries(a, pay) && Carries(b, pay) && SameNumbers(a, b)
    ensures Items(a) == Items(b)
    decreases |a|
  {
    if a == [] {
      if b != [] { NotEmpty(b); }
    } else {
      NotEmpty(a);
      assert b != [];
      NotEmpty(b);
      FirstAgree(a, b);
      RestAgree(a, b);
      SortedItems(a[1..], b[1..], pay);
      assert Items(a) == [Items(a)[0]] + Items(a[1..]);
      assert Items(b) == [Items(b)[0]] + Items(b[1..]);
    }
  }

  lemma NotEmpty(a: seq<Seg>)
    requires a != []
    ensures Has(a, a[0].sn)
  { assert a[0] in a; }

  lemma FirstAgree(a: seq<Seg>, b: seq<Seg>)
    requires SortedSegs(a) && SortedSegs(b) && SameNumbers(a, b) && a != [] && b != []
    ensures a[0].sn == b[0].sn
  {
    NotEmpty(a);
    NotEmpty(b);
    var x :| x in b && x.sn == a[0].sn;
    var y :| y in a && y.sn == b[0].sn;
  }

  lemma RestHas(a: seq<Seg>, sn: int)
    requires SortedSegs(a) && a != []
    ensures Has(a[1..], sn) <==> Has(a, sn) && sn != a[0].sn
  {
    if Has(a, sn) && sn != a[0].sn {
      var x :| x in a && x.sn == sn;
      assert x in a[1..];
    }
    if Has(a[1..], sn) {
      var x :| x in a[1..] && x.sn == sn;
      assert x in a;
    }
  }

  lemma RestAgree(a: seq<Seg>, b: seq<Seg>)
    requires SortedSegs(a) && SortedSegs(b) && SameNumbers(a, b) && a != [] && b != [] && a[0].sn == b[0].sn
    ensures SameNumbers(a[1..], b[1..])
  {
    forall sn: int ensures Has(a[1..], sn) <==> Has(b[1..], sn) {
      RestHas(a, sn);
      RestHas(b, sn);
    }
  }

  lemma FedCarries(wnd: nat, r: Receiver, d: Receiver, gs: seq<Seg>, pay: nat -> Frag)
    requires FedFrom(wnd, r, d, gs) && Carries(gs, pay) && Carries(r.buf, pay)
    ensures Carries(d.buf, pay) && Carries(d.queue[|r.queue|..], pay)
  {
    var q := d.queue[|r.queue|..];
    forall g | g in q ensures g.Pay() == pay(g.sn) {
      var i :| 0 <= i < |q| && q[i] == g;
      assert d.queue[i + |r.queue|] == g;
    }
  }

  /** The queues agree: the old segments are the same, the new ones have the same numbers. */
  lemma QueueItems(wnd: nat, r: Receiver, d: Receiver, e: Receiver, pay: nat -> Frag)
    requires RcvOk(wnd, d) && RcvOk(wnd, e) && d.nxt == e.nxt && |d.queue| == |e.queue|
    requires r.queue <= d.queue && r.queue <= e.queue
    requires Carries(d.queue[|r.queue|..], pay) && Carries(e.queue[|r.queue|..], pay)
    ensures Items(d.queue) == Items(e.queue)
  {
    forall i | 0 <= i < |d.queue| ensures Items(d.queue)[i] == Items(e.queue)[i] {
      if i < |r.queue| {
        assert d.queue[i] == r.queue[i] == e.queue[i];
      } else {
        var k := i - |r.queue|;
        assert d.queue[|r.queue|..][k] in d.queue[|r.queue|..];
        assert e.queue[|r.queue|..][k] in e.queue[|r.queue|..];
      }
    }
  }

  lemma BufNumbers(wnd: nat, d: Receiver, e: Receiver)
    requires RcvOk(wnd, d) && RcvOk(wnd, e) && d.nxt == e.nxt
    requires forall sn: int :: Held(d, sn) <==> Held(e, sn)
    ensures SameNumbers(d.buf, e.buf)
  {
    forall sn: int ensures Has(d.buf, sn) <==> Has(e.buf, sn) {
      assert Held(d, sn) <==> Held(e, sn);
    }
  }

  /** Confluence, on numbers that do not wrap: any two arrival sequences of in-window
      segments with the same numbers (and one payload per number) give the same
      `rcv_nxt`, the same queue and the same reorder buffer. */
  lemma Confluent(wnd: nat, r: Receiver, xs: seq<Seg>, ys: seq<Seg>, pay: nat -> Frag)
    requires RcvOk(wnd, r) && InWindow(r, wnd, xs) && InWindow(r, wnd, ys)
    requires Carries(r.buf, pay) && Carries(xs, pay) && Carries(ys, pay) && SameNumbers(xs, ys)
    ensures ViewOf(Feed(Unbounded, wnd, r, xs)) == ViewOf(Feed(Unbounded, wnd, r, ys))
  {
    FeedAdds(wnd, r, xs);
    FeedAdds(wnd, r, ys);
    ViewsAgree(wnd, r, Feed(Unbounded, wnd, r, xs), Feed(Unbounded, wnd, r, ys), xs, ys, pay);
  }

  lemma ViewsAgree(wnd: nat, r: Receiver, d: Receiver, e: Receiver, xs: seq<Seg>, ys: seq<Seg>, pay: nat -> Frag)
    requires FedFrom(wnd, r, d, xs) && FedFrom(wnd, r, e, ys)
    requires Carries(r.buf, pay) && Carries(xs, pay) && Carries(ys, pay) && SameNumbers(xs, ys)
    ensures ViewOf(d) == ViewOf(e)
  {
    assert forall sn: int :: Held(d, sn) <==> Held(e, sn);
    NotBehind(wnd, d, e);
    NotBehind(wnd, e, d);
    FedCarries(wnd, r, d, xs, pay);
    FedCarries(wnd, r, e, ys, pay);
    QueueItems(wnd, r, d, e, pay);
    BufNumbers(wnd, d, e);
    SortedItems(d.buf, e.buf, pay);
  }

  // ---------------------------------------------------------------- on 32-bit numbers

  lemma {:induction false} FeedWraps(wnd: nat, r: Receiver, gs: seq<Seg>)
    requires RcvOk(wnd, r) && wnd < 65536 && InWindow(r, wnd, gs)
    ensures Feed(Wrapping, wnd, WrapReceiver(r), WrapSegs(gs)) == WrapReceiver(Feed(Unbounded, wnd, r, gs))
    decreases |gs|
  {
    if gs != [] {
      var n := |gs| - 1;
      assert WrapSegs(gs)[..n] == WrapSegs(gs[..n]);
      assert gs[n] in gs && forall g :: g in gs[..n] ==> g in gs;
      FeedWraps(wnd, r, gs[..n]);
      FeedAdds(wnd, r, gs[..n]);
      ParseDataWraps(wnd, Feed(Unbounded, wnd, r, gs[..n]), gs[n]);
    }
  }

  /** The segments with the numbers they have counted from the window's start. */
  function Unwrap(gs: seq<Seg>, nxt: nat): (r: seq<Seg>)
    ensures |r| == |gs|
  {
    seq(|gs|, i requires 0 <= i < |gs| => gs[i].(sn := nxt + E.Off(gs[i].sn, U32(nxt))))
  }

  ghost predicate RawInWindow(r: Receiver, wnd: nat, gs: seq<Seg>) {
    forall g :: g in gs ==> g.sn < TWO32 && g.una < TWO32 && E.Off(g.sn, r.nxt) < wnd
  }

  lemma OffAdds(x: nat, nxt: nat)
    requires x < TWO32
    ensures U32(nxt + E.Off(x, U32(nxt))) == x
  {
    var d := x - U32(nxt);
    U32Congruent(nxt + U32(d), x, nxt / TWO32 - d / TWO32);
    U32Small(x);
  }

  lemma UnwrapWraps(gs: seq<Seg>, nxt: nat)
    requires forall g :: g in gs ==> g.sn < TWO32 && g.una < TWO32
    ensures WrapSegs(Unwrap(gs, nxt)) == gs
  {
    forall i | 0 <= i < |gs| ensures WrapSegs(Unwrap(gs, nxt))[i] == gs[i] {
      assert gs[i] in gs;
      OffAdds(gs[i].sn, nxt);
      U32Small(gs[i].una);
    }
  }

  lemma UnwrapHas(gs: seq<Seg>, nxt: nat, sn: int)
    ensures Has(Unwrap(gs, nxt), sn) <==> exists g :: g in gs && sn == nxt + E.Off(g.sn, U32(nxt))
  {
    var us := Unwrap(gs, nxt);
    if Has(us, sn) {
      var u :| u in us && u.sn == sn;
      var i :| 0 <= i < |us| && us[i] == u;
      assert gs[i] in gs;
    }
    if g :| g in gs && sn == nxt + E.Off(g.sn, U32(nxt)) {
      var i :| 0 <= i < |gs| && gs[i] == g;
      assert us[i] in us;
    }
  }

  lemma UnwrapSameNumbers(xs: seq<Seg>, ys: seq<Seg>, nxt: nat)
    requires SameNumbers(xs, ys)
    ensures SameNumbers(Unwrap(xs, nxt), Unwrap(ys, nxt))
  {
    forall sn: int ensures Has(Unwrap(xs, nxt), sn) <==> Has(Unwrap(ys, nxt), sn) {
      UnwrapHas(xs, nxt, sn);
      UnwrapHas(ys, nxt, sn);
      if g :| g in xs && sn == nxt + E.Off(g.sn, U32(nxt)) {
        assert Has(xs, g.sn);
        var h :| h in ys && h.sn == g.sn;
      }
      if g :| g in ys && sn == nxt + E.Off(g.sn, U32(nxt)) {
        assert Has(ys, g.sn);
        var h :| h in xs && h.sn == g.sn;
      }
    }
  }

  lemma UnwrapInWindow(r: Receiver, wnd: nat, gs: seq<Seg>, pay: nat -> Frag)
    requires RawInWindow(WrapReceiver(r), wnd, gs) && Carries(gs, pay)
    ensures InWindow(r, wnd, Unwrap(gs, r.nxt)) && Carries(Unwrap(gs, r.nxt), n => pay(U32(n)))
  {
    var us := Unwrap(gs, r.nxt);
    forall u | u in us ensures r.nxt <= u.sn < r.nxt + wnd && u.Pay() == pay(U32(u.sn)) {
      var i :| 0 <= i < |us| && us[i] == u;
      assert gs[i] in gs;
      OffAdds(gs[i].sn, r.nxt);
    }
  }

  lemma CarriesUnwrapped(buf: seq<Seg>, pay: nat -> Frag)
    requires Carries(WrapSegs(buf), pay)
    ensures Carries(buf, n => pay(U32(n)))
  {
    forall g | g in buf ensures g.Pay() == pay(U32(g.sn)) {
      var i :| 0 <= i < |buf| && buf[i] == g;
      assert WrapSegs(buf)[i] in WrapSegs(buf);
    }
  }

  lemma ViewWraps(d: Receiver, e: Receiver)
    requires ViewOf(d) == ViewOf(e)
    ensures ViewOf(WrapReceiver(d)) == ViewOf(WrapReceiver(e))
  {
    forall i | 0 <= i < |d.queue| ensures Items(WrapSegs(d.queue))[i] == Items(WrapSegs(e.queue))[i] {
      assert Items(d.queue)[i] == Items(e.queue)[i];
    }
    forall i | 0 <= i < |d.buf| ensures Items(WrapSegs(d.buf))[i] == Items(WrapSegs(e.buf))[i] {
      assert Items(d.buf)[i] == Items(e.buf)[i];
    }
  }

  lemma ConfluentWraps(r: Receiver, wnd: nat, xs: seq<Seg>, ys: seq<Seg>, pay: nat -> Frag)
    requires RcvOk(wnd, r) && wnd < 65536
    requires var c := WrapReceiver(r);
             && RawInWindow(c, wnd, xs) && RawInWindow(c, wnd, ys) && SameNumbers(xs, ys)
             && Carries(c.buf, pay) && Carries(xs, pay) && Carries(ys, pay)
    ensures ViewOf(Feed(Wrapping, wnd, WrapReceiver(r), xs)) == ViewOf(Feed(Wrapping, wnd, WrapReceiver(r), ys))
  {
    var us, vs := Unwrap(xs, r.nxt), Unwrap(ys, r.nxt);
    UnwrapWraps(xs, r.nxt);
    UnwrapWraps(ys, r.nxt);
    UnwrapInWindow(r, wnd, xs, pay);
    UnwrapInWindow(r, wnd, ys, pay);
    UnwrapSameNumbers(xs, ys, r.nxt);
    CarriesUnwrapped(r.buf, pay);
    FeedWraps(wnd, r, us);
    FeedWraps(wnd, r, vs);
    Confluent(wnd, r, us, vs, n => pay(U32(n)));
    ViewWraps(Feed(Unbounded, wnd, r, us), Feed(Unbounded, wnd, r, vs));
  }

  /** Confluence of `ikcp_parse_data`, in every state the C program can reach: segments
      inside the receive window, one payload per number, in any order and with any
      duplication, leave the same `rcv_nxt`, `rcv_queue` and `rcv_buf`. */
  lemma ParseDataConfluent(cfg: Config, evs: seq<E.Event>, xs: seq<Seg>, ys: seq<Seg>, pay: nat -> Frag)
    requires var c := E.Exec(Initial(cfg), evs).rcv;
             && RawInWindow(c, cfg.rcvWnd, xs) && RawInWindow(c, cfg.rcvWnd, ys) && SameNumbers(xs, ys)
             && Carries(c.buf, pay) && Carries(xs, pay) && Carries(ys, pay)
    ensures var c := E.Exec(Initial(cfg), evs).rcv;
            ViewOf(Feed(Wrapping, cfg.rcvWnd, c, xs)) == ViewOf(Feed(Wrapping, cfg.rcvWnd, c, ys))
  {
    var u := E.RunShadow(cfg, evs);
    E.ExecConfig(cfg, evs);
    ConfluentWraps(u.rcv, cfg.rcvWnd, xs, ys, pay);
  }
}
