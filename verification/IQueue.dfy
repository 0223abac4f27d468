/** The intrusive circular lists of kcpsess/ikcp.h, which rewrite `next` and `prev` in place,
    and the list walks of kcpsess/ikcp.c on them: every list operation is proved to be the
    operation on sequences that the rest of the model uses. */
module IQueue {
  import opened Serial
  import opened Wire
  import opened Engine
  import opened Loops

  class Node<T> {
    var next: Node?<T>
    var prev: Node?<T>
    var value: T

    /** `IQUEUE_INIT`. */
    constructor (value: T)
      ensures next == this && prev == this && this.value == value
      ensures Ring([this])
    {
      next, prev, this.value := this, this, value;
    }
  }

  ghost predicate Distinct<T>(r: seq<Node<T>>) {
    forall i, j :: 0 <= i < j < |r| ==> r[i] != r[j]
  }

  /** The nodes `r`, the head first, form a ring in this order. */
  ghost predicate Ring<T>(r: seq<Node<T>>)
    reads r
  {
    && |r| > 0 && Distinct(r)
    && (forall i :: 0 <= i < |r| - 1 ==> r[i].next == r[i + 1])
    && (forall i :: 0 < i < |r| ==> r[i].prev == r[i - 1])
    && r[|r| - 1].next == r[0] && r[0].prev == r[|r| - 1]
  }

  /** What the list holds: the values of all nodes but the head. */
  ghost function Values<T>(r: seq<Node<T>>): (v: seq<T>)
    requires |r| > 0
    reads r
    ensures |v| == |r| - 1
  {
    seq(|r| - 1, i requires 0 <= i < |r| - 1 reads r => r[i + 1].value)
  }

  /** `IQUEUE_IS_EMPTY`. */
  method IsEmpty<T>(head: Node<T>, ghost r: seq<Node<T>>) returns (empty: bool)
    requires Ring(r) && r[0] == head
    ensures empty == (Values(r) == [])
  {
    empty := head == head.next;
    assert |r| > 1 ==> head.next == r[1] != r[0];
  }

  ghost function At<T>(r: seq<Node<T>>, k: nat): Node<T>
    requires k < |r|
  {
    r[k]
  }

  /** The node behind the `k`-th: where a forward walk stands after `k` nodes. */
  ghost function Cursor<T>(r: seq<Node<T>>, k: nat): Node<T>
    requires k < |r|
  {
    if k + 1 < |r| then r[k + 1] else r[0]
  }

  /** Where a forward walk stands, and where it goes. */
  lemma Walk<T>(r: seq<Node<T>>, k: nat)
    requires Ring(r) && k < |r|
    ensures r[0].next == Cursor(r, 0) && (Cursor(r, k) == r[0] <==> k == |r| - 1)
    ensures k + 1 < |r| ==>
              var p := Cursor(r, k); p == r[k + 1] && p.next == Cursor(r, k + 1) && p.value == Values(r)[k]
  { }

  /** Where a backward walk stands, and where it goes. */
  lemma WalkBack<T>(r: seq<Node<T>>, k: nat)
    requires Ring(r) && k < |r|
    ensures r[0].prev == r[|r| - 1] && (r[k] == r[0] <==> k == 0)
    ensures k > 0 ==> r[k].prev == r[k - 1] && r[k].value == Values(r)[k - 1]
  { }

  ghost function Inserted<T>(r: seq<Node<T>>, k: nat, node: Node<T>): seq<Node<T>>
    requires k < |r|
  {
    r[..k + 1] + [node] + r[k + 1..]
  }

  /** `IQUEUE_ADD`: behind any node of the ring, not only its head. */
  method Add<T>(node: Node<T>, head: Node<T>, ghost r: seq<Node<T>>, ghost k: nat)
    requires Ring(r) && k < |r| && r[k] == head && node !in r
    modifies node`next, node`prev, At(r, k)`next, Cursor(r, k)`prev
    ensures Ring(Inserted(r, k, node))
  {
    assert head.next == Cursor(r, k);
    node.prev := head;
    node.next := head.next;
    head.next.prev := node;
    head.next := node;
  }

  /** `IQUEUE_ADD_TAIL`. */
  method AddTail<T>(node: Node<T>, head: Node<T>, ghost r: seq<Node<T>>)
    requires Ring(r) && r[0] == head && node !in r
    modifies node`next, node`prev, At(r, |r| - 1)`next, At(r, 0)`prev
    ensures Ring(r + [node])
  {
    node.prev := head.prev;
    node.next := head;
    head.prev.next := node;
    head.prev := node;
  }

  ghost function Removed<T>(r: seq<Node<T>>, k: nat): seq<Node<T>>
    requires k < |r|
  {
    r[..k] + r[k + 1..]
  }

  /** `IQUEUE_DEL`. */
  method Del<T>(entry: Node<T>, ghost r: seq<Node<T>>, ghost k: nat)
    requires Ring(r) && 0 < k < |r| && r[k] == entry
    modifies At(r, k)`next, At(r, k)`prev, At(r, k - 1)`next, Cursor(r, k)`prev
    ensures Ring(Removed(r, k)) && entry.next == null == entry.prev
  {
    assert entry.prev == r[k - 1] && entry.next == Cursor(r, k);
    entry.next.prev := entry.prev;
    entry.prev.next := entry.next;
    entry.next, entry.prev := null, null;
  }

  // ---------------------------------------------------------------- walks over a list

  lemma ValuesRemoved<T>(r: seq<Node<T>>, k: nat, v: seq<T>)
    requires 0 < k < |r| && Values(r) == v
    ensures Values(Removed(r, k)) == v[..k - 1] + v[k..]
  {
    var a, b := Values(Removed(r, k)), v[..k - 1] + v[k..];
    forall i | 0 <= i < |r| - 2 ensures a[i] == b[i] {
      assert Removed(r, k)[i + 1] == if i < k - 1 then r[i + 1] else r[i + 2];
      assert if i < k - 1 then v[i] == r[i + 1].value else v[i + 1] == r[i + 2].value;
    }
  }

  lemma ValuesInserted<T>(r: seq<Node<T>>, k: nat, node: Node<T>, v: seq<T>)
    requires k < |r| && Values(r) == v
    ensures Values(Inserted(r, k, node)) == v[..k] + [node.value] + v[k..]
  {
    var a, b := Values(Inserted(r, k, node)), v[..k] + [node.value] + v[k..];
    forall i | 0 <= i < |r| ensures a[i] == b[i] {
      assert Inserted(r, k, node)[i + 1] == if i < k then r[i + 1] else if i == k then node else r[i];
      if i < k { assert v[i] == r[i + 1].value; } else if i > k { assert v[i - 1] == r[i].value; }
    }
  }

  /** The walk of `ikcp_parse_una`: nodes are unlinked from the front. */
  method ParseUna(head: Node<Unacked>, una: nat, ghost r: seq<Node<Unacked>>)
    returns (removed: nat, ghost r': seq<Node<Unacked>>)
    requires Ring(r) && r[0] == head
    modifies r`next, r`prev
    ensures Ring(r') && r'[0] == head && (forall x :: x in r' ==> x in r) && |r| == |r'| + removed
    ensures Values(r') == DropUntil(Wrapping, old(Values(r)), una)
  {
    r', removed := r, 0;
    var p := head.next;
    assert p == Cursor(r', 0);
    while p != head
      invariant Ring(r') && r'[0] == head && p == Cursor(r', 0) && (forall x :: x in r' ==> x in r)
                && |r| == |r'| + removed
      invariant DropUntil(Wrapping, Values(r'), una) == DropUntil(Wrapping, old(Values(r)), una)
      decreases |r'|
    {
      var next := p.next;
      if Diff(una, p.value.seg.sn) <= 0 { break; }
      ghost var v := Values(r');
      assert r'[0] in r' && r'[1] in r' && Cursor(r', 1) in r' && p.value == v[0] && v[..0] + v[1..] == v[1..];
      Del(p, r', 1);
      ValuesRemoved(r', 1, v);
      r', removed := Removed(r', 1), removed + 1;
      p := next;
    }
  }

  /** The walk of `ikcp_parse_ack`: the node with the acknowledged number is unlinked. */
  method ParseAck(head: Node<Unacked>, sn: nat, ghost r: seq<Node<Unacked>>)
    returns (removed: nat, ghost r': seq<Node<Unacked>>)
    requires Ring(r) && r[0] == head
    modifies r`next, r`prev
    ensures Ring(r') && r'[0] == head && (forall x :: x in r' ==> x in r) && |r| == |r'| + removed
    ensures Values(r') == RemoveSn(Wrapping, old(Values(r)), sn)
  {
    r', removed := r, 0;
    ghost var v := Values(r);
    ghost var k: nat := 0;
    var p := head.next;
    assert PassedAck(v, 0, sn) by { assert v[..0] + v[0..] == v; }
    Walk(r, 0);
    hide PassedAck, RemoveSn, Distinct, Ring, Values;
    while p != head && sn != p.value.seg.sn && Diff(sn, p.value.seg.sn) >= 0
      invariant k < |r| && p == Cursor(r, k) && PassedAck(v, k, sn)
      modifies {}
      decreases |r| - k
    {
      Walk(r, k);
      PassAck(v, k, sn);
      p := p.next;
      k := k + 1;
    }
    Walk(r, k);
    StopAtAck(v, k, sn);
    if p != head && sn == p.value.seg.sn {
      assert r[k] in r && r[k + 1] in r && Cursor(r, k + 1) in r;
      Del(p, r, k + 1);
      ValuesRemoved(r, k + 1, v);
      r', removed := Removed(r, k + 1), 1;
    }
  }

  /** The walk of `ikcp_parse_fastack`: skipped segments are counted where they are. */
  method ParseFastAck(head: Node<Unacked>, sn: nat, ghost r: seq<Node<Unacked>>)
    requires Ring(r) && r[0] == head
    modifies r`value
    ensures Ring(r) && Values(r) == CountSkips(Wrapping, old(Values(r)), sn)
  {
    ghost var v := Values(r);
    ghost var k: nat := 0;
    var p := head.next;
    SkipStart(v, sn);
    Walk(r, 0);
    hide Skipped, CountSkips, Distinct, Ring, Values;
    while p != head && Diff(sn, p.value.seg.sn) >= 0
      invariant Ring(r) && k < |r| && p == Cursor(r, k) && Skipped(v, Values(r), k, sn)
      decreases |r| - k
    {
      Walk(r, k);
      assert p in r;
      CountOne(p, sn, r, k, v);
      Walk(r, k);
      p := p.next;
      k := k + 1;
    }
    Walk(r, k);
    SkipEnd(v, Values(r), k, sn);
  }

  /** One turn of that walk. */
  method CountOne(p: Node<Unacked>, sn: nat, ghost r: seq<Node<Unacked>>, ghost k: nat, ghost v: seq<Unacked>)
    requires Ring(r) && k + 1 < |r| && p == r[k + 1] && Diff(sn, p.value.seg.sn) >= 0 && Skipped(v, Values(r), k, sn)
    modifies p`value
    ensures Ring(r) && Skipped(v, Values(r), k + 1, sn)
  {
    hide Skipped, CountSkips, Distinct, Ring, Values, U32, Diff;
    ghost var now := Values(r);
    Walk(r, k);
    SkipLength(v, now, k, sn);
    SkipStep(v, now, k, sn);
    if sn != p.value.seg.sn {
      SetValue(p, p.value.(fastAck := U32(p.value.fastAck + 1)), r, k);
    }
  }

  /** Overwriting the contents of one node. */
  method SetValue<T>(p: Node<T>, x: T, ghost r: seq<Node<T>>, ghost k: nat)
    requires Ring(r) && k + 1 < |r| && r[k + 1] == p
    modifies p`value
    ensures Ring(r) && Values(r) == old(Values(r))[k := x]
  {
    p.value := x;
  }

  /** The backward walk of `ikcp_parse_data`: it stops at the node behind which `g` belongs. */
  method ScanBack(head: Node<Seg>, g: Seg, ghost r: seq<Node<Seg>>) returns (p: Node<Seg>, ghost k: nat)
    requires Ring(r) && r[0] == head
    ensures k < |r| && p == r[k] && (p == head <==> k == 0)
    ensures k > 0 ==> p.value == Values(r)[k - 1]
    ensures Scanned(Values(r), k, g) && (k == 0 || Values(r)[k - 1].sn == g.sn || Diff(g.sn, Values(r)[k - 1].sn) > 0)
  {
    ghost var v := Values(r);
    k := |v|;
    p := head.prev;
    ScanStart(v, g);
    WalkBack(r, k);
    hide Scanned, Distinct, Ring, Values, Diff;
    while p != head && p.value.sn != g.sn && Diff(g.sn, p.value.sn) <= 0
      invariant k <= |v| && p == r[k] && Scanned(v, k, g)
      decreases k
    {
      WalkBack(r, k);
      ScanStep(v, k, g);
      p := p.prev;
      k := k - 1;
    }
    WalkBack(r, k);
  }

  /** Linking a node behind the `k`-th. */
  method LinkBehind<T>(node: Node<T>, p: Node<T>, ghost r: seq<Node<T>>, ghost k: nat)
    requires Ring(r) && k < |r| && r[k] == p && node !in r
    modifies node`next, node`prev, At(r, k)`next, Cursor(r, k)`prev
    ensures Ring(Inserted(r, k, node))
    ensures Values(Inserted(r, k, node)) == old(Values(r))[..k] + [node.value] + old(Values(r))[k..]
  {
    ghost var v := Values(r);
    hide Ring, Values;
    Add(node, p, r, k);
    ValuesInserted(r, k, node, v);
  }

  /** `ikcp_parse_data` on the linked list: the new node goes behind the last smaller one. */
  method Place(head: Node<Seg>, node: Node<Seg>, ghost r: seq<Node<Seg>>)
    returns (placed: bool, ghost r': seq<Node<Seg>>)
    requires Ring(r) && r[0] == head && node !in r
    modifies node`next, node`prev, r`next, r`prev
    ensures Ring(r') && r'[0] == head && (forall x :: x in r' ==> x in r || x == node) && placed == (|r'| > |r|)
    ensures Values(r') == Insert(Wrapping, old(Values(r)), node.value)
  {
    hide Scanned, Insert, Distinct, Ring, Values, Diff;
    r' := r;
    var p;
    ghost var k;
    p, k := ScanBack(head, node.value, r);
    ScanEnd(Values(r), k, node.value);
    placed := p == head || p.value.sn != node.value.sn;
    if placed {
      assert At(r, k) in r && Cursor(r, k) in r;
      LinkBehind(node, p, r, k);
      r' := Inserted(r, k, node);
    }
  }

  /** Taking the first node off a list. */
  method Unlink<T>(head: Node<T>, first: Node<T>, ghost r: seq<Node<T>>)
    requires Ring(r) && |r| > 1 && r[0] == head && r[1] == first
    modifies At(r, 1)`next, At(r, 1)`prev, At(r, 0)`next, Cursor(r, 1)`prev
    ensures Ring(Removed(r, 1)) && Values(Removed(r, 1)) == old(Values(r))[1..]
  {
    ghost var v := Values(r);
    Del(first, r, 1);
    ValuesRemoved(r, 1, v);
    assert v[..0] + v[1..] == v[1..];
  }

  /** Putting a node at the end of a list. */
  method LinkTail<T>(head: Node<T>, node: Node<T>, ghost r: seq<Node<T>>)
    requires Ring(r) && r[0] == head && node !in r
    modifies node`next, node`prev, At(r, |r| - 1)`next, At(r, 0)`prev
    ensures Ring(r + [node]) && Values(r + [node]) == old(Values(r)) + [node.value]
  {
    AddTail(node, head, r);
  }

  /** The loop that moves in-order segments from `rcv_buf` to the tail of `rcv_queue`. */
  method MoveReady(buf: Node<Seg>, queue: Node<Seg>, rcvNxt: nat, count: nat, wnd: nat,
                   ghost b: seq<Node<Seg>>, ghost q: seq<Node<Seg>>, ghost acks: seq<Ack>)
    returns (rcvNxt': nat, moved: nat, ghost b': seq<Node<Seg>>, ghost q': seq<Node<Seg>>)
    requires Pair(buf, queue, b, q) && count == |q| - 1
    modifies b`next, b`prev, q`next, q`prev
    ensures Pair(buf, queue, b', q') && |b'| + moved == |b| && |q'| == |q| + moved
    ensures Receiver(rcvNxt', Values(b'), Values(q'), acks)
            == Drain(Wrapping, wnd, old(Receiver(rcvNxt, Values(b), Values(q), acks)))
  {
    hide Distinct, Ring, Values, Drain, Pair, Moving, OneDrained;
    rcvNxt', moved, b', q' := rcvNxt, 0, b, q;
    MovingStart(buf, queue, b, q);
    ghost var now := Receiver(rcvNxt, Values(b), Values(q), acks);
    ghost var last := Drain(Wrapping, wnd, now);
    var ready := IsReady(buf, rcvNxt, count < wnd, b);
    while ready
      invariant Moving(buf, queue, b', q', b, q, moved) && |b'| > 0 && |q'| > 0 && |now.queue| == |q| - 1 + moved
      invariant now == Receiver(rcvNxt', Values(b'), Values(q'), acks) && Drain(Wrapping, wnd, now) == last
      invariant ready == IsNext(now, wnd)
      decreases |now.buf|
    {
      DrainOne(wnd, now);
      b', q' := MoveTurn(buf, queue, b', q', b, q, moved, now, wnd);
      now := OneDrained(now);
      moved, rcvNxt' := moved + 1, U32(rcvNxt' + 1);
      ready := IsReady(buf, rcvNxt', count + moved < wnd, b');
    }
    MovingGives(buf, queue, b', q', b, q, moved);
    DrainStops(wnd, now);
  }

  /** One turn, on the lists and on the sequences they stand for. */
  method MoveTurn(buf: Node<Seg>, queue: Node<Seg>, ghost b': seq<Node<Seg>>, ghost q': seq<Node<Seg>>,
                  ghost b: seq<Node<Seg>>, ghost q: seq<Node<Seg>>, ghost moved: nat,
                  ghost now: Receiver, ghost wnd: nat)
    returns (ghost b2: seq<Node<Seg>>, ghost q2: seq<Node<Seg>>)
    requires Moving(buf, queue, b', q', b, q, moved) && |b'| > 0 && |q'| > 0
    requires now.buf == Values(b') && now.queue == Values(q') && IsNext(now, wnd)
    modifies b`next, b`prev, q`next, q`prev
    ensures Moving(buf, queue, b2, q2, b, q, moved + 1) && |b2| > 0 && |q2| > 0 && Ring(b2) && b2[0] == buf
    ensures OneDrained(now) == Receiver(U32(now.nxt + 1), Values(b2), Values(q2), now.acks)
  {
    hide Distinct, Ring, Values, Moving;
    b2, q2 := MoveNext(buf, queue, b', q', b, q, moved);
    MovingGives(buf, queue, b2, q2, b, q, moved + 1);
  }

  lemma MovingStart<T>(buf: Node<T>, queue: Node<T>, b: seq<Node<T>>, q: seq<Node<T>>)
    requires Pair(buf, queue, b, q)
    ensures Moving(buf, queue, b, q, b, q, 0) && Ring(b) && |b| > 0 && |q| > 0 && b[0] == buf
  { }

  /** What one turn does to the two lists. */
  method MoveNext<T>(buf: Node<T>, queue: Node<T>, ghost b': seq<Node<T>>, ghost q': seq<Node<T>>,
                     ghost b: seq<Node<T>>, ghost q: seq<Node<T>>, ghost moved: nat)
    returns (ghost b2: seq<Node<T>>, ghost q2: seq<Node<T>>)
    requires Moving(buf, queue, b', q', b, q, moved) && |b'| > 1
    modifies b`next, b`prev, q`next, q`prev
    ensures Moving(buf, queue, b2, q2, b, q, moved + 1) && Ring(b2) && b2[0] == buf
    ensures Values(b2) == old(Values(b'))[1..] && Values(q2) == old(Values(q')) + [old(Values(b'))[0]]
  {
    hide Distinct, Ring, Values;
    PairIn(buf, queue, b', q', b, q);
    b2, q2 := MoveOne(buf, queue, b', q');
    PairGives(buf, queue, b2, q2);
  }

  /** Where the loop stands: `moved` nodes have changed lists. */
  ghost predicate Moving<T>(buf: Node<T>, queue: Node<T>, b': seq<Node<T>>, q': seq<Node<T>>,
                            b: seq<Node<T>>, q: seq<Node<T>>, moved: nat)
    reads b', q'
  {
    Pair(buf, queue, b', q') && Within(b', b) && Within(q', b + q) && |b'| + moved == |b| && |q'| == |q| + moved
  }

  lemma MovingGives<T>(buf: Node<T>, queue: Node<T>, b': seq<Node<T>>, q': seq<Node<T>>,
                       b: seq<Node<T>>, q: seq<Node<T>>, moved: nat)
    requires Moving(buf, queue, b', q', b, q, moved)
    ensures Pair(buf, queue, b', q') && |b'| + moved == |b| && |q'| == |q| + moved && |b'| > 0 && |q'| > 0
  { }

  /** Two lists that share no node. */
  ghost predicate Pair<T>(buf: Node<T>, queue: Node<T>, b: seq<Node<T>>, q: seq<Node<T>>)
    reads b, q
  {
    Ring(b) && b[0] == buf && Ring(q) && q[0] == queue && forall x :: x in b ==> x !in q
  }

  ghost predicate Within<T>(few: seq<Node<T>>, many: seq<Node<T>>) {
    forall x :: x in few ==> x in many
  }

  lemma PairGives<T>(buf: Node<T>, queue: Node<T>, b: seq<Node<T>>, q: seq<Node<T>>)
    requires Pair(buf, queue, b, q)
    ensures Ring(b) && Ring(q) && |b| > 0 && |q| > 0 && b[0] == buf && q[0] == queue && forall x :: x in b ==> x !in q
  { }

  lemma PairIn<T>(buf: Node<T>, queue: Node<T>, b': seq<Node<T>>, q': seq<Node<T>>, b: seq<Node<T>>, q: seq<Node<T>>)
    requires Pair(buf, queue, b', q') && |b'| > 1 && Within(b', b) && Within(q', b + q)
    ensures At(b', 1) in b && At(b', 0) in b && Cursor(b', 1) in b
    ensures At(q', |q'| - 1) in b + q && At(q', 0) in b + q
    ensures Within(Removed(b', 1), b) && Within(q' + [b'[1]], b + q)
  {
    assert b'[1] in b' && b'[0] in b' && Cursor(b', 1) in b' && q'[0] in q' && q'[|q'| - 1] in q';
    forall x | x in Removed(b', 1) ensures x in b { assert x in b'; }
  }

  /** The first node of one list goes to the end of the other. */
  method MoveOne<T>(buf: Node<T>, queue: Node<T>, ghost b: seq<Node<T>>, ghost q: seq<Node<T>>)
    returns (ghost b': seq<Node<T>>, ghost q': seq<Node<T>>)
    requires Pair(buf, queue, b, q) && |b| > 1
    modifies At(b, 1)`next, At(b, 1)`prev, At(b, 0)`next, Cursor(b, 1)`prev, At(q, |q| - 1)`next, At(q, 0)`prev
    ensures b' == Removed(b, 1) && q' == q + [b[1]] && |b'| == |b| - 1 && Pair(buf, queue, b', q')
    ensures Values(b') == old(Values(b))[1..] && Values(q') == old(Values(q)) + [old(Values(b))[0]]
  {
    b', q' := Removed(b, 1), q + [b[1]];
    Walk(b, 0);
    ghost var rest := Removed(b, 1);
    assert forall x :: x in rest ==> x in b && x != b[1];
    assert q[0] in q && q[|q| - 1] in q && b[1] in b && b[0] in b && Cursor(b, 1) in b;
    hide Distinct, Ring, Values;
    var seg := buf.next;
    Unlink(buf, seg, b);
    LinkTail(queue, seg, q);
  }

  /** Is the first buffered segment the next one, with room for it? */
  method IsReady(buf: Node<Seg>, rcvNxt: nat, room: bool, ghost b: seq<Node<Seg>>) returns (ready: bool)
    requires Ring(b) && b[0] == buf
    ensures ready == (Values(b) != [] && Values(b)[0].sn == rcvNxt && room)
  {
    var empty := IsEmpty(buf, b);
    if empty { return false; }
    Walk(b, 0);
    return buf.next.value.sn == rcvNxt && room;
  }
}
