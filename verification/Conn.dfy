/** The outgoing byte queue of a client connection (conn.cpp): a buffer that grows, a window
    of pending bytes in it, and writes that may take only a part. The kernel is a script of
    replies. */
module Conn {
  import opened Serial
  import opened Wire

  const BUFFER_SIZE: nat := 32 * 1024
  const SEND_SIZE: nat := 64 * 1024

  /** What `write` answers: how many bytes it takes (at least one, at most what is offered),
      that it would block, or another error. */
  datatype Reply = Took(n: nat) | Again | Failed

  datatype Outcome = Idle | Drained | Blocked | Broken

  /** What a call has written, what is left pending, and how it ended. */
  datatype Pushed = Pushed(written: seq<byte>, pending: seq<byte>, outcome: Outcome)

  /** How many bytes a `write` of `pending` takes. */
  function Taken(pending: seq<byte>, n: nat): (s: nat)
    requires pending != []
    ensures 0 < s <= |pending|
  {
    Max(1, Min(n, Min(|pending|, SEND_SIZE)))
  }

  /** The write loop; there is always something to write. Without a further reply it blocks. */
  function Push(pending: seq<byte>, replies: seq<Reply>): Pushed
    requires pending != []
    decreases |replies|
  {
    if replies == [] || replies[0].Again? then Pushed([], pending, Blocked)
    else if replies[0].Failed? then Pushed([], pending, Broken)
    else
      var s := Taken(pending, replies[0].n);
      if s == |pending| then Pushed(pending, [], Drained)
      else
        var p := Push(pending[s..], replies[1..]);
        Pushed(pending[..s] + p.written, p.pending, p.outcome)
  }

  /** `connObj::send`; sending nothing retries what is pending. */
  function Sending(closed: bool, pending: seq<byte>, data: seq<byte>, replies: seq<Reply>): Pushed {
    if closed || pending + data == [] then Pushed([], pending, Idle) else Push(pending + data, replies)
  }

  /** Whatever the kernel answers, written and pending bytes are the bytes there were, and
      nothing stays pending exactly when the loop ran dry. */
  lemma {:induction false} PushConserves(pending: seq<byte>, replies: seq<Reply>)
    requires pending != []
    ensures var p := Push(pending, replies);
            && p.written + p.pending == pending && (p.pending == [] <==> p.outcome == Drained) && p.outcome != Idle
    decreases |replies|
  {
    hide Taken;
    if replies != [] && replies[0].Took? {
      var s := Taken(pending, replies[0].n);
      var head, tail := pending[..s], pending[s..];
      assert head + tail == pending;
      if s < |pending| {
        PushConserves(tail, replies[1..]);
        var p := Push(tail, replies[1..]);
        assert head + p.written + p.pending == head + (p.written + p.pending);
      } else {
        assert pending + [] == pending;
      }
    } else {
      assert [] + pending == pending;
    }
  }

  /** How many bytes the kernel takes before it first refuses: a write is offered at most
      `SEND_SIZE` bytes and takes at least one. */
  function Capacity(replies: seq<Reply>): nat {
    if replies == [] || !replies[0].Took? then 0
    else Max(1, Min(replies[0].n, SEND_SIZE)) + Capacity(replies[1..])
  }

  /** The first refusal is an error. */
  predicate Fails(replies: seq<Reply>) {
    replies != [] && (replies[0].Failed? || (replies[0].Took? && Fails(replies[1..])))
  }

  lemma {:induction false} PushExactly(pending: seq<byte>, replies: seq<Reply>)
    requires pending != []
    ensures var p, k := Push(pending, replies), Min(|pending|, Capacity(replies));
            && p.written == pending[..k] && p.pending == pending[k..]
            && p.outcome == if k == |pending| then Drained else if Fails(replies) then Broken else Blocked
    decreases |replies|
  {
    if replies != [] && replies[0].Took? {
      var s := Taken(pending, replies[0].n);
      var rest := Capacity(replies[1..]);
      if s < |pending| {
        var tail := pending[s..];
        PushExactly(tail, replies[1..]);
        var k := Min(|tail|, rest);
        assert pending[..s] + tail[..k] == pending[..s + k];
        assert tail[k..] == pending[s + k..];
      }
    }
  }

  /** What a send does, whatever the kernel answers: it writes the bytes there are, in order, up
      to what the kernel takes before it first refuses. It ends drained exactly when that is
      everything, and otherwise as the refusal says; a closed connection does nothing, and
      neither does one with nothing to send. */
  lemma SendExactly(closed: bool, pending: seq<byte>, data: seq<byte>, replies: seq<Reply>)
    ensures var p, all := Sending(closed, pending, data, replies), pending + data;
            var k := if closed then 0 else Min(|all|, Capacity(replies));
            && p.written == all[..k] && p.pending == (if closed then pending else all[k..])
            && (p.outcome == Idle <==> closed || all == [])
            && (p.outcome == Drained <==> !closed && all != [] && Capacity(replies) >= |all|)
            && (p.outcome == Broken <==> !closed && Capacity(replies) < |all| && Fails(replies))
            && (p.outcome == Blocked <==> !closed && Capacity(replies) < |all| && !Fails(replies))
  {
    hide Push;
    if !closed && pending + data != [] { PushExactly(pending + data, replies); }
  }

  // ---------------------------------------------------------------- runs

  datatype Event = Submit(data: seq<byte>, replies: seq<Reply>) | Close

  /** A connection over time: what is pending, and, as history, what was submitted while it
      was open and what has been written. */
  datatype Link = Link(closed: bool, pending: seq<byte>, submitted: seq<byte>, written: seq<byte>)

  function Apply(l: Link, e: Event): Link {
    match e
    case Close => l.(closed := true)
    case Submit(data, replies) =>
      var p := Sending(l.closed, l.pending, data, replies);
      Link(l.closed, p.pending, if l.closed then l.submitted else l.submitted + data, l.written + p.written)
  }

  function Exec(es: seq<Event>): Link
    decreases |es|
  {
    if es == [] then Link(false, [], [], []) else Apply(Exec(es[..|es| - 1]), es[|es| - 1])
  }

  /** For any sequence of sends and any pattern of partial writes and errors: the bytes written
      followed by the pending ones are the bytes submitted while open, in order. */
  lemma {:induction false} NothingIsLost(es: seq<Event>)
    ensures Exec(es).written + Exec(es).pending == Exec(es).submitted
    decreases |es|
  {
    hide Push;
    if es != [] {
      var l, e := Exec(es[..|es| - 1]), es[|es| - 1];
      NothingIsLost(es[..|es| - 1]);
      if e.Submit? && !l.closed && l.pending + e.data != [] {
        PushConserves(l.pending + e.data, e.replies);
        var p := Push(l.pending + e.data, e.replies);
        assert l.written + p.written + p.pending == l.written + (p.written + p.pending);
        assert l.written + (l.pending + e.data) == l.written + l.pending + e.data;
      }
    }
  }

  /** Once the kernel takes everything there is, nothing is pending and all that was ever
      submitted has been written. */
  lemma EverythingIsWritten(es: seq<Event>, data: seq<byte>, replies: seq<Reply>)
    requires !Exec(es).closed && Capacity(replies) >= |Exec(es).pending| + |data|
    ensures var l := Exec(es + [Submit(data, replies)]);
            l.pending == [] && l.written == l.submitted == Exec(es).submitted + data
  {
    hide Sending;
    var more := es + [Submit(data, replies)];
    assert more[..|es|] == es;
    SendExactly(false, Exec(es).pending, data, replies);
    NothingIsLost(more);
  }

  // ---------------------------------------------------------------- the buffer

  class ConnObj {
    var bclose: bool
    var sendBuf: array<byte>
    var offset: nat
    var len: nat

    /** The pending window lies in the buffer and is empty only when the buffer is. */
    ghost predicate Valid()
      reads this
    {
      offset <= len <= sendBuf.Length && (len > 0 ==> offset < len)
    }

    ghost function Pending(): seq<byte>
      requires Valid()
      reads this, sendBuf
    {
      sendBuf[offset..len]
    }

    constructor ()
      ensures Valid() && Pending() == [] && !bclose && fresh(sendBuf)
    {
      sendBuf := new byte[BUFFER_SIZE];
      bclose, offset, len := false, 0, 0;
    }

    method CopyTo(target: array<byte>, at: nat, data: seq<byte>)
      requires at + |data| <= target.Length
      modifies target
      ensures target[..at] == old(target[..at]) && target[at..at + |data|] == data
    {
      ghost var head := target[..at];
      for i := 0 to |data|
        invariant target[..at] == head && target[at..at + i] == data[..i]
        modifies target
      {
        target[at + i] := data[i];
        assert target[at..at + i + 1] == target[at..at + i] + [data[i]];
      }
    }

    /** Queueing: in place while there is room behind the pending bytes, otherwise into a new
        buffer of exactly the needed size, with the pending bytes moved to its front. */
    method Enqueue(data: seq<byte>)
      requires Valid() && Pending() + data != []
      modifies this`sendBuf, this`offset, this`len, sendBuf
      ensures Valid() && (sendBuf == old(sendBuf) || fresh(sendBuf))
      ensures Pending() == old(Pending()) + data
    {
      ghost var before := Pending();
      if |data| > sendBuf.Length - len {
        var left := len - offset;
        var p := new byte[|data| + left];
        CopyTo(p, 0, sendBuf[offset..len]);
        assert p[..left] == p[0..left] == before;
        CopyTo(p, left, data);
        assert p[0..left + |data|] == p[..left] + p[left..left + |data|];
        sendBuf, offset, len := p, 0, left + |data|;
      } else {
        ghost var all := sendBuf[..len];
        CopyTo(sendBuf, len, data);
        assert sendBuf[offset..len] == sendBuf[..len][offset..] == all[offset..] == before;
        assert sendBuf[offset..len + |data|] == sendBuf[offset..len] + sendBuf[len..len + |data|];
        len := len + |data|;
      }
    }

    /** The write loop. Before every write the window is not empty and at most 64 KiB of it are
        offered; `written` is what the kernel took. */
    method WriteLoop(replies: seq<Reply>) returns (written: seq<byte>, outcome: Outcome)
      requires Valid() && Pending() != []
      modifies this`offset, this`len
      ensures Valid() && Pushed(written, Pending(), outcome) == Push(old(Pending()), replies)
    {
      written := [];
      var i := 0;
      ghost var all := Pending();
      PushStart(all, replies);
      hide Pushing, Taken;
      while i < |replies| && replies[i].Took? && offset < len
        invariant i <= |replies| && offset <= len <= sendBuf.Length
                  && Pushing(all, replies, i, written, sendBuf[offset..len])
        decreases |replies| - i
      {
        var s := Offer(replies[i].n);
        PushStep(all, replies, i, written, sendBuf[offset..len]);
        assert sendBuf[offset..len][..s] == sendBuf[offset..offset + s]
               && sendBuf[offset..len][s..] == sendBuf[offset + s..len];
        written := written + sendBuf[offset..offset + s];
        offset := offset + s;
        i := i + 1;
      }
      PushEnd(all, replies, i, written, sendBuf[offset..len]);
      if offset >= len {
        offset, len := 0, 0;
        outcome := Drained;
      } else {
        outcome := if i < |replies| && replies[i].Failed? then Broken else Blocked;
      }
    }

    /** How much of the window one `write` takes. */
    method Offer(n: nat) returns (s: nat)
      requires offset < len <= sendBuf.Length
      ensures s == Taken(sendBuf[offset..len], n)
    {
      var now := if len - offset > SEND_SIZE then SEND_SIZE else len - offset;
      s := if n > now then now else if n < 1 then 1 else n;
    }

    /** `connObj::send`. */
    method Send(data: seq<byte>, replies: seq<Reply>) returns (written: seq<byte>, outcome: Outcome)
      requires Valid()
      modifies this`sendBuf, this`offset, this`len, sendBuf
      ensures Valid() && (sendBuf == old(sendBuf) || fresh(sendBuf))
      ensures Pushed(written, Pending(), outcome) == Sending(bclose, old(Pending()), data, replies)
      ensures !bclose ==> |written| == Min(|old(Pending()) + data|, Capacity(replies))
    {
      SendExactly(bclose, Pending(), data, replies);
      if bclose { return [], Idle; }
      if |data| == 0 && len == 0 {
        assert Pending() == [];
        return [], Idle;
      }
      assert |Pending() + data| > 0;
      Enqueue(data);
      written, outcome := WriteLoop(replies);
    }
  }

  /** Where the write loop stands: `written` is out, `pending` is left, `i` replies are used. */
  ghost predicate Pushing(all: seq<byte>, replies: seq<Reply>, i: nat, written: seq<byte>, pending: seq<byte>) {
    && all != [] && i <= |replies|
    && if pending == [] then Push(all, replies) == Pushed(written, [], Drained)
       else var p := Push(pending, replies[i..]);
            Push(all, replies) == Pushed(written + p.written, p.pending, p.outcome)
  }

  lemma PushStart(all: seq<byte>, replies: seq<Reply>)
    requires all != []
    ensures Pushing(all, replies, 0, [], all)
  {
    assert replies[0..] == replies;
    var p := Push(all, replies);
    assert [] + p.written == p.written;
  }

  lemma PushStep(all: seq<byte>, replies: seq<Reply>, i: nat, written: seq<byte>, pending: seq<byte>)
    requires Pushing(all, replies, i, written, pending) && pending != [] && i < |replies| && replies[i].Took?
    ensures var s := Taken(pending, replies[i].n); Pushing(all, replies, i + 1, written + pending[..s], pending[s..])
  {
    hide Taken;
    var s := Taken(pending, replies[i].n);
    assert replies[i..][0] == replies[i] && replies[i..][1..] == replies[i + 1..];
    if s == |pending| {
      assert pending[..s] == pending && pending[s..] == [];
    } else {
      var p := Push(pending[s..], replies[i + 1..]);
      assert written + (pending[..s] + p.written) == written + pending[..s] + p.written;
    }
  }

  lemma PushEnd(all: seq<byte>, replies: seq<Reply>, i: nat, written: seq<byte>, pending: seq<byte>)
    requires Pushing(all, replies, i, written, pending) && (pending == [] || i == |replies| || !replies[i].Took?)
    ensures Push(all, replies) ==
            Pushed(written, pending,
                   if pending == [] then Drained else if i < |replies| && replies[i].Failed? then Broken else Blocked)
  {
    if i < |replies| { assert replies[i..][0] == replies[i]; }
    assert written + [] == written;
  }
}
