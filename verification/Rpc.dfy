/** Calls between the game server and its gate: the frame layout of recvBuff.cpp and the
    stream reassembly and message batching of tcpclient.cpp, as functions on byte sequences. */
module Rpc {
  import opened Serial
  import opened Wire

  const RPC_BUFF_SIZE: nat := 4 * 1024 * 1024
  const TWO64: int := 0x1_0000_0000_0000_0000

  /** "defres". */
  const DEFRES: seq<byte> := [100, 101, 102, 114, 101, 115]

  /** What a caller hands over; `param` is the name of the sending server. */
  datatype Call = Call(target: seq<byte>, param: seq<byte>, pid: nat, msgid: nat, body: seq<byte>) {
    /** `getRpcSize`: the size of a frame without its length prefix. */
    function Size(): nat { 27 + |target| + |param| + |body| }

    /** What the types of the arguments and the 32-bit frame length allow. */
    predicate Ok() { pid < TWO64 && msgid < TWO32 && Size() < TWO31 }

    /** Names are short enough for their one-byte lengths. */
    predicate ShortNames() { |target| < 256 && |param| < 256 }
  }

  /** What the receiver gets. */
  datatype RpcObj = RpcObj(key: seq<byte>, target: seq<byte>, param: seq<byte>, result: seq<byte>,
                     pid: nat, msgid: nat, body: seq<byte>)

  function Encode64(v: nat): (b: seq<byte>)
    ensures |b| == 8
  {
    Encode32(v % TWO32) + Encode32(v / TWO32 % TWO32)
  }

  function Decode64(b: seq<byte>, i: nat): nat
    requires i + 8 <= |b|
  {
    Decode32(b, i) + TWO32 * Decode32(b, i + 4)
  }

  /** A name as it is written: a one-byte length, then as many bytes as that length says. */
  function EncodeName(name: seq<byte>): (b: seq<byte>)
    ensures |b| == 1 + |name| % 256 <= 1 + |name|
  {
    [|name| % 256] + name[..|name| % 256]
  }

  /** What follows the names. */
  function EncodeTail(c: Call): (b: seq<byte>)
    ensures |b| == 16 + |c.body|
  {
    Encode64(c.pid) + Encode32(c.msgid) + Encode32(|c.body|) + c.body
  }

  /** `encodeBuffer` without the length prefix. */
  function Payload(c: Call): (b: seq<byte>)
    ensures |b| <= c.Size() && (c.ShortNames() ==> |b| == c.Size())
  {
    [0, 0] + EncodeName(c.target) + EncodeName(c.param) + EncodeName(DEFRES) + EncodeTail(c)
  }

  /** A frame in the stream: its length, what is written of it and, when a name is too long for
      its length byte, `slack` bytes that happen to lie behind. */
  function Frame(c: Call, slack: seq<byte>): seq<byte> {
    Encode32(c.Size()) + Payload(c) + slack
  }

  // ---------------------------------------------------------------- decodeBuffer

  /** A length byte at `i` and the bytes it announces. */
  predicate NameAt(f: seq<byte>, i: nat) { i < |f| && i + 1 + f[i] as int <= |f| }

  function AfterName(f: seq<byte>, i: nat): nat
    requires i < |f|
  {
    i + 1 + f[i] as int
  }

  function NameOf(f: seq<byte>, i: nat): seq<byte>
    requires NameAt(f, i)
  {
    f[i + 1..AfterName(f, i)]
  }

  /** `decodeBuffer` stays inside the frame. */
  predicate Decodable(f: seq<byte>) {
    && |f| > 0 && f[0] == 0 && NameAt(f, 1)
    && var t := AfterName(f, 1);
    && NameAt(f, t)
    && var p := AfterName(f, t);
    && NameAt(f, p)
    && var r := AfterName(f, p);
    && NameAt(f, r)
    && var x := AfterName(f, r);
    && x + 16 <= |f| && x + 16 + Decode32(f, x + 12) <= |f|
  }

  /** `decodeBuffer`. The result is copied from its length byte on, one byte early. */
  function Decode(f: seq<byte>): RpcObj
    requires Decodable(f)
  {
    var t := AfterName(f, 1);
    var p := AfterName(f, t);
    var r := AfterName(f, p);
    var x := AfterName(f, r);
    RpcObj(NameOf(f, 1), NameOf(f, t), NameOf(f, p), f[r..r + f[r] as int],
        Decode64(f, x), Decode32(f, x + 8), f[x + 16..x + 16 + Decode32(f, x + 12)])
  }

  /** What the receiver of a call gets. */
  function Received(c: Call): RpcObj {
    RpcObj([], c.target[..|c.target| % 256], c.param[..|c.param| % 256], [6] + DEFRES[..5], c.pid, c.msgid, c.body)
  }

  lemma Decode64At(b: seq<byte>, i: nat, v: nat)
    requires i + 8 <= |b| && b[i..i + 8] == Encode64(v) && v < TWO64
    ensures Decode64(b, i) == v
  {
    var lo, hi := v % TWO32, v / TWO32;
    assert v == hi * TWO32 + lo && hi < TWO32;
    var e := Encode64(v);
    assert b[i..i + 4] == b[i..i + 8][..4] == e[..4] == Encode32(lo);
    assert b[i + 4..i + 8] == b[i..i + 8][4..] == e[4..] == Encode32(hi % TWO32);
    Decode32At(b, i, lo);
    Decode32At(b, i + 4, hi);
  }

  lemma NameRoundTrip(f: seq<byte>, i: nat, name: seq<byte>)
    requires i <= |f| && EncodeName(name) <= f[i..]
    ensures NameAt(f, i) && NameOf(f, i) == name[..|name| % 256] && AfterName(f, i) == i + |EncodeName(name)|
  {
    var e := EncodeName(name);
    assert f[i..][..|e|] == e;
    assert f[i] == e[0];
    assert NameOf(f, i) == e[1..];
  }

  lemma SliceAt(f: seq<byte>, x: nat, e: seq<byte>, j: nat, k: nat)
    requires x <= |f| && e <= f[x..] && j <= k <= |e|
    ensures f[x + j..x + k] == e[j..k]
  {
    var s, t := f[x + j..x + k], e[j..k];
    forall i | 0 <= i < k - j ensures s[i] == t[i] {
      assert s[i] == f[x..][j + i] && t[i] == e[j + i];
    }
  }

  lemma TailRoundTrip(f: seq<byte>, x: nat, c: Call)
    requires c.Ok() && x <= |f| && EncodeTail(c) <= f[x..]
    ensures x + 16 <= |f| && Decode64(f, x) == c.pid && Decode32(f, x + 8) == c.msgid && Decode32(f, x + 12) == |c.body|
    ensures x + 16 + |c.body| <= |f| && f[x + 16..x + 16 + |c.body|] == c.body
  {
    var e := EncodeTail(c);
    assert e[..8] == Encode64(c.pid) && e[8..12] == Encode32(c.msgid) && e[12..16] == Encode32(|c.body|)
           && e[16..] == c.body;
    SliceAt(f, x, e, 0, 8);
    SliceAt(f, x, e, 8, 12);
    SliceAt(f, x, e, 12, 16);
    SliceAt(f, x, e, 16, |e|);
    Decode64At(f, x, c.pid);
    Decode32At(f, x + 8, c.msgid);
    Decode32At(f, x + 12, |c.body|);
  }

  /** Decoding a frame gives the call back, with each name cut to its length modulo 256, and
      with a result that is not the one sent. */
  lemma DecodeOfEncode(c: Call, slack: seq<byte>)
    requires c.Ok()
    ensures Decodable(Payload(c) + slack) && Decode(Payload(c) + slack) == Received(c)
  {
    var f := Payload(c) + slack;
    var a, b, d := EncodeName(c.target), EncodeName(c.param), EncodeName(DEFRES);
    Slices([0, 0], a, b, d, EncodeTail(c), slack);
    DecodeParts(f, c, 2, 2 + |a|, 2 + |a| + |b|, 2 + |a| + |b| + |d|);
  }

  lemma DecodeParts(f: seq<byte>, c: Call, t: nat, p: nat, r: nat, x: nat)
    requires c.Ok() && t == 2 && p == t + |EncodeName(c.target)| && r == p + |EncodeName(c.param)| && x == r + 7 <= |f|
    requires [0, 0] <= f && EncodeName(c.target) <= f[t..] && EncodeName(c.param) <= f[p..]
    requires EncodeName(DEFRES) <= f[r..] && EncodeTail(c) <= f[x..]
    ensures Decodable(f) && Decode(f) == Received(c)
  {
    hide EncodeName, EncodeTail, Encode64, Decode64, Decode32, NameAt, NameOf, AfterName, Decodable, Decode;
    KeyAt(f);
    ResultCut(f, r);
    NameRoundTrip(f, t, c.target);
    NameRoundTrip(f, p, c.param);
    NameRoundTrip(f, r, DEFRES);
    TailRoundTrip(f, x, c);
    DecodeAt(f, t, p, r, x);
  }

  /** The key is empty. */
  lemma KeyAt(f: seq<byte>)
    requires [0, 0] <= f
    ensures f[0] == 0 && NameAt(f, 1) && NameOf(f, 1) == [] && AfterName(f, 1) == 2
  {
    assert f[1] == 0;
  }

  /** `decodeBuffer` once the places of the fields are known. */
  lemma DecodeAt(f: seq<byte>, t: nat, p: nat, r: nat, x: nat)
    requires |f| > 0 && f[0] == 0 && NameAt(f, 1) && AfterName(f, 1) == t && NameAt(f, t) && AfterName(f, t) == p
    requires NameAt(f, p) && AfterName(f, p) == r && NameAt(f, r) && AfterName(f, r) == x
    requires x + 16 <= |f| && x + 16 + Decode32(f, x + 12) <= |f|
    ensures r + f[r] as int <= |f| && Decodable(f)
    ensures Decode(f) == RpcObj(NameOf(f, 1), NameOf(f, t), NameOf(f, p), f[r..r + f[r] as int],
                                Decode64(f, x), Decode32(f, x + 8), f[x + 16..x + 16 + Decode32(f, x + 12)])
  {
    hide NameOf, Decode32, Decode64;
  }

  /** The result field starts at its own length byte. */
  lemma ResultCut(f: seq<byte>, r: nat)
    requires r <= |f| && EncodeName(DEFRES) <= f[r..]
    ensures |EncodeName(DEFRES)| == 7 && r + 7 <= |f| && f[r] == 6 && f[r..r + 6] == [6] + DEFRES[..5]
  {
    var d := EncodeName(DEFRES);
    assert d == [6] + DEFRES;
    assert f[r..][..7] == d && f[r] == f[r..][0] && f[r..r + 6] == f[r..][..7][..6];
  }

  lemma Slices(h: seq<byte>, a: seq<byte>, b: seq<byte>, d: seq<byte>, e: seq<byte>, slack: seq<byte>)
    ensures var f := h + a + b + d + e + slack;
            && h <= f && a <= f[|h|..] && b <= f[|h| + |a|..] && d <= f[|h| + |a| + |b|..]
            && e <= f[|h| + |a| + |b| + |d|..]
  {
    var f := h + a + b + d + e + slack;
    assert f[|h|..] == a + (b + d + e + slack);
    assert f[|h| + |a|..] == b + (d + e + slack);
    assert f[|h| + |a| + |b|..] == d + (e + slack);
    assert f[|h| + |a| + |b| + |d|..] == e + slack;
  }

  /** The receiver sees the names that were sent exactly when both fit a one-byte length;
      everything else except the result always arrives. */
  lemma NamesArrive(c: Call)
    ensures Received(c).target == c.target && Received(c).param == c.param <==> c.ShortNames()
    ensures Received(c).pid == c.pid && Received(c).msgid == c.msgid && Received(c).body == c.body
    ensures Received(c).result != DEFRES
  {
    assert Received(c).result[0] == 6;
  }

  // ---------------------------------------------------------------- dealReadBuffer

  /** What the parse loop queues and what it leaves in the buffer. */
  datatype Split = Split(rpcs: seq<RpcObj>, rest: seq<byte>)

  function BodyLen(b: seq<byte>): nat
    requires |b| >= 4
  {
    Decode32(b, 0)
  }

  /** Frame lengths are not negative as 32-bit integers, and complete frames decode. */
  predicate Sound(b: seq<byte>)
    decreases |b|
  {
    |b| >= 4 ==>
      && BodyLen(b) < TWO31
      && (|b| >= 4 + BodyLen(b) ==> Decodable(b[4..4 + BodyLen(b)]) && Sound(b[4 + BodyLen(b)..]))
  }

  /** The loop of `dealReadBuffer`. */
  function Parse(b: seq<byte>): Split
    requires Sound(b)
    decreases |b|
  {
    if |b| < 4 || |b| < 4 + BodyLen(b) then Split([], b)
    else
      var s := Parse(b[4 + BodyLen(b)..]);
      Split([Decode(b[4..4 + BodyLen(b)])] + s.rpcs, s.rest)
  }

  /** One turn of the loop, when a frame of `n` bytes is complete. */
  lemma ParseTurn(b: seq<byte>, n: nat)
    requires |b| >= 4 && n == 4 + BodyLen(b) <= |b|
    ensures Sound(b) <==> BodyLen(b) < TWO31 && Decodable(b[4..n]) && Sound(b[n..])
    ensures Sound(b) ==> Parse(b) == Split([Decode(b[4..n])] + Parse(b[n..]).rpcs, Parse(b[n..]).rest)
  {
    hide Decode, Decodable, BodyLen;
  }

  /** No turn, when none is. */
  lemma ParseWaits(a: seq<byte>, b: seq<byte>)
    requires Sound(a + b) && (|a| < 4 || |a| < 4 + BodyLen(a))
    ensures Sound(a) && Parse(a) == Split([], a)
  {
    hide Decode, Decodable, BodyLen;
    if |a| >= 4 { PrefixLen(a, b); }
  }

  /** Parsing what has arrived and later the rest is parsing everything at once. */
  lemma {:induction false} ParseMore(a: seq<byte>, b: seq<byte>)
    requires Sound(a + b)
    ensures Sound(a) && Sound(Parse(a).rest + b)
    ensures var s, t := Parse(a), Parse(Parse(a).rest + b); Parse(a + b) == Split(s.rpcs + t.rpcs, t.rest)
    decreases |a|
  {
    hide Decode, Decodable, BodyLen, Sound, Parse;
    if |a| >= 4 && |a| >= 4 + BodyLen(a) {
      var n := 4 + BodyLen(a);
      var tail := a[n..];
      PrefixLen(a, b);
      assert (a + b)[4..n] == a[4..n] && (a + b)[n..] == tail + b;
      ParseTurn(a, n);
      ParseTurn(a + b, n);
      ParseMore(tail, b);
      var first, s, t := [Decode(a[4..n])], Parse(tail), Parse(Parse(tail).rest + b);
      assert first + (s.rpcs + t.rpcs) == (first + s.rpcs) + t.rpcs;
    } else {
      ParseWaits(a, b);
      var t := Parse(a + b);
      assert t.rpcs == [] + t.rpcs;
    }
  }

  lemma PrefixLen(a: seq<byte>, b: seq<byte>)
    requires |a| >= 4
    ensures BodyLen(a + b) == BodyLen(a)
  { }

  function Concat(chunks: seq<seq<byte>>): seq<byte>
    decreases |chunks|
  {
    if chunks == [] then [] else Concat(chunks[..|chunks| - 1]) + chunks[|chunks| - 1]
  }

  /** The receive buffer and the queue of decoded calls. */
  datatype Link = Link(buf: seq<byte>, queue: seq<RpcObj>)

  /** One read followed by `dealReadBuffer`. */
  function Feed(l: Link, chunk: seq<byte>): Link
    requires Sound(l.buf + chunk)
  {
    var s := Parse(l.buf + chunk);
    Link(s.rest, l.queue + s.rpcs)
  }

  /** Chunk independence: any division of a sound byte stream into reads leaves the same queue
      and the same unfinished suffix as one read of everything. */
  function FeedAll(chunks: seq<seq<byte>>): (l: Link)
    requires Sound(Concat(chunks))
    ensures l == Link(Parse(Concat(chunks)).rest, Parse(Concat(chunks)).rpcs)
    decreases |chunks|
  {
    if chunks == [] then Link([], [])
    else
      var n := |chunks| - 1;
      ParseMore(Concat(chunks[..n]), chunks[n]);
      Feed(FeedAll(chunks[..n]), chunks[n])
  }

  // ---------------------------------------------------------------- streams of calls

  /** A call as it lies in the stream. */
  datatype Framed = Framed(call: Call, slack: seq<byte>) {
    predicate Ok() { call.Ok() && |Payload(call)| + |slack| == call.Size() }

    function Bytes(): seq<byte> { Frame(call, slack) }
  }

  function StreamOf(fs: seq<Framed>): seq<byte> {
    if fs == [] then [] else fs[0].Bytes() + StreamOf(fs[1..])
  }

  function AllReceived(fs: seq<Framed>): seq<RpcObj> {
    seq(|fs|, i requires 0 <= i < |fs| => Received(fs[i].call))
  }

  /** How many frames lie whole in the first `n` bytes. */
  function Complete(fs: seq<Framed>, n: nat): (k: nat)
    ensures k <= |fs|
  {
    if fs == [] || n < |fs[0].Bytes()| then 0 else 1 + Complete(fs[1..], n - |fs[0].Bytes()|)
  }

  /** One whole frame at the head of a buffer. */
  lemma ParseFrame(f: Framed, rest: seq<byte>)
    requires f.Ok() && Sound(rest)
    ensures var b := f.Bytes() + rest;
            Sound(b) && Parse(b) == Split([Received(f.call)] + Parse(rest).rpcs, Parse(rest).rest)
  {
    var b, body := f.Bytes() + rest, Payload(f.call) + f.slack;
    DecodeOfEncode(f.call, f.slack);
    assert f.Bytes() == Encode32(f.call.Size()) + body;
    hide Decode, Decodable, Payload, Encode32, Frame, Received;
    assert b[0..4] == Encode32(f.call.Size());
    Decode32At(b, 0, f.call.Size());
    var n := 4 + BodyLen(b);
    assert b[4..n] == body && b[n..] == rest;
  }

  /** A frame that has not arrived whole stays in the buffer. */
  lemma ParsePart(f: Framed, n: nat)
    requires f.Ok() && n < |f.Bytes()|
    ensures Sound(f.Bytes()[..n]) && Parse(f.Bytes()[..n]) == Split([], f.Bytes()[..n])
  {
    var b := f.Bytes()[..n];
    if n >= 4 {
      assert b[0..4] == Encode32(f.call.Size());
      Decode32At(b, 0, f.call.Size());
    }
  }

  /** However much of the stream has arrived: exactly the complete frames are queued, in order,
      and exactly the unfinished suffix is left. */
  lemma {:induction false} ParseStream(fs: seq<Framed>, n: nat)
    requires (forall i :: 0 <= i < |fs| ==> fs[i].Ok()) && n <= |StreamOf(fs)|
    ensures var k, b := Complete(fs, n), StreamOf(fs)[..n];
            && Sound(b) && Parse(b).rpcs == AllReceived(fs[..k]) && StreamOf(fs[..k]) + Parse(b).rest == b
            && (k < |fs| ==> |Parse(b).rest| < |fs[k].Bytes()|)
    decreases |fs|, 1
  {
    if fs != [] {
      if n < |fs[0].Bytes()| {
        assert StreamOf(fs)[..n] == fs[0].Bytes()[..n];
        ParsePart(fs[0], n);
        assert fs[..0] == [];
      } else {
        StreamStep(fs, n);
      }
    } else {
      assert fs[..0] == [];
    }
  }

  lemma StreamStep(fs: seq<Framed>, n: nat)
    requires (forall i :: 0 <= i < |fs| ==> fs[i].Ok()) && fs != [] && |fs[0].Bytes()| <= n <= |StreamOf(fs)|
    ensures var k, b := Complete(fs, n), StreamOf(fs)[..n];
            && Sound(b) && Parse(b).rpcs == AllReceived(fs[..k]) && StreamOf(fs[..k]) + Parse(b).rest == b
            && (k < |fs| ==> |Parse(b).rest| < |fs[k].Bytes()|)
    decreases |fs|, 0
  {
    hide Received, Sound, Frame, Parse, Framed.Bytes, StreamOf, AllReceived, Framed.Ok;
    var f, m := fs[0], n - |fs[0].Bytes()|;
    StreamPrefix(fs, n);
    ParseStream(fs[1..], m);
    ParseFrame(f, StreamOf(fs[1..])[..m]);
    FirstMore(fs, Complete(fs[1..], m));
    ConcatAssoc(f.Bytes(), StreamOf(fs[1..][..Complete(fs[1..], m)]), Parse(StreamOf(fs)[..n]).rest);
  }

  lemma ConcatAssoc(a: seq<byte>, b: seq<byte>, c: seq<byte>)
    ensures a + b + c == a + (b + c)
  { }

  lemma StreamPrefix(fs: seq<Framed>, n: nat)
    requires fs != [] && |fs[0].Bytes()| <= n <= |StreamOf(fs)|
    ensures n - |fs[0].Bytes()| <= |StreamOf(fs[1..])|
    ensures StreamOf(fs)[..n] == fs[0].Bytes() + StreamOf(fs[1..])[..n - |fs[0].Bytes()|]
  {
    hide Framed.Bytes;
  }

  /** The first frame and the next `k`. */
  lemma FirstMore(fs: seq<Framed>, k: nat)
    requires fs != [] && k <= |fs[1..]|
    ensures AllReceived(fs[..1 + k]) == [Received(fs[0].call)] + AllReceived(fs[1..][..k])
    ensures StreamOf(fs[..1 + k]) == fs[0].Bytes() + StreamOf(fs[1..][..k])
  {
    hide Received, Framed.Bytes;
    assert fs[..1 + k][1..] == fs[1..][..k];
  }

  /** RPC stream fidelity: for any calls and any division of the bytes that have arrived into
      reads, the queue holds exactly the calls that have arrived whole, in order, and the
      buffer the bytes of the next one; a buffer every frame fits is never full. */
  lemma StreamFidelity(fs: seq<Framed>, chunks: seq<seq<byte>>)
    requires (forall i :: 0 <= i < |fs| ==> fs[i].Ok()) && Concat(chunks) <= StreamOf(fs)
    ensures Sound(Concat(chunks))
    ensures var k, l := Complete(fs, |Concat(chunks)|), FeedAll(chunks);
            && l.queue == AllReceived(fs[..k]) && StreamOf(fs[..k]) + l.buf == Concat(chunks)
            && ((forall i :: 0 <= i < |fs| ==> |fs[i].Bytes()| <= RPC_BUFF_SIZE) ==> |l.buf| < RPC_BUFF_SIZE)
  {
    var n := |Concat(chunks)|;
    assert StreamOf(fs)[..n] == Concat(chunks);
    ParseStream(fs, n);
    if Complete(fs, n) == |fs| {
      assert fs[..|fs|] == fs;
    }
  }

  // ---------------------------------------------------------------- AppendSend

  /** The full send caches in their queue, and what the current one holds. */
  datatype Caches = Caches(full: seq<seq<byte>>, cur: seq<byte>) {
    /** All bytes waiting to be sent, in order. */
    function Bytes(): seq<byte> { Concat(full) + cur }

    /** How full the cache is that takes a frame of `need` bytes behind its length. */
    function Used(need: nat): nat { if need > RPC_BUFF_SIZE - |cur| then 0 else |cur| }

    /** The frame lies inside that cache. The room check of the code counts only `need`, not
        the 4-byte length in front, so this is for the caller to see to. */
    predicate Fits(need: nat) { Used(need) + need + 4 <= RPC_BUFF_SIZE }

    function Append(f: Framed): Caches {
      if f.call.Size() > RPC_BUFF_SIZE - |cur| then Caches(full + [cur], f.Bytes()) else Caches(full, cur + f.Bytes())
    }

    predicate Ok() { |cur| <= RPC_BUFF_SIZE && forall i :: 0 <= i < |full| ==> |full[i]| <= RPC_BUFF_SIZE }
  }

  /** The room check alone does not keep a frame inside its cache: with the cache so full that
      the frame fits and its length does not, the frame is placed there all the same. */
  lemma RoomCheckCounterexample()
    ensures exists c: Caches, need: nat :: c.Ok() && need < RPC_BUFF_SIZE - |c.cur| && !c.Fits(need)
  {
    var c := Caches([], seq(RPC_BUFF_SIZE - 30, i => 0));
    assert c.Ok() && 27 < RPC_BUFF_SIZE - |c.cur| && !c.Fits(27);
  }

  /** When it does: exactly when an empty cache has room for frame and length, and the current
      one either fails the room check or has room for both as well. */
  lemma FitsExactly(c: Caches, need: nat)
    requires c.Ok()
    ensures c.Fits(need) <==>
              && need + 4 <= RPC_BUFF_SIZE
              && (need > RPC_BUFF_SIZE - |c.cur| || need + 4 <= RPC_BUFF_SIZE - |c.cur|)
  { }

  function AppendAll(fs: seq<Framed>): Caches
    decreases |fs|
  {
    if fs == [] then Caches([], []) else AppendAll(fs[..|fs| - 1]).Append(fs[|fs| - 1])
  }

  ghost predicate AllFit(fs: seq<Framed>)
    decreases |fs|
  {
    fs != [] ==> AllFit(fs[..|fs| - 1]) && AppendAll(fs[..|fs| - 1]).Fits(fs[|fs| - 1].call.Size())
  }

  lemma {:induction false} StreamConcat(a: seq<Framed>, b: seq<Framed>)
    ensures StreamOf(a + b) == StreamOf(a) + StreamOf(b)
  {
    if a == [] {
      assert a + b == b;
    } else {
      assert (a + b)[1..] == a[1..] + b;
      StreamConcat(a[1..], b);
    }
  }

  lemma AppendBytes(c: Caches, f: Framed)
    requires c.Ok() && f.Ok() && c.Fits(f.call.Size())
    ensures c.Append(f).Ok() && c.Append(f).Bytes() == c.Bytes() + f.Bytes()
  {
    if f.call.Size() > RPC_BUFF_SIZE - |c.cur| {
      assert (c.full + [c.cur])[..|c.full|] == c.full;
    }
  }

  /** Batching loses and reorders nothing: the caches, in queue order, hold the stream of the
      calls, none beyond its size, whatever the sizes of the calls. */
  lemma {:induction false} BatchingIsStream(fs: seq<Framed>)
    requires (forall i :: 0 <= i < |fs| ==> fs[i].Ok()) && AllFit(fs)
    ensures AppendAll(fs).Ok() && AppendAll(fs).Bytes() == StreamOf(fs)
    decreases |fs|
  {
    hide Framed.Bytes, Framed.Ok, StreamOf, Caches.Append, Caches.Bytes, Caches.Fits, Caches.Ok;
    if fs == [] {
      NothingAppended();
    } else {
      var n := |fs| - 1;
      BatchingIsStream(fs[..n]);
      AppendBytes(AppendAll(fs[..n]), fs[n]);
      StreamSnoc(fs);
    }
  }

  /** Every two neighbouring caches hold more than one could: a new one is started only for a call
      that does not fit. */
  ghost predicate Crowded(caches: seq<seq<byte>>) {
    forall i :: 0 < i < |caches| ==> |caches[i - 1]| + |caches[i]| > RPC_BUFF_SIZE + 4
  }

  lemma AppendCrowds(c: Caches, f: Framed)
    requires Crowded(c.full + [c.cur]) && f.Ok()
    ensures var d := c.Append(f); Crowded(d.full + [d.cur])
  {
    hide Concat;
    var d, ds := c.Append(f), c.full + [c.cur];
    var es := d.full + [d.cur];
    assert |f.Bytes()| == 4 + f.call.Size();
    forall i | 0 < i < |es| ensures |es[i - 1]| + |es[i]| > RPC_BUFF_SIZE + 4 {
      if i < |ds| { assert |ds[i - 1]| + |ds[i]| > RPC_BUFF_SIZE + 4; }
    }
  }

  /** Batching wastes no cache. */
  lemma {:induction false} BatchingIsTight(fs: seq<Framed>)
    requires forall i :: 0 <= i < |fs| ==> fs[i].Ok()
    ensures Crowded(AppendAll(fs).full + [AppendAll(fs).cur])
    decreases |fs|
  {
    hide Framed.Ok, Caches.Append, Crowded;
    if fs == [] {
      NoneCrowded();
    } else {
      BatchingIsTight(fs[..|fs| - 1]);
      AppendCrowds(AppendAll(fs[..|fs| - 1]), fs[|fs| - 1]);
    }
  }

  lemma NoneCrowded()
    ensures Crowded(Caches([], []).full + [Caches([], []).cur])
  { }

  lemma NothingAppended()
    ensures Caches([], []).Ok() && Caches([], []).Bytes() == StreamOf([])
  { }

  lemma StreamSnoc(fs: seq<Framed>)
    requires fs != []
    ensures var n := |fs| - 1; StreamOf(fs) == StreamOf(fs[..n]) + fs[n].Bytes()
  {
    hide Framed.Bytes;
    var n := |fs| - 1;
    StreamConcat(fs[..n], [fs[n]]);
    assert fs == fs[..n] + [fs[n]];
    assert StreamOf([fs[n]]) == fs[n].Bytes() + [];
  }

  /** From call to call: what one side appends is what the other side queues, however the
      bytes of the caches are cut on the way. */
  lemma CallsArrive(fs: seq<Framed>, chunks: seq<seq<byte>>)
    requires (forall i :: 0 <= i < |fs| ==> fs[i].Ok()) && AllFit(fs) && Concat(chunks) == AppendAll(fs).Bytes()
    ensures Sound(Concat(chunks)) && FeedAll(chunks) == Link([], AllReceived(fs))
  {
    BatchingIsStream(fs);
    StreamFidelity(fs, chunks);
    CompleteAll(fs);
    assert fs[..|fs|] == fs;
  }

  lemma {:induction false} CompleteAll(fs: seq<Framed>)
    ensures Complete(fs, |StreamOf(fs)|) == |fs|
  {
    if fs != [] { CompleteAll(fs[1..]); }
  }
}
