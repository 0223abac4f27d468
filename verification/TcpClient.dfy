/** The connection to the gate as tcpclient.cpp keeps it: the receive buffer and the send
    cache are byte arrays filled in place. */
module TcpClient {
  import opened Wire
  import opened Rpc

  /** What `read` answers: some bytes, EAGAIN, another error, or the end of the stream. */
  datatype ReadAnswer = Bytes(chunk: seq<byte>) | WouldBlock | ReadError | EndOfFile

  class Client {
    const recvBuffer: array<byte>
    var recvOffset: nat
    var queRpcObj: seq<RpcObj>
    // full caches by their contents, and the current cache
    var sendCacheQueue: seq<seq<byte>>
    var mem: array<byte>
    var sendOffset: nat

    ghost predicate Valid()
      reads this
    {
      && recvBuffer.Length == RPC_BUFF_SIZE && recvOffset <= RPC_BUFF_SIZE
      && mem.Length == RPC_BUFF_SIZE && sendOffset <= RPC_BUFF_SIZE && mem != recvBuffer
    }

    ghost function Receiving(): Link
      requires Valid()
      reads this, recvBuffer
    {
      Link(recvBuffer[..recvOffset], queRpcObj)
    }

    ghost function Waiting(): Caches
      requires Valid()
      reads this, mem
    {
      Caches(sendCacheQueue, mem[..sendOffset])
    }

    constructor ()
      ensures Valid() && fresh(recvBuffer) && fresh(mem)
      ensures Receiving() == Link([], []) && Waiting() == Caches([], [])
    {
      recvBuffer := new byte[RPC_BUFF_SIZE];
      mem := new byte[RPC_BUFF_SIZE];
      recvOffset, queRpcObj, sendCacheQueue, sendOffset := 0, [], [], 0;
    }

    // -------------------------------------------------------------- receiving

    /** `OnRead`: the return code, and whether the connection is given up. A full buffer is
        not read into; otherwise `read` answers with at most as many bytes as there is room for. */
    method OnRead(answer: ReadAnswer) returns (code: int, closed: bool)
      requires Valid()
      requires recvOffset < RPC_BUFF_SIZE && answer.Bytes? ==> 0 < |answer.chunk| <= RPC_BUFF_SIZE - recvOffset
      modifies recvBuffer, this`recvOffset
      ensures Valid()
      ensures var full := old(recvOffset) == RPC_BUFF_SIZE;
              && code == (if full then 1 else match answer case Bytes(_) => 2 case WouldBlock => 1 case _ => -1)
              && closed == (!full && (answer.ReadError? || answer.EndOfFile?))
              && recvBuffer[..recvOffset]
                 == old(recvBuffer[..recvOffset]) + if !full && answer.Bytes? then answer.chunk else []
    {
      if RPC_BUFF_SIZE - recvOffset <= 0 { return 1, false; }
      match answer
      case WouldBlock => return 1, false;
      case ReadError => return -1, true;
      case EndOfFile => return -1, true;
      case Bytes(chunk) =>
        Append(chunk);
        return 2, false;
    }

    /** What `read` does to the buffer. */
    method Append(chunk: seq<byte>)
      requires Valid() && |chunk| <= RPC_BUFF_SIZE - recvOffset
      modifies recvBuffer, this`recvOffset
      ensures Valid() && recvBuffer[..recvOffset] == old(recvBuffer[..recvOffset]) + chunk
    {
      ghost var head := recvBuffer[..recvOffset];
      for i := 0 to |chunk|
        invariant recvBuffer[..recvOffset + i] == head + chunk[..i]
        modifies recvBuffer
      {
        recvBuffer[recvOffset + i] := chunk[i];
        assert recvBuffer[..recvOffset + i + 1] == recvBuffer[..recvOffset + i] + [chunk[i]];
      }
      recvOffset := recvOffset + |chunk|;
    }

    /** The bytes received and not yet parsed. */
    ghost predicate Holds(data: seq<byte>)
      reads this, recvBuffer
    {
      Valid() && recvBuffer[..recvOffset] == data
    }

    /** The parse loop of `dealReadBuffer`: the calls found and how far their frames reach. */
    method ParseFrames(ghost data: seq<byte>) returns (found: seq<RpcObj>, offset: nat)
      requires Holds(data) && Sound(data)
      ensures offset <= |data| && Parse(data) == Split(found, From(data, offset))
    {
      hide *;
      found, offset := [], 0;
      NoFrameYet(data);
      var whole := FrameAt(offset, data);
      while whole > 0
        invariant Holds(data) && offset <= |data| && Framing(data, offset, found) && whole == FrameLen(data, offset)
        decreases |data| - offset
      {
        found := NextCall(offset, whole, data, found);
        offset := offset + whole;
        whole := FrameAt(offset, data);
      }
      LastFrame(data, offset, found);
    }

    /** The length of the frame at `offset` if it has arrived whole, and 0 otherwise. */
    method FrameAt(offset: nat, ghost data: seq<byte>) returns (whole: nat)
      requires Holds(data) && offset <= |data|
      ensures Holds(data) && whole == FrameLen(data, offset)
    {
      var left := recvOffset - offset;
      if left < 4 { return 0; }
      Between(recvBuffer, data, offset, offset + 4);
      var bodyLen := Decode32(recvBuffer[offset..offset + 4], 0);
      if left < 4 + bodyLen { return 0; }
      return 4 + bodyLen;
    }

    /** Decoding the frame at `offset`, and queueing the call behind those found before. */
    method NextCall(offset: nat, whole: nat, ghost data: seq<byte>, found: seq<RpcObj>) returns (found': seq<RpcObj>)
      requires Holds(data) && offset <= |data| && Framing(data, offset, found) && whole == FrameLen(data, offset) > 0
      ensures Holds(data) && offset + whole <= |data| && Framing(data, offset + whole, found')
    {
      hide Framing, FrameLen, Decodable, Decode, Parse;
      TakeFrame(data, offset, found);
      var p := DecodeBuffer(offset, whole, data);
      found' := found + [p];
    }

    method DecodeBuffer(offset: nat, whole: nat, ghost data: seq<byte>) returns (p: RpcObj)
      requires Holds(data) && 4 <= whole && offset + whole <= |data| && Decodable(Body(data, offset, whole))
      ensures Holds(data) && p == Decode(Body(data, offset, whole))
    {
      hide Decodable, Decode;
      Between(recvBuffer, data, offset + 4, offset + whole);
      p := Decode(recvBuffer[offset + 4..offset + whole]);
    }

    /** `memmove` of the unfinished rest. */
    method MoveToFront(offset: nat)
      requires Valid() && offset <= recvOffset
      modifies recvBuffer
      ensures recvBuffer[..recvOffset - offset] == old(recvBuffer[offset..recvOffset])
    {
      var n := recvOffset - offset;
      for k := 0 to n
        invariant forall j :: 0 <= j < k ==> recvBuffer[j] == old(recvBuffer[offset + j])
        invariant forall j :: k <= j < recvBuffer.Length ==> recvBuffer[j] == old(recvBuffer[j])
        modifies recvBuffer
      {
        recvBuffer[k] := recvBuffer[offset + k];
      }
    }

    /** `dealReadBuffer`: the complete frames are queued, the unfinished rest moves to the front. */
    method DealReadBuffer()
      requires Valid() && Sound(recvBuffer[..recvOffset])
      modifies recvBuffer, this`recvOffset, this`queRpcObj
      ensures Valid()
      ensures var s := Parse(old(recvBuffer[..recvOffset])); Receiving() == Link(s.rest, old(queRpcObj) + s.rpcs)
    {
      hide Parse, Sound;
      if recvOffset == 0 {
        EmptyParse(recvBuffer[..recvOffset], queRpcObj);
        return;
      }
      var found, offset := ParseFrames(recvBuffer[..recvOffset]);
      queRpcObj := queRpcObj + found;
      MoveToFront(offset);
      recvOffset := recvOffset - offset;
    }

    // -------------------------------------------------------------- sending

    method PutBytes(at: nat, data: seq<byte>) returns (next: nat)
      requires at + |data| <= mem.Length
      modifies mem
      ensures next == at + |data| && mem[..next] == old(mem[..at]) + data
      ensures forall j :: next <= j < mem.Length ==> mem[j] == old(mem[j])
    {
      ghost var head := mem[..at];
      for i := 0 to |data|
        invariant mem[..at + i] == head + data[..i]
        invariant forall j :: at + |data| <= j < mem.Length ==> mem[j] == old(mem[j])
        modifies mem
      {
        mem[at + i] := data[i];
        assert mem[..at + i + 1] == mem[..at + i] + [data[i]];
      }
      next := at + |data|;
    }

    /** `getRpcSize`. */
    static method GetRpcSize(c: Call) returns (size: nat)
      ensures size == c.Size()
    {
      size := 0;
      size := size + 1;
      size := size + 1;
      size := size + 1;
      size := size + |c.target|;
      size := size + 1;
      size := size + |c.param|;
      size := size + 1;
      size := size + |DEFRES|;
      size := size + 8;
      size := size + 4;
      size := size + 4;
      size := size + |c.body|;
    }

    /** The length prefix, the names and what follows them. */
    method PutFrame(at: nat, size: nat, c: Call) returns (next: nat)
      requires at + 4 + |Payload(c)| <= mem.Length
      modifies mem
      ensures next == at + 4 + |Payload(c)| && mem[..next] == old(mem[..at]) + (Encode32(size) + Payload(c))
      ensures forall j :: next <= j < mem.Length ==> mem[j] == old(mem[j])
    {
      ghost var head := mem[..at];
      ghost var names := Names(c);
      PayloadParts(c, head, size);
      hide Payload, Names, EncodeName, EncodeTail, Encode32;
      next := PutBytes(at, Encode32(size));
      next := PutBytes(next, Names(c));
      next := PutBytes(next, EncodeTail(c));
    }

    /** `encodeBuffer`: writes the frame at the end of the cache and returns its whole length.
        Names longer than 255 bytes are cut, and the bytes left over stay as they were. */
    method EncodeBuffer(c: Call) returns (written: nat)
      requires Valid() && sendOffset + c.Size() + 4 <= RPC_BUFF_SIZE
      modifies mem
      ensures Valid() && written == c.Size() + 4
      ensures var slack := old(mem[sendOffset + 4 + |Payload(c)|..sendOffset + written]);
              mem[..sendOffset + written] == old(mem[..sendOffset]) + Frame(c, slack)
    {
      ghost var head := mem[..sendOffset];
      ghost var n := |Payload(c)|;
      hide Payload, Encode32;
      var size := GetRpcSize(c);
      ghost var slack := mem[sendOffset + 4 + n..sendOffset + size + 4];
      var p := PutFrame(sendOffset, size, c);
      assert mem[p..sendOffset + size + 4] == slack;
      SplitAt(mem, p, sendOffset + size + 4);
      assert head + (Encode32(size) + Payload(c)) + slack == head + (Encode32(size) + Payload(c) + slack);
      return size + 4;
    }

    /** `AppendSend`: the current cache is queued when the frame does not fit behind it. */
    method AppendSend(c: Call) returns (ghost f: Framed)
      requires Valid() && c.Ok() && Waiting().Fits(c.Size())
      modifies this`sendCacheQueue, this`mem, this`sendOffset, mem
      ensures Valid() && f.Ok() && f.call == c && (c.ShortNames() ==> f.slack == [])
      ensures Waiting() == old(Waiting()).Append(f) && (mem == old(mem) || fresh(mem))
      ensures recvBuffer[..] == old(recvBuffer[..])
    {
      var need := GetRpcSize(c);
      if need > RPC_BUFF_SIZE - sendOffset {
        sendCacheQueue := sendCacheQueue + [mem[..sendOffset]];
        mem, sendOffset := new byte[RPC_BUFF_SIZE], 0;
      }
      ghost var slack := mem[sendOffset + 4 + |Payload(c)|..sendOffset + need + 4];
      f := Framed(c, slack);
      ghost var before := mem[..sendOffset];
      var written := EncodeBuffer(c);
      sendOffset := sendOffset + written;
      assert mem[..sendOffset] == before + f.Bytes();
      assert [] + f.Bytes() == f.Bytes();
    }
  }

  /** The frame at `offset` without its length prefix, and what lies behind. */
  ghost function Body(data: seq<byte>, offset: nat, whole: nat): seq<byte>
    requires 4 <= whole && offset + whole <= |data|
  {
    data[offset + 4..offset + whole]
  }

  ghost function From(data: seq<byte>, offset: nat): seq<byte>
    requires offset <= |data|
  {
    data[offset..]
  }

  /** Where the parse loop stands: the frames before `offset` are found. */
  ghost predicate Framing(data: seq<byte>, offset: nat, found: seq<RpcObj>) {
    && offset <= |data| && Sound(data) && Sound(From(data, offset))
    && Parse(data) == Split(found + Parse(From(data, offset)).rpcs, Parse(From(data, offset)).rest)
  }

  lemma NoFrameYet(data: seq<byte>)
    requires Sound(data)
    ensures Framing(data, 0, [])
  {
    hide Parse, Sound;
    assert From(data, 0) == data;
    assert [] + Parse(data).rpcs == Parse(data).rpcs;
  }

  /** The length of the frame at `offset` with its prefix, or 0 if it is not there whole. */
  function FrameLen(data: seq<byte>, offset: nat): (n: nat)
    requires offset <= |data|
    ensures n == 0 || 4 <= n <= |data| - offset
  {
    var left := |data| - offset;
    if left < 4 then 0
    else
      var bodyLen := Decode32(data[offset..offset + 4], 0);
      if left < 4 + bodyLen then 0 else 4 + bodyLen
  }

  lemma FrameLenIs(data: seq<byte>, offset: nat)
    requires offset <= |data|
    ensures var rest := From(data, offset);
            FrameLen(data, offset) == if |rest| < 4 || |rest| < 4 + BodyLen(rest) then 0 else 4 + BodyLen(rest)
  {
    var rest := data[offset..];
    if |rest| >= 4 {
      assert data[offset..offset + 4] == rest[..4];
      assert forall i :: 0 <= i < 4 ==> rest[..4][i] == rest[i];
    }
  }

  lemma ParseHead(rest: seq<byte>)
    requires Sound(rest) && |rest| >= 4 && |rest| >= 4 + BodyLen(rest)
    ensures var n := 4 + BodyLen(rest);
            && Decodable(rest[4..n]) && Sound(rest[n..])
            && Parse(rest) == Split([Decode(rest[4..n])] + Parse(rest[n..]).rpcs, Parse(rest[n..]).rest)
  {
    hide Decode, Decodable, BodyLen;
  }

  lemma Behind(data: seq<byte>, offset: nat, n: nat)
    requires 4 <= n && offset + n <= |data|
    ensures From(data, offset)[4..n] == Body(data, offset, n) && From(data, offset)[n..] == From(data, offset + n)
  { }

  lemma TakeFrame(data: seq<byte>, offset: nat, found: seq<RpcObj>)
    requires Framing(data, offset, found) && FrameLen(data, offset) > 0
    ensures var n := FrameLen(data, offset);
            && Decodable(Body(data, offset, n)) && Framing(data, offset + n, found + [Decode(Body(data, offset, n))])
  {
    hide Decode, Decodable, FrameLen, BodyLen, Parse, Sound, Body, From;
    var n := FrameLen(data, offset);
    FrameLenIs(data, offset);
    ParseHead(From(data, offset));
    Behind(data, offset, n);
    var one, more := [Decode(Body(data, offset, n))], Parse(From(data, offset + n)).rpcs;
    assert found + (one + more) == found + one + more;
  }

  lemma LastFrame(data: seq<byte>, offset: nat, found: seq<RpcObj>)
    requires Framing(data, offset, found) && FrameLen(data, offset) == 0
    ensures offset <= |data| && Parse(data) == Split(found, From(data, offset))
  {
    FrameLenIs(data, offset);
    hide BodyLen, FrameLen, Sound;
    assert found + [] == found;
  }

  lemma SplitAt(a: array<byte>, p: nat, q: nat)
    requires p <= q <= a.Length
    ensures a[..q] == a[..p] + a[p..q]
  { }

  /** A stretch of the buffer is that stretch of what it holds. */
  lemma Between(a: array<byte>, data: seq<byte>, i: nat, j: nat)
    requires i <= j <= |data| <= a.Length && a[..|data|] == data
    ensures a[i..j] == data[i..j]
  {
    assert a[..|data|][i..j] == a[i..j];
  }

  lemma EmptyParse(b: seq<byte>, q: seq<RpcObj>)
    requires b == []
    ensures Sound(b) && Parse(b) == Split([], []) && q + Parse(b).rpcs == q
  { }

  /** The version and type bytes, and the names. */
  function Names(c: Call): seq<byte> {
    [0, 0] + EncodeName(c.target) + EncodeName(c.param) + EncodeName(DEFRES)
  }

  lemma PayloadParts(c: Call, head: seq<byte>, size: nat)
    ensures |Payload(c)| == |Names(c)| + |EncodeTail(c)|
    ensures head + Encode32(size) + Names(c) + EncodeTail(c) == head + (Encode32(size) + Payload(c))
  {
    hide EncodeName, EncodeTail, Encode32;
  }
}
