/** The KCP datagram format: a datagram is a sequence of segments, each a 24-byte
    little-endian header followed by its payload. */
module Wire {
  import opened Serial

  type byte = x: int | 0 <= x < 256

  const OVERHEAD: nat := 24

  const CMD_PUSH: nat := 81
  const CMD_ACK: nat := 82
  const CMD_WASK: nat := 83
  const CMD_WINS: nat := 84

  /** What a segment is to the application: fragment countdown and payload. */
  datatype Frag = Frag(frg: nat, data: seq<byte>)

  /** A segment as it travels. */
  datatype Seg = Seg(conv: nat, cmd: nat, frg: nat, wnd: nat, ts: nat, sn: nat, una: nat, data: seq<byte>) {
    function Pay(): Frag { Frag(frg, data) }

    function Size(): nat { OVERHEAD + |data| }

    /** Every field fits the width it has on the wire. */
    predicate Fits() {
      && conv < TWO32 && (cmd == CMD_PUSH || cmd == CMD_ACK || cmd == CMD_WASK || cmd == CMD_WINS)
      && frg < 256 && wnd < 65536 && ts < TWO32 && sn < TWO32 && una < TWO32 && |data| < TWO32
    }

    /** The segment as the C code holds it: sequence numbers reduced to 32 bits. */
    function Wrap(): Seg { this.(sn := U32(sn), una := U32(una)) }
  }

  function Bytes(fs: seq<Frag>): seq<byte> {
    if fs == [] then [] else fs[0].data + Bytes(fs[1..])
  }

  function TotalSize(gs: seq<Seg>): nat {
    if gs == [] then 0 else gs[0].Size() + TotalSize(gs[1..])
  }

  function Encode16(w: nat): (b: seq<byte>)
    ensures |b| == 2
  {
    [w % 256, w / 256 % 256]
  }

  function Decode16(b0: byte, b1: byte): nat { b0 as int + 256 * b1 as int }

  function Encode32(l: nat): (b: seq<byte>)
    ensures |b| == 4
  {
    [l % 256, l / 256 % 256, l / 65536 % 256, l / 16777216 % 256]
  }

  function Decode32(b: seq<byte>, i: nat): (l: nat)
    requires i + 4 <= |b|
    ensures l < TWO32
  {
    b[i] as int + 256 * b[i + 1] as int + 65536 * b[i + 2] as int + 16777216 * b[i + 3] as int
  }

  /** `ikcp_encode_seg`: the header, in which each field keeps its low bits. */
  function EncodeHeader(g: Seg): (b: seq<byte>)
    ensures |b| == OVERHEAD
  {
    Encode32(g.conv) + [g.cmd % 256, g.frg % 256] + Encode16(g.wnd) + Encode32(g.ts)
      + Encode32(g.sn) + Encode32(g.una) + Encode32(|g.data|)
  }

  function EncodeSeg(g: Seg): (b: seq<byte>)
    ensures |b| == g.Size()
  {
    EncodeHeader(g) + g.data
  }

  function EncodeAll(gs: seq<Seg>): (b: seq<byte>) {
    if gs == [] then [] else EncodeSeg(gs[0]) + EncodeAll(gs[1..])
  }

  /** The segments found in a datagram, and the code of the first error (0 for none). */
  datatype Parsed = Parsed(segs: seq<Seg>, code: int)

  /** The `len` field of a header. */
  function DecodeLen(b: seq<byte>): nat
    requires |b| >= OVERHEAD
  {
    Decode32(b, 20)
  }

  /** The first segment of a datagram that holds it whole. */
  function DecodeSeg(b: seq<byte>): Seg
    requires |b| >= OVERHEAD && |b| - OVERHEAD >= DecodeLen(b)
  {
    Seg(Decode32(b, 0), b[4], b[5], Decode16(b[6], b[7]), Decode32(b, 8), Decode32(b, 12), Decode32(b, 16),
        b[OVERHEAD..OVERHEAD + DecodeLen(b)])
  }

  predicate KnownCmd(cmd: nat) {
    cmd == CMD_PUSH || cmd == CMD_ACK || cmd == CMD_WASK || cmd == CMD_WINS
  }

  /** The decode loop of `ikcp_input`: everything before the first malformed segment
      is processed; fewer than 24 trailing bytes are ignored. */
  function DecodeAll(conv: nat, b: seq<byte>): (p: Parsed)
    ensures p.code <= 0
    ensures forall i :: 0 <= i < |p.segs| ==> p.segs[i].Fits() && p.segs[i].conv == conv
    decreases |b|
  {
    if |b| < OVERHEAD then Parsed([], 0)
    else if Decode32(b, 0) != conv then Parsed([], -1)
    else if |b| - OVERHEAD < DecodeLen(b) then Parsed([], -2)
    else if !KnownCmd(b[4]) then Parsed([], -3)
    else
      var p := DecodeAll(conv, b[OVERHEAD + DecodeLen(b)..]);
      Parsed([DecodeSeg(b)] + p.segs, p.code)
  }

  lemma Decode32OfEncode32(l: nat)
    requires l < TWO32
    ensures Decode32(Encode32(l), 0) == l
  {
    var b := Encode32(l);
    assert l == 16777216 * (l / 16777216) + l % 16777216;
    assert l / 16777216 < 256;
    assert l / 65536 == 256 * (l / 65536 / 256) + l / 65536 % 256 && l / 65536 / 256 == l / 16777216;
    assert l / 256 == 256 * (l / 256 / 256) + l / 256 % 256 && l / 256 / 256 == l / 65536;
  }

  lemma Decode32At(b: seq<byte>, i: nat, l: nat)
    requires i + 4 <= |b| && b[i..i + 4] == Encode32(l) && l < TWO32
    ensures Decode32(b, i) == l
  {
    Decode32OfEncode32(l);
    var c := b[i..i + 4];
    assert c[0] == b[i] && c[1] == b[i + 1] && c[2] == b[i + 2] && c[3] == b[i + 3];
  }

  lemma HeaderParts(g: Seg)
    ensures var h := EncodeHeader(g);
            && h[0..4] == Encode32(g.conv) && h[4] == g.cmd % 256 && h[5] == g.frg % 256
            && h[6] == g.wnd % 256 && h[7] == g.wnd / 256 % 256
            && h[8..12] == Encode32(g.ts) && h[12..16] == Encode32(g.sn)
            && h[16..20] == Encode32(g.una) && h[20..24] == Encode32(|g.data|)
  { }

  lemma FieldAt(h: seq<byte>, b: seq<byte>, i: nat, l: nat)
    requires h <= b && i + 4 <= |h| && h[i..i + 4] == Encode32(l) && l < TWO32
    ensures Decode32(b, i) == l
  {
    assert b[i..i + 4] == h[i..i + 4];
    Decode32At(b, i, l);
  }

  /** The header fields of an encoded segment, whatever follows it. */
  lemma HeaderRoundTrip(g: Seg, b: seq<byte>)
    requires g.Fits() && EncodeHeader(g) <= b
    ensures Decode32(b, 0) == g.conv && b[4] == g.cmd && b[5] == g.frg && Decode16(b[6], b[7]) == g.wnd
    ensures Decode32(b, 8) == g.ts && Decode32(b, 12) == g.sn && Decode32(b, 16) == g.una && DecodeLen(b) == |g.data|
  {
    hide EncodeHeader, Encode32, Decode32;
    var h := EncodeHeader(g);
    HeaderParts(g);
    FieldAt(h, b, 0, g.conv);
    FieldAt(h, b, 8, g.ts);
    FieldAt(h, b, 12, g.sn);
    FieldAt(h, b, 16, g.una);
    FieldAt(h, b, 20, |g.data|);
  }

  /** Decoding what was encoded gives the segment back, whatever follows it. */
  lemma DecodeSegRoundTrip(g: Seg, rest: seq<byte>)
    requires g.Fits()
    ensures var b := EncodeSeg(g) + rest;
            && Decode32(b, 0) == g.conv && DecodeLen(b) == |g.data| && b[4] == g.cmd
            && DecodeSeg(b) == g && b[OVERHEAD + DecodeLen(b)..] == rest
  {
    HeaderRoundTrip(g, EncodeSeg(g) + rest);
  }

  /** The decode loop inverts the encoder on any sequence of well-formed segments. */
  lemma {:induction false} DecodeAllRoundTrip(conv: nat, gs: seq<Seg>)
    requires forall i :: 0 <= i < |gs| ==> gs[i].Fits() && gs[i].conv == conv
    ensures DecodeAll(conv, EncodeAll(gs)) == Parsed(gs, 0)
  {
    if gs != [] {
      DecodeSegRoundTrip(gs[0], EncodeAll(gs[1..]));
      DecodeAllRoundTrip(conv, gs[1..]);
    }
  }

  /** What follows well-formed segments is decoded as if it stood alone. */
  lemma {:induction false} DecodeAllPrefix(conv: nat, gs: seq<Seg>, tail: seq<byte>)
    requires forall i :: 0 <= i < |gs| ==> gs[i].Fits() && gs[i].conv == conv
    ensures DecodeAll(conv, EncodeAll(gs) + tail) ==
            Parsed(gs + DecodeAll(conv, tail).segs, DecodeAll(conv, tail).code)
  {
    hide EncodeSeg, DecodeAll, DecodeSeg;
    if gs == [] {
      assert EncodeAll(gs) + tail == tail;
      assert gs + DecodeAll(conv, tail).segs == DecodeAll(conv, tail).segs;
    } else {
      var rest := EncodeAll(gs[1..]) + tail;
      assert EncodeAll(gs) + tail == EncodeSeg(gs[0]) + rest;
      DecodeFirst(conv, gs[0], rest);
      DecodeAllPrefix(conv, gs[1..], tail);
      assert [gs[0]] + (gs[1..] + DecodeAll(conv, tail).segs) == gs + DecodeAll(conv, tail).segs;
    }
  }

  lemma DecodeFirst(conv: nat, g: Seg, rest: seq<byte>)
    requires g.Fits() && g.conv == conv
    ensures DecodeAll(conv, EncodeSeg(g) + rest) ==
            Parsed([g] + DecodeAll(conv, rest).segs, DecodeAll(conv, rest).code)
  {
    hide EncodeSeg, DecodeSeg;
    DecodeSegRoundTrip(g, rest);
  }

  /** The `k`-th byte of a number, least significant first. */
  function ByteOf(x: nat, k: nat): nat {
    if k == 0 then x % 256 else ByteOf(x / 256, k - 1)
  }

  /** The layout of a header: eight fields at their offsets, least significant byte first. */
  lemma HeaderLayout(g: Seg)
    ensures var h := EncodeHeader(g);
            && |h| == 24
            && (forall k :: 0 <= k < 4 ==> h[k] == ByteOf(g.conv, k))
            && h[4] == ByteOf(g.cmd, 0) && h[5] == ByteOf(g.frg, 0)
            && (forall k :: 0 <= k < 2 ==> h[6 + k] == ByteOf(g.wnd, k))
            && (forall k :: 0 <= k < 4 ==> h[8 + k] == ByteOf(g.ts, k))
            && (forall k :: 0 <= k < 4 ==> h[12 + k] == ByteOf(g.sn, k))
            && (forall k :: 0 <= k < 4 ==> h[16 + k] == ByteOf(g.una, k))
            && forall k :: 0 <= k < 4 ==> h[20 + k] == ByteOf(|g.data|, k)
  {
    hide EncodeHeader, Encode32;
    HeaderParts(g);
    var h := EncodeHeader(g);
    LayoutAt(h, 0, g.conv);
    LayoutAt(h, 8, g.ts);
    LayoutAt(h, 12, g.sn);
    LayoutAt(h, 16, g.una);
    LayoutAt(h, 20, |g.data|);
    assert ByteOf(g.wnd, 1) == ByteOf(g.wnd / 256, 0);
  }

  lemma LayoutAt(h: seq<byte>, i: nat, x: nat)
    requires i + 4 <= |h| && h[i..i + 4] == Encode32(x)
    ensures forall k :: 0 <= k < 4 ==> h[i + k] == ByteOf(x, k)
  {
    var e := h[i..i + 4];
    assert e[0] == h[i] && e[1] == h[i + 1] && e[2] == h[i + 2] && e[3] == h[i + 3];
    assert ByteOf(x, 1) == ByteOf(x / 256, 0);
    assert ByteOf(x, 2) == ByteOf(x / 256, 1) == ByteOf(x / 256 / 256, 0) && x / 256 / 256 == x / 65536;
    assert ByteOf(x, 3) == ByteOf(x / 256, 2) == ByteOf(x / 256 / 256, 1) == ByteOf(x / 256 / 256 / 256, 0);
    assert x / 256 / 256 / 256 == x / 16777216;
  }

  /** What a piece of a segment holds of its header. */
  lemma PieceHeader(g: Seg, cut: nat)
    requires OVERHEAD <= cut <= g.Size() && g.conv < TWO32 && |g.data| < TWO32 && g.cmd < 256
    ensures var b := EncodeSeg(g)[..cut];
            |b| == cut && Decode32(b, 0) == g.conv && DecodeLen(b) == |g.data| && b[4] == g.cmd
  {
    hide EncodeHeader, Encode32, Decode32;
    var h, b := EncodeHeader(g), EncodeSeg(g)[..cut];
    HeaderParts(g);
    PieceAt(h, g.data, cut);
    FieldAt(h, b, 0, g.conv);
    FieldAt(h, b, 20, |g.data|);
    assert b[4] == h[4];
  }

  lemma PieceAt(h: seq<byte>, data: seq<byte>, cut: nat)
    requires |h| <= cut <= |h| + |data|
    ensures h <= (h + data)[..cut]
  { }

  lemma PieceCode(conv: nat, g: Seg, cut: nat)
    requires g.conv < TWO32 && |g.data| < TWO32 && g.cmd < 256 && cut <= g.Size()
    requires cut < OVERHEAD || g.conv != conv || cut < g.Size() || !KnownCmd(g.cmd)
    ensures DecodeAll(conv, EncodeSeg(g)[..cut]) ==
            Parsed([], if cut < OVERHEAD then 0 else if g.conv != conv then -1 else if cut < g.Size() then -2 else -3)
  {
    hide EncodeSeg, Decode32, DecodeLen, DecodeSeg;
    if cut >= OVERHEAD { PieceHeader(g, cut); }
  }

  /** A datagram of well-formed segments followed by a piece of another one: the well-formed ones are
      processed, and the piece decides the code. Fewer than 24 bytes are ignored; otherwise a foreign
      conversation, a payload cut short and an unknown command are told apart, in this order. */
  lemma MalformedTail(conv: nat, gs: seq<Seg>, g: Seg, cut: nat)
    requires forall i :: 0 <= i < |gs| ==> gs[i].Fits() && gs[i].conv == conv
    requires g.conv < TWO32 && |g.data| < TWO32 && g.cmd < 256 && cut <= g.Size()
    requires cut < OVERHEAD || g.conv != conv || cut < g.Size() || !KnownCmd(g.cmd)
    ensures DecodeAll(conv, EncodeAll(gs) + EncodeSeg(g)[..cut]) ==
            Parsed(gs, if cut < OVERHEAD then 0 else if g.conv != conv then -1 else if cut < g.Size() then -2 else -3)
  {
    hide EncodeSeg, DecodeAll;
    DecodeAllPrefix(conv, gs, EncodeSeg(g)[..cut]);
    PieceCode(conv, g, cut);
    assert gs + [] == gs;
  }

  lemma {:induction false} EncodeAllConcat(a: seq<Seg>, b: seq<Seg>)
    ensures EncodeAll(a + b) == EncodeAll(a) + EncodeAll(b)
  {
    if a == [] {
      assert a + b == b;
    } else {
      assert (a + b)[1..] == a[1..] + b;
      EncodeAllConcat(a[1..], b);
    }
  }

  lemma {:induction false} EncodeAllSize(gs: seq<Seg>)
    ensures |EncodeAll(gs)| == TotalSize(gs)
  {
    if gs != [] { EncodeAllSize(gs[1..]); }
  }

  lemma {:induction false} TotalSizeConcat(a: seq<Seg>, b: seq<Seg>)
    ensures TotalSize(a + b) == TotalSize(a) + TotalSize(b)
  {
    if a == [] {
      assert a + b == b;
    } else {
      assert (a + b)[1..] == a[1..] + b;
      TotalSizeConcat(a[1..], b);
    }
  }

  lemma {:induction false} BytesConcat(a: seq<Frag>, b: seq<Frag>)
    ensures Bytes(a + b) == Bytes(a) + Bytes(b)
  {
    if a == [] {
      assert a + b == b;
    } else {
      assert (a + b)[1..] == a[1..] + b;
      BytesConcat(a[1..], b);
    }
  }

  // ---------------------------------------------------------------- packing

  /** Datagrams already emitted and the one being filled. */
  datatype Packing = Packing(done: seq<seq<Seg>>, cur: seq<Seg>) {
    /** One step of packing: emit the current datagram when the segment would push it
        past the mtu. An empty datagram is never emitted. */
    function Put(mtu: nat, g: Seg): Packing {
      if TotalSize(cur) + g.Size() > mtu then Packing(Close(), [g]) else Packing(done, cur + [g])
    }

    function Close(): seq<seq<Seg>> {
      if cur == [] then done else done + [cur]
    }

    function PutAll(mtu: nat, gs: seq<Seg>): Packing
      decreases |gs|
    {
      if gs == [] then this else PutAll(mtu, gs[..|gs| - 1]).Put(mtu, gs[|gs| - 1])
    }
  }

  /** The datagrams a flush makes of the segments it has to send. */
  function Pack(mtu: nat, gs: seq<Seg>): seq<seq<Seg>> {
    Packing([], []).PutAll(mtu, gs).Close()
  }

  /** The datagrams as bytes. */
  function EncodeEach(ds: seq<seq<Seg>>): seq<seq<byte>> {
    seq(|ds|, i requires 0 <= i < |ds| => EncodeAll(ds[i]))
  }

  function Flatten<T>(xss: seq<seq<T>>): seq<T> {
    if xss == [] then [] else xss[0] + Flatten(xss[1..])
  }

  lemma {:induction false} FlattenConcat<T>(a: seq<seq<T>>, b: seq<seq<T>>)
    ensures Flatten(a + b) == Flatten(a) + Flatten(b)
  {
    if a == [] {
      assert a + b == b;
    } else {
      assert (a + b)[1..] == a[1..] + b;
      FlattenConcat(a[1..], b);
    }
  }

  /** Packing neither loses, duplicates nor reorders a segment, no datagram is empty or longer
      than the mtu, and none could have held the segment that starts the next one. */
  lemma {:induction false} PackProperties(mtu: nat, gs: seq<Seg>)
    requires forall i :: 0 <= i < |gs| ==> gs[i].Size() <= mtu
    ensures Flatten(Pack(mtu, gs)) == gs
    ensures forall i :: 0 <= i < |Pack(mtu, gs)| ==> Pack(mtu, gs)[i] != [] && TotalSize(Pack(mtu, gs)[i]) <= mtu
    ensures forall i :: 0 < i < |Pack(mtu, gs)| ==> TotalSize(Pack(mtu, gs)[i - 1]) + Pack(mtu, gs)[i][0].Size() > mtu
  {
    PutAllPacks(mtu, gs);
    CloseFlatten(Packing([], []).PutAll(mtu, gs));
  }

  lemma CloseFlatten(p: Packing)
    ensures Flatten(p.Close()) == Flatten(p.done) + p.cur
  {
    FlattenConcat(p.done, [p.cur]);
    assert Flatten([p.cur]) == p.cur;
  }

  /** What holds of a packing at any point: it contains `gs`, within the mtu. */
  ghost predicate Packs(p: Packing, mtu: nat, gs: seq<Seg>) {
    && Flatten(p.done) + p.cur == gs
    && TotalSize(p.cur) <= mtu
    && (forall i :: 0 <= i < |p.done| ==> p.done[i] != [] && TotalSize(p.done[i]) <= mtu)
    && (p.cur == [] ==> p.done == []) && Tight(p.Close(), mtu)
  }

  /** A new datagram is started only when the segment does not fit the last one. */
  ghost predicate Tight(ds: seq<seq<Seg>>, mtu: nat) {
    forall i :: 0 < i < |ds| ==> ds[i] != [] && TotalSize(ds[i - 1]) + ds[i][0].Size() > mtu
  }

  lemma TightPut(p: Packing, mtu: nat, g: Seg)
    requires Tight(p.Close(), mtu) && (p.cur == [] ==> p.done == []) && g.Size() <= mtu
    ensures Tight(p.Put(mtu, g).Close(), mtu)
  {
    hide TotalSize;
    if TotalSize(p.cur) + g.Size() > mtu {
      NothingToSend();
      var ds := p.Close();
      assert p.cur != [] && ds[|ds| - 1] == p.cur && p.Put(mtu, g).Close() == ds + [[g]];
    } else if p.cur != [] {
      var ds: seq<seq<Seg>>, es: seq<seq<Seg>> := p.Close(), p.Put(mtu, g).Close();
      assert es == p.done + [p.cur + [g]] && ds == p.done + [p.cur];
      assert (p.cur + [g])[0] == p.cur[0];
      forall i | 0 < i < |es| ensures es[i] != [] && TotalSize(es[i - 1]) + es[i][0].Size() > mtu {
        assert es[i - 1] == ds[i - 1] && es[i] != [] && es[i][0] == ds[i][0];
      }
    }
  }

  lemma NothingToSend()
    ensures TotalSize([]) == 0
  { }

  lemma PutPacks(p: Packing, mtu: nat, gs: seq<Seg>, g: Seg)
    requires Packs(p, mtu, gs) && g.Size() <= mtu
    ensures Packs(p.Put(mtu, g), mtu, gs + [g])
  {
    hide Tight;
    TightPut(p, mtu, g);
    CloseFlatten(p);
    TotalSizeConcat(p.cur, [g]);
    assert TotalSize([g]) == g.Size();
    assert Flatten(p.done) + (p.cur + [g]) == gs + [g];
  }

  lemma {:induction false} PutAllPacks(mtu: nat, gs: seq<Seg>)
    requires forall i :: 0 <= i < |gs| ==> gs[i].Size() <= mtu
    ensures Packs(Packing([], []).PutAll(mtu, gs), mtu, gs)
    decreases |gs|
  {
    if gs != [] {
      var n := |gs| - 1;
      PutAllPacks(mtu, gs[..n]);
      PutPacks(Packing([], []).PutAll(mtu, gs[..n]), mtu, gs[..n], gs[n]);
      assert gs == gs[..n] + [gs[n]];
    }
  }
}
