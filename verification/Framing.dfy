/** How the forwarder cuts a byte stream into messages, as a function of the bytes: the length
    of a message follows from its header and, for replies, from the direction of the request
    it answers. */
module Framing {
  import opened Bytes
  import opened PduCodec

  /** Whether a stream carries requests, whether it arrives in network order, and whether it
      leaves in network order. */
  datatype Mode = Mode(isReq: bool, swapReq: bool, swapWrite: bool)

  function Command(h: seq<byte>): u32
    requires HEADER_SIZE <= |h|
  {
    Word(h, COMMAND)
  }

  predicate IsUnlink(m: Mode, h: seq<byte>)
    requires HEADER_SIZE <= |h|
  {
    Command(h) == if m.isReq then CMD_UNLINK else RET_UNLINK
  }

  /** Only replies other than unlink replies take their direction from the cache. */
  predicate TakesDirection(m: Mode, h: seq<byte>)
    requires HEADER_SIZE <= |h|
  {
    !m.isReq && !IsUnlink(m, h)
  }

  /** get_xfer_len on a header in host order whose direction is restored. */
  function XferLen(m: Mode, h: seq<byte>): int
    requires HEADER_SIZE <= |h|
  {
    if IsUnlink(m, h) then 0
    else if (if m.isReq then Word(h, DIRECTION) != 0 else Word(h, DIRECTION) == DIR_OUT) then 0
    else Signed(Word(h, XFER_LEN))
  }

  /** A value stored in a signed 32-bit variable. */
  function Int32(v: int): (r: int)
    ensures -0x8000_0000 <= r < 0x8000_0000 && (r - v) % 0x1_0000_0000 == 0
    ensures -0x8000_0000 <= v < 0x8000_0000 ==> r == v
  {
    Signed(v % 0x1_0000_0000)
  }

  /** get_iso_len. */
  function IsoLen(m: Mode, h: seq<byte>): int
    requires HEADER_SIZE <= |h|
  {
    if IsUnlink(m, h) then 0 else Int32(Packets(h) * DESC_SIZE)
  }

  /** A header with a data length and a packet count that are not negative, and so few packets
      that the length of their descriptors fits 32 bits. */
  predicate Plain(m: Mode, h: seq<byte>)
    requires HEADER_SIZE <= |h|
  {
    0 <= XferLen(m, h) && (!IsUnlink(m, h) ==> 0 <= Packets(h) * DESC_SIZE < 0x8000_0000)
  }

  function Total(m: Mode, h: seq<byte>): nat
    requires HEADER_SIZE <= |h| && Plain(m, h)
  {
    HEADER_SIZE + XferLen(m, h) + IsoLen(m, h)
  }

  /** The header of a message as it arrived, in host order. */
  function HostHeader(m: Mode, raw: seq<byte>): (h: seq<byte>)
    requires HEADER_SIZE <= |raw|
    ensures |h| == HEADER_SIZE
  {
    if m.swapReq then SwapHeader(raw[..HEADER_SIZE], true) else raw[..HEADER_SIZE]
  }

  /** The header with the direction d of its request restored. */
  function Header(m: Mode, raw: seq<byte>, d: u32): (h: seq<byte>)
    requires HEADER_SIZE <= |raw|
    ensures |h| == HEADER_SIZE
  {
    var h := HostHeader(m, raw);
    if TakesDirection(m, h) then PutWord(h, DIRECTION, d) else h
  }

  /** raw is one whole message, given the direction of its request. */
  predicate IsPdu(m: Mode, raw: seq<byte>, d: u32) {
    && HEADER_SIZE <= |raw| && Plain(m, Header(m, raw, d)) && |raw| == Total(m, Header(m, raw, d))
  }

  // ---------------------------------------------------------------------------
  // Cutting a stream
  // ---------------------------------------------------------------------------

  function Concat(ss: seq<seq<byte>>): seq<byte> {
    if ss == [] then [] else ss[0] + Concat(ss[1..])
  }

  lemma {:induction false} ConcatAppend(ss: seq<seq<byte>>, x: seq<byte>)
    ensures Concat(ss + [x]) == Concat(ss) + x
  {
    if ss == [] {
      assert [] + [x] == [x];
      assert Concat([x]) == x + Concat([]);
    } else {
      assert (ss + [x])[1..] == ss[1..] + [x];
      ConcatAppend(ss[1..], x);
    }
  }

  lemma {:induction false} ConcatTake(ss: seq<seq<byte>>, n: nat)
    requires n <= |ss|
    ensures Concat(ss[..n]) <= Concat(ss)
    decreases |ss| - n
  {
    if n == |ss| {
      assert ss[..n] == ss;
    } else {
      assert ss[..n + 1] == ss[..n] + [ss[n]];
      ConcatAppend(ss[..n], ss[n]);
      ConcatTake(ss, n + 1);
    }
  }

  /** The direction of a message, where `look` gives that of the request a reply answers. */
  function MessageDirection(m: Mode, look: seq<byte> -> u32, raw: seq<byte>): u32
    requires HEADER_SIZE <= |raw|
  {
    var h := HostHeader(m, raw);
    if TakesDirection(m, h) then look(h) else Word(h, DIRECTION)
  }

  /** The messages a stream holds, cut greedily. */
  function Frames(m: Mode, input: seq<byte>, look: seq<byte> -> u32): seq<seq<byte>>
    decreases |input|
  {
    if |input| < HEADER_SIZE then []
    else
      var h := Header(m, input, MessageDirection(m, look, input));
      if !Plain(m, h) || |input| < Total(m, h) then []
      else [input[..Total(m, h)]] + Frames(m, input[Total(m, h)..], look)
  }

  /** All messages are whole, given the directions of their requests. */
  predicate Framed(m: Mode, look: seq<byte> -> u32, raws: seq<seq<byte>>) {
    forall k :: 0 <= k < |raws| ==> HEADER_SIZE <= |raws[k]| && IsPdu(m, raws[k], MessageDirection(m, look, raws[k]))
  }

  /** A header depends on the first 48 bytes only. */
  lemma {:induction false} HeaderOfPrefix(m: Mode, a: seq<byte>, b: seq<byte>, d: u32)
    requires HEADER_SIZE <= |a|
    ensures HostHeader(m, a + b) == HostHeader(m, a) && Header(m, a + b, d) == Header(m, a, d)
  {
    assert (a + b)[..HEADER_SIZE] == a[..HEADER_SIZE];
  }

  lemma {:induction false} FramesStep(m: Mode, look: seq<byte> -> u32, raw: seq<byte>, rest: seq<byte>)
    requires HEADER_SIZE <= |raw| && IsPdu(m, raw, MessageDirection(m, look, raw))
    ensures Frames(m, raw + rest, look) == [raw] + Frames(m, rest, look)
  {
    hide Header, Plain, Total, HostHeader;
    HeaderOfPrefix(m, raw, rest, MessageDirection(m, look, raw));
    assert (raw + rest)[..|raw|] == raw && (raw + rest)[|raw|..] == rest;
  }

  /** Whole messages at the front of a stream are cut off exactly. */
  lemma {:induction false} FramesOfConcat(m: Mode, look: seq<byte> -> u32, raws: seq<seq<byte>>, rest: seq<byte>)
    requires Framed(m, look, raws)
    ensures Frames(m, Concat(raws) + rest, look) == raws + Frames(m, rest, look)
    decreases |raws|
  {
    hide Frames, IsPdu, MessageDirection;
    if raws == [] {
      assert Concat(raws) + rest == rest;
    } else {
      assert Concat(raws) + rest == raws[0] + (Concat(raws[1..]) + rest);
      FramesStep(m, look, raws[0], Concat(raws[1..]) + rest);
      FramesOfConcat(m, look, raws[1..], rest);
    }
  }

  /** Cutting more of a stream yields more messages, never others. */
  lemma {:induction false} FramesGrow(m: Mode, a: seq<byte>, b: seq<byte>, look: seq<byte> -> u32)
    requires a <= b
    ensures Frames(m, a, look) <= Frames(m, b, look)
    decreases |a|
  {
    hide Header, HostHeader;
    if |a| >= HEADER_SIZE {
      assert b == a + b[|a|..];
      HeaderOfPrefix(m, a, b[|a|..], MessageDirection(m, look, a));
      var h := Header(m, a, MessageDirection(m, look, a));
      if Plain(m, h) && Total(m, h) <= |a| {
        var n := Total(m, h);
        assert a[..n] == b[..n] && a[n..] <= b[n..];
        FramesGrow(m, a[n..], b[n..], look);
      }
    }
  }

  /** A stream of requests is cut by its own headers. */
  lemma {:induction false} RequestsNeedNoLook(m: Mode, input: seq<byte>, l: seq<byte> -> u32, k: seq<byte> -> u32)
    requires m.isReq
    ensures Frames(m, input, l) == Frames(m, input, k)
    decreases |input|
  {
    hide Header, HostHeader;
    if |input| >= HEADER_SIZE {
      var h := Header(m, input, MessageDirection(m, l, input));
      if Plain(m, h) && Total(m, h) <= |input| {
        RequestsNeedNoLook(m, input[Total(m, h)..], l, k);
      }
    }
  }

  // ---------------------------------------------------------------------------
  // What leaves
  // ---------------------------------------------------------------------------

  /** The descriptors of a message swapped, if it has any. */
  function SwapIso(m: Mode, b: seq<byte>): (r: seq<byte>)
    requires HEADER_SIZE <= |b| && Plain(m, b) && |b| == Total(m, b)
    ensures |r| == |b|
  {
    if IsoLen(m, b) > 0 then SwapDescs(b, XferLen(m, b)) else b
  }

  /** A message with its header in host order and its direction restored. */
  function Restored(m: Mode, raw: seq<byte>, d: u32): (b: seq<byte>)
    requires HEADER_SIZE <= |raw|
    ensures |b| == |raw|
  {
    Header(m, raw, d) + raw[HEADER_SIZE..]
  }

  /** Lengths are read from the header alone. */
  lemma {:induction false} LengthsOfHeader(m: Mode, b: seq<byte>, c: seq<byte>)
    requires HEADER_SIZE <= |b| && HEADER_SIZE <= |c| && b[..HEADER_SIZE] == c[..HEADER_SIZE]
    ensures IsUnlink(m, b) == IsUnlink(m, c) && XferLen(m, b) == XferLen(m, c) && IsoLen(m, b) == IsoLen(m, c)
    ensures Packets(b) == Packets(c)
  {
    WordOfSlice(b, 0, HEADER_SIZE, COMMAND);
    WordOfSlice(c, 0, HEADER_SIZE, COMMAND);
    WordOfSlice(b, 0, HEADER_SIZE, DIRECTION);
    WordOfSlice(c, 0, HEADER_SIZE, DIRECTION);
    WordOfSlice(b, 0, HEADER_SIZE, XFER_LEN);
    WordOfSlice(c, 0, HEADER_SIZE, XFER_LEN);
    WordOfSlice(b, 0, HEADER_SIZE, N_PACKETS);
    WordOfSlice(c, 0, HEADER_SIZE, N_PACKETS);
  }

  lemma {:induction false} RestoredIsWhole(m: Mode, raw: seq<byte>, d: u32)
    requires IsPdu(m, raw, d)
    ensures var b := Restored(m, raw, d); Plain(m, b) && |b| == Total(m, b)
  {
    var b := Restored(m, raw, d);
    assert b[..HEADER_SIZE] == Header(m, raw, d) == Header(m, raw, d)[..HEADER_SIZE];
    LengthsOfHeader(m, b, Header(m, raw, d));
  }

  lemma {:induction false} SwapIsoKeeps(m: Mode, b: seq<byte>)
    requires HEADER_SIZE <= |b| && Plain(m, b) && |b| == Total(m, b)
    ensures SwapIso(m, b)[..HEADER_SIZE] == b[..HEADER_SIZE]
    ensures Plain(m, SwapIso(m, b)) && |b| == Total(m, SwapIso(m, b))
    ensures SwapIso(m, SwapIso(m, b)) == b
  {
    if IsoLen(m, b) > 0 {
      DescsKeepPackets(b, XferLen(m, b));
    }
    LengthsOfHeader(m, b, SwapIso(m, b));
  }

  /** The message in host order. */
  function InHostOrder(m: Mode, raw: seq<byte>, d: u32): (b: seq<byte>)
    requires IsPdu(m, raw, d)
    ensures HEADER_SIZE <= |b| && Plain(m, b) && |b| == Total(m, b)
  {
    RestoredIsWhole(m, raw, d);
    var b := Restored(m, raw, d);
    if m.swapReq then SwapIsoKeeps(m, b); SwapIso(m, b) else b
  }

  /** The message as it is written to the peer. */
  function Output(m: Mode, raw: seq<byte>, d: u32): (r: seq<byte>)
    requires IsPdu(m, raw, d)
    ensures |r| == |raw|
  {
    var b := InHostOrder(m, raw, d);
    if m.swapWrite then SwapHeader(SwapIso(m, b), false) else b
  }

  /** Restoring a direction again changes nothing. */
  lemma {:induction false} DirectionStays(m: Mode, h: seq<byte>, d: u32)
    requires HEADER_SIZE <= |h|
    ensures TakesDirection(m, PutWord(h, DIRECTION, d)) == TakesDirection(m, h)
    ensures PutWord(PutWord(h, DIRECTION, d), DIRECTION, d) == PutWord(h, DIRECTION, d)
  {
    WordOfPutWord(h, DIRECTION, d);
  }

  lemma {:induction false} HeaderRestored(m: Mode, raw: seq<byte>, d: u32)
    requires HEADER_SIZE <= |raw|
    ensures var h := Header(m, raw, d); TakesDirection(m, h) ==> PutWord(h, DIRECTION, d) == h
  {
    DirectionStays(m, HostHeader(m, raw), d);
  }

  /** What was put in network order arrives with the header it had. */
  lemma {:induction false} ArrivesAs(back: Mode, c: seq<byte>, d: u32)
    requires back.swapReq && HEADER_SIZE <= |c|
    requires var h := c[..HEADER_SIZE]; TakesDirection(back, h) ==> PutWord(h, DIRECTION, d) == h
    ensures Header(back, SwapHeader(c, false), d) == c[..HEADER_SIZE]
    ensures Restored(back, SwapHeader(c, false), d) == c
  {
    hide SwapHeader;
    var h := c[..HEADER_SIZE];
    SwapHeaderLocal(c, false);
    HeaderRoundTrip(h, false);
    assert SwapHeader(c, false)[..HEADER_SIZE] == SwapHeader(h, false);
    assert SwapHeader(c, false)[HEADER_SIZE..] == c[HEADER_SIZE..];
    assert HostHeader(back, SwapHeader(c, false)) == h;
    assert h + c[HEADER_SIZE..] == c;
  }

  /** A receiver that decodes the network-order form of a host-order message, with the same
      direction, gets the message back with its direction restored. */
  lemma {:induction false} NetworkRoundTrip(out: Mode, back: Mode, raw: seq<byte>, d: u32)
    requires out == Mode(out.isReq, false, true) && back == Mode(out.isReq, true, false)
    requires IsPdu(out, raw, d)
    ensures IsPdu(back, Output(out, raw, d), d)
    ensures Output(back, Output(out, raw, d), d) == Restored(out, raw, d)
  {
    var b := Restored(out, raw, d);
    RestoredIsWhole(out, raw, d);
    SwapIsoKeeps(out, b);
    var c := SwapIso(out, b);
    HeaderRestored(out, raw, d);
    assert b[..HEADER_SIZE] == Header(out, raw, d);
    SameLengths(out, back, c);
    hide SwapHeader, PutWord, SwapDescs, Header, SwapIso, Restored;
    ArrivesAs(back, c, d);
    LengthsOfHeader(back, c[..HEADER_SIZE], c);
  }

  /** Lengths do not depend on the byte orders of the stream. */
  lemma {:induction false} SameLengths(m: Mode, n: Mode, b: seq<byte>)
    requires HEADER_SIZE <= |b| && m.isReq == n.isReq
    ensures XferLen(m, b) == XferLen(n, b) && IsoLen(m, b) == IsoLen(n, b)
    ensures Plain(m, b) == Plain(n, b) && TakesDirection(m, b) == TakesDirection(n, b)
    ensures Plain(m, b) && |b| == Total(m, b) ==> SwapIso(m, b) == SwapIso(n, b)
  {
  }
}
