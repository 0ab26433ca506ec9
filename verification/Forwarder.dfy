/** The forwarder's buffers. A reader fills the last buffer of a chain, header first and then
    as much as the header announces; a writer empties the first one; a third thread frees
    written buffers and appends fresh ones. Each method below is one step of one thread. */
module Forwarder {
  import opened Bytes
  import opened PduCodec
  import opened HdrsCache
  import opened Framing

  const FIRST_SIZE := 1024

  // ---------------------------------------------------------------------------
  // Headers and bodies in a buffer
  // ---------------------------------------------------------------------------

  /** The direction a header ends up with. */
  function Direction(m: Mode, s: Slots, h: seq<byte>): u32
    requires HEADER_SIZE <= |h|
  {
    if TakesDirection(m, h) then Lookup(s, Word(h, SEQNUM), Word(h, DIRECTION)) else Word(h, DIRECTION)
  }

  /** The cache after a look at a header: requests other than unlinks are entered. */
  function CacheAfter(m: Mode, s: Slots, h: seq<byte>): Slots
    requires HEADER_SIZE <= |h|
  {
    if m.isReq && !IsUnlink(m, h) then Inserted(s, Word(h, SEQNUM), Word(h, DIRECTION)) else s
  }

  /** A reply to one of the last 1024 requests gets the direction of its request, at every look
      and however many requests are entered between two looks, as long as it stays one of the
      last 1024. */
  lemma {:induction false} RecentReplyDirection(m: Mode, s: Slots, first: u32, reqs: seq<Request>, k: nat, h: seq<byte>)
    requires HEADER_SIZE <= |h| && TakesDirection(m, h) && Word(h, SEQNUM) == Number(first, k)
    requires k < |reqs| <= k + SIZE && !reqs[k].unlink
    ensures Direction(m, InsertedAll(s, first, reqs), h) == reqs[k].direction
  {
    RecentFound(s, first, reqs, k, Word(h, DIRECTION));
  }

  /** Entering one request at every look at its header is entering it once. */
  lemma {:induction false} RequestEntersOnce(m: Mode, s: Slots, first: u32, reqs: seq<Request>, h: seq<byte>)
    requires HEADER_SIZE <= |h| && m.isReq && Word(h, SEQNUM) == Number(first, |reqs|)
    ensures var r := Request(IsUnlink(m, h), Word(h, DIRECTION));
      && CacheAfter(m, InsertedAll(s, first, reqs), h) == InsertedAll(s, first, reqs + [r])
      && CacheAfter(m, InsertedAll(s, first, reqs + [r]), h) == InsertedAll(s, first, reqs + [r])
  {
    var r := Request(IsUnlink(m, h), Word(h, DIRECTION));
    assert (reqs + [r])[..|reqs|] == reqs;
  }

  function WithDirection(m: Mode, h: seq<byte>, d: u32): (r: seq<byte>)
    requires HEADER_SIZE <= |h|
    ensures |r| == |h|
  {
    if TakesDirection(m, h) then PutWord(h, DIRECTION, d) else h
  }

  /** The length of the data behind a header; the direction of a reply is restored. */
  method GetXferLen(m: Mode, hdr: array<byte>, cache: Cache) returns (len: int)
    requires cache.Valid() && HEADER_SIZE <= hdr.Length
    modifies hdr, cache.slots
    ensures hdr[..] == WithDirection(m, old(hdr[..]), Direction(m, old(cache.Contents()), old(hdr[..])))
    ensures cache.Contents() == CacheAfter(m, old(cache.Contents()), old(hdr[..]))
    ensures len == XferLen(m, hdr[..])
  {
    var command := WordAt(hdr, COMMAND);
    if m.isReq {
      if command == CMD_UNLINK {
        return 0;
      }
      cache.Insert(hdr);
      var direction := WordAt(hdr, DIRECTION);
      if direction != 0 {
        return 0;
      }
      var v := WordAt(hdr, XFER_LEN);
      len := Signed(v);
    } else {
      if command == RET_UNLINK {
        return 0;
      }
      ghost var was := hdr[..];
      var direction := cache.Direction(hdr);
      WordOfPutWord(was, DIRECTION, direction);
      if direction == DIR_OUT {
        return 0;
      }
      var v := WordAt(hdr, XFER_LEN);
      len := Signed(v);
    }
  }

  method GetIsoLen(m: Mode, hdr: array<byte>) returns (len: int)
    requires HEADER_SIZE <= hdr.Length
    ensures len == IsoLen(m, hdr[..])
  {
    var command := WordAt(hdr, COMMAND);
    var n := WordAt(hdr, N_PACKETS);
    if m.isReq {
      if command == CMD_UNLINK {
        return 0;
      }
      len := Int32(Signed(n) * DESC_SIZE);
    } else {
      if command == RET_UNLINK {
        return 0;
      }
      len := Int32(Signed(n) * DESC_SIZE);
    }
  }

  /** A whole message put in the byte orders of the stream. */
  function Sent(m: Mode, b: seq<byte>): (r: seq<byte>)
    requires HEADER_SIZE <= |b| && Plain(m, b) && |b| == Total(m, b)
    ensures |r| == |b|
  {
    SwapIsoKeeps(m, b);
    var c := if m.swapReq then SwapIso(m, b) else b;
    SwapIsoKeeps(m, c);
    if m.swapWrite then SwapHeader(SwapIso(m, c), false) else c
  }

  lemma {:induction false} SentIsOutput(m: Mode, raw: seq<byte>, d: u32)
    requires IsPdu(m, raw, d)
    ensures var b := Restored(m, raw, d); Plain(m, b) && |b| == Total(m, b) && Sent(m, b) == Output(m, raw, d)
  {
    RestoredIsWhole(m, raw, d);
  }

  /** Swaps the descriptors of the message in the first n bytes, if it has any. */
  method SwapIsoIn(m: Mode, a: array<byte>, n: nat, xferLen: int, isoLen: int)
    requires HEADER_SIZE <= n <= a.Length
    requires var b := a[..n]; Plain(m, b) && n == Total(m, b) && xferLen == XferLen(m, b) && isoLen == IsoLen(m, b)
    modifies a
    ensures a[..n] == SwapIso(m, old(a[..n]))
  {
    hide SwapWords;
    if isoLen > 0 {
      ghost var was := a[..];
      WordOfSlice(was, 0, n, N_PACKETS);
      var v := WordAt(a, N_PACKETS);
      SwapIsoDescsEndian(a, HEADER_SIZE + xferLen, Signed(v));
      SwapWordsPrefix(was, HEADER_SIZE + xferLen, 4 * Count(Signed(v)), n);
    }
  }

  /** Puts the whole message in the first n bytes in the byte orders of the stream. */
  method Finish(m: Mode, a: array<byte>, n: nat, xferLen: int, isoLen: int)
    requires HEADER_SIZE <= n <= a.Length
    requires var b := a[..n]; Plain(m, b) && n == Total(m, b) && xferLen == XferLen(m, b) && isoLen == IsoLen(m, b)
    modifies a
    ensures a[..n] == Sent(m, old(a[..n]))
  {
    ghost var b := a[..n];
    SwapIsoKeeps(m, b);
    LengthsOfHeader(m, b, SwapIso(m, b));
    if m.swapReq {
      SwapIsoIn(m, a, n, xferLen, isoLen);
    }
    ghost var c := a[..n];
    SwapIsoKeeps(m, c);
    if m.swapWrite {
      SwapIsoIn(m, a, n, xferLen, isoLen);
      ghost var was := a[..];
      SwapUsbipHeaderEndian(a, false);
      SwapHeaderLocal(was, false);
      SwapHeaderLocal(was[..n], false);
      assert was[..n][..HEADER_SIZE] == was[..HEADER_SIZE];
    }
  }

  // ---------------------------------------------------------------------------
  // Buffers
  // ---------------------------------------------------------------------------

  /** Whether a request asks the device for data: bit 7 of the first setup byte. */
  predicate AsksForData(b: seq<byte>)
    requires HEADER_SIZE <= |b|
  {
    Word(b, COMMAND) == CMD_SUBMIT && b[40] >= 0x80
  }

  class Buffer {
    var buff: array<byte>
    var offp: nat
    var offc: nat
    var stepReading: int
    var requireResponse: bool
    var next: Buffer?
    /** The bytes as they arrived, and the direction of the message. */
    ghost var raw: seq<byte>
    ghost var dir: u32

    constructor ()
      ensures fresh(buff) && buff.Length == FIRST_SIZE && next == null
      ensures stepReading == 0 && offp == 0 && offc == 0 && raw == []
    {
      buff := new byte[FIRST_SIZE](_ => 0);
      offp, offc, stepReading, requireResponse, next := 0, 0, 0, false, null;
      raw, dir := [], 0;
    }

    ghost predicate Holds(m: Mode)
      reads this, buff
    {
      && offc <= offp <= buff.Length && |raw| == offp
      && 0 <= stepReading <= 3
      && (stepReading == 0 ==> offp == 0)
      && (stepReading <= 1 ==> offp <= HEADER_SIZE && buff[..offp] == raw)
      && (stepReading == 2 ==> HEADER_SIZE <= offp && Plain(m, Header(m, raw, dir))
                               && offp <= Total(m, Header(m, raw, dir))
                               && Word(Header(m, raw, dir), DIRECTION) == dir
                               && buff[..offp] == Restored(m, raw, dir))
      && (stepReading < 3 ==> offc == 0)
      && (stepReading == 3 ==> IsPdu(m, raw, dir) && buff[..offp] == Output(m, raw, dir)
                               && (requireResponse <==> AsksForData(buff[..offp])))
    }

    lemma {:induction false} Empty(m: Mode)
      requires stepReading == 0 && offp == 0 && offc == 0 && raw == []
      ensures Holds(m)
    {
    }

    /** How many bytes the current step is waiting for. */
    ghost function Goal(m: Mode): nat
      requires Holds(m) && stepReading < 3
      reads this, buff
    {
      if stepReading <= 1 then HEADER_SIZE else Total(m, Header(m, raw, dir))
    }

    /** The header in host order, as long as it is in the buffer unfinished. */
    ghost function Pending(m: Mode): (h: seq<byte>)
      requires Holds(m) && stepReading < 3 && HEADER_SIZE <= offp
      reads this, buff
      ensures |h| == HEADER_SIZE
    {
      if stepReading <= 1 then HostHeader(m, raw) else Header(m, raw, dir)
    }

    /** Moves the bytes to an array of newMax bytes. */
    method Grow(m: Mode, newMax: nat)
      requires Holds(m) && stepReading < 3 && buff.Length <= newMax
      modifies this`buff
      ensures fresh(buff) && buff.Length == newMax
      ensures Holds(m) && Goal(m) == old(Goal(m))
    {
      hide Restored, Header, Plain, Total, Output, IsPdu;
      var bufnew := new byte[newMax];
      forall i | 0 <= i < buff.Length {
        bufnew[i] := buff[i];
      }
      assert bufnew[..offp] == buff[..offp];
      buff := bufnew;
    }

    /** Bytes arrive behind the ones already there. */
    method Receive(m: Mode, into: array<byte>, at: nat, bytes: seq<byte>)
      requires Holds(m) && 1 <= stepReading <= 2 && into == buff && at == offp
      requires offp + |bytes| <= Goal(m) && offp + |bytes| <= buff.Length
      modifies this`offp, this`raw, buff
      ensures Holds(m) && offp == old(offp) + |bytes| && raw == old(raw) + bytes
      ensures Goal(m) == old(Goal(m))
    {
      hide Header, Restored, Plain, Total, Output, IsPdu;
      forall i | 0 <= i < |bytes| {
        into[at + i] := bytes[i];
      }
      assert buff[..offp + |bytes|] == old(buff[..offp]) + bytes;
      if stepReading == 2 {
        MoreOfBody(m, raw, bytes, dir);
      }
      offp := offp + |bytes|;
      raw := raw + bytes;
    }

    /** The header is complete: put it in host order. */
    method TurnHeader(m: Mode)
      requires Holds(m) && stepReading <= 1 && HEADER_SIZE <= offp
      modifies this`stepReading, buff
      ensures stepReading == 2 && buff[..offp] == HostHeader(m, raw) && offp == HEADER_SIZE
    {
      hide SwapHeader, Header, Restored, Plain, Total, Output, IsPdu;
      if m.swapReq {
        ghost var was := buff[..];
        SwapUsbipHeaderEndian(buff, true);
        SwapHeaderLocal(was, true);
        assert was[..HEADER_SIZE] == raw[..HEADER_SIZE];
      } else {
        assert raw[..HEADER_SIZE] == raw;
      }
      stepReading := 2;
    }

    /** The lengths the header h announces; the direction of a reply is restored. */
    method Lengths(m: Mode, cache: Cache, ghost h: seq<byte>) returns (xferLen: int, isoLen: int)
      requires cache.Valid() && HEADER_SIZE <= offp <= buff.Length && |raw| == offp
      requires |h| == HEADER_SIZE && buff[..offp] == h + raw[HEADER_SIZE..]
      requires h == HostHeader(m, raw) || (h == Header(m, raw, dir) && Direction(m, cache.Contents(), h) == dir)
      modifies this`dir, buff, cache.slots
      ensures dir == Direction(m, old(cache.Contents()), h) == Word(Header(m, raw, dir), DIRECTION)
      ensures buff[..offp] == Restored(m, raw, dir)
      ensures xferLen == XferLen(m, Header(m, raw, dir)) && isoLen == IsoLen(m, Header(m, raw, dir))
      ensures cache.Contents() == CacheAfter(m, old(cache.Contents()), h)
    {
      hide Header, HostHeader, WithDirection, CacheAfter, XferLen, IsoLen, Lookup;
      ghost var was, slots := buff[..], cache.Contents();
      HeaderOfBody(was, offp, h, raw);
      HeaderIsLocal(m, slots, was);
      xferLen := GetXferLen(m, buff, cache);
      isoLen := GetIsoLen(m, buff);
      dir := Direction(m, slots, h);
      DirectionIsRestored(m, raw, h, dir);
      assert buff[..HEADER_SIZE] == Header(m, raw, dir);
      LengthsOfHeader(m, buff[..], Header(m, raw, dir));
      BodyStays(was, buff[..], offp, h, raw);
    }

    /** The message is whole: put it in the byte orders of the stream. */
    method Seal(m: Mode, xferLen: int, isoLen: int)
      requires HEADER_SIZE <= offp <= buff.Length && stepReading == 2 && offc == 0
      requires IsPdu(m, raw, dir) && |raw| == offp && buff[..offp] == Restored(m, raw, dir)
      requires xferLen == XferLen(m, Header(m, raw, dir)) && isoLen == IsoLen(m, Header(m, raw, dir))
      modifies this`stepReading, this`requireResponse, buff
      ensures Holds(m) && stepReading == 3
    {
      hide Header, HostHeader, XferLen, IsoLen, SwapIso, Output, Sent, Word;
      SentIsOutput(m, raw, dir);
      assert Restored(m, raw, dir)[..HEADER_SIZE] == Header(m, raw, dir)[..HEADER_SIZE];
      LengthsOfHeader(m, Restored(m, raw, dir), Header(m, raw, dir));
      Finish(m, buff, offp, xferLen, isoLen);
      WordOfSlice(buff[..], 0, offp, COMMAND);
      var command := WordAt(buff, COMMAND);
      requireResponse := command == CMD_SUBMIT && buff[40] >= 0x80;
      stepReading := 3;
    }
  }

  /** More bytes add to the body. */
  lemma {:induction false} MoreOfBody(m: Mode, raw: seq<byte>, bytes: seq<byte>, d: u32)
    requires HEADER_SIZE <= |raw|
    ensures Header(m, raw + bytes, d) == Header(m, raw, d)
    ensures Restored(m, raw + bytes, d) == Restored(m, raw, d) + bytes
  {
    HeaderOfPrefix(m, raw, bytes, d);
    assert (raw + bytes)[HEADER_SIZE..] == raw[HEADER_SIZE..] + bytes;
  }

  lemma {:induction false} HeaderOfBody(was: seq<byte>, n: nat, h: seq<byte>, raw: seq<byte>)
    requires n <= |was| && |h| == HEADER_SIZE <= |raw| && was[..n] == h + raw[HEADER_SIZE..]
    ensures HEADER_SIZE <= n && was[..HEADER_SIZE] == h
  {
    assert was[..HEADER_SIZE] == was[..n][..HEADER_SIZE];
  }

  /** A new header in front of the same body. */
  lemma {:induction false} BodyStays(was: seq<byte>, now: seq<byte>, n: nat, h: seq<byte>, raw: seq<byte>)
    requires n <= |was| == |now| && |h| == HEADER_SIZE <= |raw| && was[..n] == h + raw[HEADER_SIZE..]
    requires now[HEADER_SIZE..] == was[HEADER_SIZE..]
    ensures now[..n] == now[..HEADER_SIZE] + raw[HEADER_SIZE..]
  {
    assert forall i :: HEADER_SIZE <= i < n ==> now[i] == now[HEADER_SIZE..][i - HEADER_SIZE] == was[i] == was[..n][i];
  }

  /** Only the header decides about directions. */
  lemma {:induction false} HeaderIsLocal(m: Mode, s: Slots, b: seq<byte>)
    requires HEADER_SIZE <= |b|
    ensures var h := b[..HEADER_SIZE];
      && Direction(m, s, b) == Direction(m, s, h) && CacheAfter(m, s, b) == CacheAfter(m, s, h)
      && forall d: u32 :: WithDirection(m, b, d)[..HEADER_SIZE] == WithDirection(m, h, d)
                          && WithDirection(m, b, d)[HEADER_SIZE..] == b[HEADER_SIZE..]
  {
    LengthsOfHeader(m, b, b[..HEADER_SIZE]);
    WordOfSlice(b, 0, HEADER_SIZE, SEQNUM);
    WordOfSlice(b, 0, HEADER_SIZE, DIRECTION);
  }

  lemma {:induction false} DirectionIsRestored(m: Mode, raw: seq<byte>, h: seq<byte>, d: u32)
    requires HEADER_SIZE <= |raw| && |h| == HEADER_SIZE
    requires h == HostHeader(m, raw) || h == Header(m, raw, d)
    requires !TakesDirection(m, h) ==> d == Word(h, DIRECTION)
    ensures WithDirection(m, h, d) == Header(m, raw, d) && Word(Header(m, raw, d), DIRECTION) == d
  {
    DirectionStays(m, HostHeader(m, raw), d);
    HeaderRestored(m, raw, d);
    WordOfPutWord(HostHeader(m, raw), DIRECTION, d);
  }

  // ---------------------------------------------------------------------------
  // The chain of buffers of one direction
  // ---------------------------------------------------------------------------

  /** A whole message as it leaves. */
  function Outgoing(m: Mode, look: seq<byte> -> u32, raw: seq<byte>): seq<byte>
    requires HEADER_SIZE <= |raw| && IsPdu(m, raw, MessageDirection(m, look, raw))
  {
    Output(m, raw, MessageDirection(m, look, raw))
  }

  /** The messages completed, as they arrived and as they leave. */
  predicate Converted(m: Mode, look: seq<byte> -> u32, raws: seq<seq<byte>>, pdus: seq<seq<byte>>) {
    && Framed(m, look, raws) && |pdus| == |raws|
    && forall k :: 0 <= k < |raws| ==> pdus[k] == Outgoing(m, look, raws[k])
  }

  lemma {:induction false} OneMore(m: Mode, look: seq<byte> -> u32, raws: seq<seq<byte>>, pdus: seq<seq<byte>>,
                                   raw: seq<byte>)
    requires Converted(m, look, raws, pdus) && HEADER_SIZE <= |raw| && IsPdu(m, raw, MessageDirection(m, look, raw))
    ensures Converted(m, look, raws + [raw], pdus + [Outgoing(m, look, raw)])
    ensures Concat(raws + [raw]) == Concat(raws) + raw
  {
    hide IsPdu, Outgoing, MessageDirection;
    ConcatAppend(raws, raw);
  }

  lemma {:induction false} NoMoreBytes(b: seq<byte>)
    ensures b + [] == b
  {
  }

  /** Bytes that are not a whole message yet hold none. */
  lemma {:induction false} NoFramesYet(m: Mode, look: seq<byte> -> u32, raw: seq<byte>)
    requires HEADER_SIZE <= |raw| ==>
               var h := Header(m, raw, MessageDirection(m, look, raw)); Plain(m, h) ==> |raw| < Total(m, h)
    ensures Frames(m, raw, look) == []
  {
  }

  function HeadersOf(m: Mode, raws: seq<seq<byte>>): (hs: seq<seq<byte>>)
    ensures |hs| == |raws|
  {
    seq(|raws|, k requires 0 <= k < |raws| => if HEADER_SIZE <= |raws[k]| then HostHeader(m, raws[k]) else [])
  }

  lemma {:induction false} OneMoreHeader(m: Mode, raws: seq<seq<byte>>, raw: seq<byte>)
    ensures HeadersOf(m, raws + [raw]) == HeadersOf(m, raws) + HeadersOf(m, [raw])
    ensures HEADER_SIZE <= |raw| ==> HeadersOf(m, [raw]) == [HostHeader(m, raw)]
  {
    hide HostHeader;
  }

  /** The error codes a completed read or write can report. */
  datatype Errcode = NoError | NotConnected | OtherError

  /** A device's buffers and their state. The reads fill them; the writes are the peer's, whose
      only part in it is the flag that one is in progress. */
  class Devbuf {
    const mode: Mode
    /** The direction of the request that a reply with a given header answers. */
    ghost const look: seq<byte> -> u32
    var bufp: Buffer
    var bufc: Buffer
    var inReading: bool
    var inWriting: bool
    var invalid: bool
    var writeInvalid: bool
    /** Where an outstanding read stores its bytes, and the stretch an outstanding write takes. */
    var readInto: array<byte>
    var readAt: nat
    var readLen: nat
    var writeFrom: array<byte>
    var writeAt: nat
    var writeLen: nat
    /** The buffers from bufc to bufp, and what came in and went out so far: all bytes read, the
        messages completed, as they arrived and as they leave, the number of buffers freed, and
        all bytes written. */
    ghost var chain: seq<Buffer>
    ghost var input: seq<byte>
    ghost var raws: seq<seq<byte>>
    ghost var pdus: seq<seq<byte>>
    ghost var freed: nat
    ghost var written: seq<byte>

    /** The direction a message gets, once its header is complete. */
    ghost function Dir(raw: seq<byte>): u32 {
      if |raw| < HEADER_SIZE then 0 else MessageDirection(mode, look, raw)
    }

    /** A header that was looked at has its message's direction. */
    ghost predicate LookedUp()
      reads this`bufp, bufp`stepReading, bufp`raw, bufp`dir
    {
      2 <= bufp.stepReading ==> bufp.dir == Dir(bufp.raw)
    }

    /** The headers looked at so far, in host order. */
    ghost function Looked(): seq<seq<byte>>
      reads this`raws, this`bufp, bufp`stepReading, bufp`raw
    {
      if bufp.stepReading == 2 then HeadersOf(mode, raws) + HeadersOf(mode, [bufp.raw]) else HeadersOf(mode, raws)
    }

    /** The chain leads from bufc to bufp; all buffers but the last are complete and only the
        first is being written. */
    ghost predicate Linked()
      reads this`chain, this`bufp, this`bufc, chain`next, chain`stepReading, chain`offc, chain`buff, bufp`next
    {
      && 0 < |chain| && chain[0] == bufc && chain[|chain| - 1] == bufp && bufp.next == null
      && (forall i, j :: 0 <= i < j < |chain| ==> chain[i] != chain[j] && chain[i].buff != chain[j].buff)
      && (forall i :: 0 <= i < |chain| - 1 ==> chain[i].next == chain[i + 1] && chain[i].stepReading == 3)
      && (forall i :: 0 < i < |chain| ==> chain[i].offc == 0)
    }

    ghost predicate Filled()
      reads this`chain, chain, set b | b in chain :: b.buff
    {
      forall i :: 0 <= i < |chain| ==> chain[i].Holds(mode)
    }

    /** The buffers, without the last one unless it is done, hold the messages completed but
        not freed, in order. */
    ghost predicate Kept(done: bool)
      reads this`chain, this`freed, this`raws, chain`raw, chain`dir
    {
      && freed + |chain| == |raws| + (if done then 0 else 1)
      && forall i :: 0 <= i < |raws| - freed && i < |chain| ==>
           chain[i].raw == raws[freed + i] && chain[i].dir == Dir(raws[freed + i])
    }

    /** The bytes that arrived are the completed messages and the unfinished one; the completed
        ones leave as Output says. */
    ghost predicate Accounted(done: bool)
      reads this`raws, this`pdus, this`input, this`bufp, bufp`raw
    {
      && Converted(mode, look, raws, pdus)
      && input == if done then Concat(raws) else Concat(raws) + bufp.raw
    }

    /** What was written is the freed messages and the written part of the first buffer. */
    ghost predicate Delivered()
      reads this`freed, this`pdus, this`written, this`bufc, bufc`offc, bufc`buff, bufc.buff
    {
      && freed <= |pdus| && bufc.offc <= bufc.buff.Length
      && written == Concat(pdus[..freed]) + bufc.buff[..bufc.offc]
    }

    /** An outstanding read goes behind the bytes of the last buffer and asks for exactly what
        the step waits for. */
    ghost predicate Reading()
      requires bufp.Holds(mode)
      reads this`inReading, this`readInto, this`readAt, this`readLen, this`bufp, bufp, bufp.buff
    {
      inReading ==>
        && 1 <= bufp.stepReading <= 2 && readInto == bufp.buff && readAt == bufp.offp && 0 < readLen
        && readAt + readLen == bufp.Goal(mode) && readAt + readLen <= bufp.buff.Length
    }

    /** An outstanding write takes the rest of a complete buffer. */
    ghost predicate Writing()
      reads this`inWriting, this`writeFrom, this`writeAt, this`writeLen, this`bufc, bufc
    {
      inWriting ==>
        && bufc.stepReading == 3 && writeFrom == bufc.buff && writeAt == bufc.offc && 0 < writeLen
        && writeAt + writeLen == bufc.offp
    }

    /** Everything but the part that is still arriving. */
    ghost predicate Ordered(done: bool)
      reads this`chain, this`bufp, this`bufc, chain, set b | b in chain :: b.buff
      reads this`freed, this`raws, this`pdus, this`written, bufc`offc, bufc`buff, bufc.buff
      reads this`inWriting, this`writeFrom, this`writeAt, this`writeLen, bufc, bufp`next
      ensures Ordered(done) ==> bufp.Holds(mode)
    {
      Linked() && Filled() && Kept(done) && Delivered() && Writing()
    }

    ghost predicate Valid()
      reads this, chain, set b | b in chain :: b.buff, bufp, bufc, bufc.buff
    {
      var done := bufp.stepReading == 3;
      Ordered(done) && Accounted(done) && Reading() && LookedUp()
    }

    constructor (m: Mode, ghost l: seq<byte> -> u32)
      ensures Valid() && mode == m && look == l && input == [] && written == [] && pdus == [] && Looked() == []
      ensures chain == [bufp] && fresh(bufp) && fresh(bufp.buff)
    {
      mode, look := m, l;
      var b := new Buffer();
      bufp, bufc := b, b;
      inReading, inWriting, invalid, writeInvalid := false, false, false, false;
      readInto, readAt, readLen := b.buff, 0, 0;
      writeFrom, writeAt, writeLen := b.buff, 0, 0;
      chain := [b];
      input, raws, pdus, freed, written := [], [], [], 0, [];
    }

    // -- reading ----------------------------------------------------------------

    /** Makes room for the next nreq bytes and asks for them, unless a read is outstanding. */
    method ReadDevbuf(nreq: nat, readOk: bool) returns (ok: bool)
      requires bufp.Holds(mode) && 0 < nreq && 1 <= bufp.stepReading <= 2 && bufp.offp + nreq == bufp.Goal(mode)
      requires Reading()
      modifies this`inReading, this`readInto, this`readAt, this`readLen, bufp`buff
      ensures bufp.Holds(mode) && Reading() && bufp.Goal(mode) == old(bufp.Goal(mode))
      ensures bufp.buff == old(bufp.buff) || fresh(bufp.buff)
      ensures ok <==> inReading
      ensures old(inReading) ==> ok && bufp.buff == old(bufp.buff) && readLen == old(readLen)
      ensures !ok ==> !readOk
    {
      hide Restored, Header, Plain, Total, Output, IsPdu;
      if bufp.buff.Length - bufp.offp < nreq {
        bufp.Grow(mode, nreq + bufp.offp);
      }
      if !inReading {
        if !readOk {
          return false;
        }
        readInto, readAt, readLen := bufp.buff, bufp.offp, nreq;
        inReading := true;
      }
      return true;
    }

    /** The lengths in the header are not negative when it is complete, and the cache agrees
        with what it said about the message in progress before. */
    ghost predicate Plausible(s: Slots)
      requires bufp.Holds(mode)
      reads this, bufp, bufp.buff
    {
      bufp.stepReading < 3 && HEADER_SIZE <= bufp.offp ==>
        && var h := bufp.Pending(mode);
           var d := Direction(mode, s, h);
           Plain(mode, Header(mode, bufp.raw, d)) && (bufp.stepReading == 2 ==> d == bufp.dir)
    }

    /** One look at the buffer that is being filled. */
    method ReadBuffer(cache: Cache, readOk: bool) returns (r: int)
      requires bufp.Holds(mode) && Reading() && cache.Valid() && Plausible(cache.Contents())
      modifies this`inReading, this`readInto, this`readAt, this`readLen
      modifies bufp`buff, bufp`stepReading, bufp`requireResponse, bufp`dir, bufp.buff, cache.slots
      ensures bufp.Holds(mode) && Reading()
      ensures bufp.buff == old(bufp.buff) || fresh(bufp.buff)
      ensures bufp.stepReading <= 3 && (bufp.stepReading == 3 <==> r == 1)
      ensures r == 0 <==> inReading
      ensures old(inReading) ==> r == 0 && bufp.buff == old(bufp.buff) && readLen == old(readLen)
      ensures -1 <= r <= 1 && (r == -1 ==> !readOk)
      ensures old(bufp.stepReading == 3) ==> unchanged(bufp) && unchanged(bufp.buff)
      ensures old(bufp.stepReading < 3 && HEADER_SIZE <= bufp.offp) ==>
                && bufp.dir == Direction(mode, old(cache.Contents()), old(bufp.Pending(mode)))
                && cache.Contents() == CacheAfter(mode, old(cache.Contents()), old(bufp.Pending(mode)))
      ensures old(bufp.stepReading == 3 || bufp.offp < HEADER_SIZE) ==>
                cache.Contents() == old(cache.Contents()) && bufp.dir == old(bufp.dir)
      ensures old(bufp.stepReading < 3) ==> (bufp.stepReading >= 2 <==> HEADER_SIZE <= bufp.offp)
    {
      hide Header, Output;
      if bufp.offp < HEADER_SIZE {
        bufp.stepReading := 1;
        var ok := ReadDevbuf(HEADER_SIZE - bufp.offp, readOk);
        return if ok then 0 else -1;
      }
      ghost var h := if bufp.stepReading < 3 then bufp.Pending(mode) else [];
      if bufp.stepReading == 1 {
        bufp.TurnHeader(mode);
        assert bufp.buff[..bufp.offp] == h + bufp.raw[HEADER_SIZE..];
      }
      if bufp.stepReading == 2 {
        var xferLen, isoLen := bufp.Lengths(mode, cache, h);
        var lenData := xferLen + isoLen;
        if bufp.offp < lenData + HEADER_SIZE {
          var ok := ReadDevbuf(lenData + HEADER_SIZE - bufp.offp, readOk);
          return if ok then 0 else -1;
        }
        bufp.Seal(mode, xferLen, isoLen);
      }
      return 1;
    }

    twostate lemma LastFilled()
      requires old(Filled()) && unchanged(this`chain) && 0 < |chain| && bufp == chain[|chain| - 1] && bufp.Holds(mode)
      requires forall i :: 0 <= i < |chain| - 1 ==> unchanged(chain[i]) && unchanged(chain[i].buff)
      ensures Filled()
    {
      hide Buffer.Holds;
      forall i | 0 <= i < |chain| - 1
        ensures chain[i].Holds(mode)
      {
        assert old(chain[i].Holds(mode));
      }
    }

    /** Only the last buffer changed, and it is still in order. */
    twostate lemma LastChanged(done: bool)
      requires old(Ordered(done)) && done == old(bufp.stepReading == 3)
      requires unchanged(this`chain, this`bufp, this`bufc, this`freed, this`raws, this`pdus, this`written)
      requires unchanged(this`inWriting, this`writeFrom, this`writeAt, this`writeLen)
      requires bufp.Holds(mode) && bufp.next == null && bufp.offc == old(bufp.offc)
      requires bufp.buff == old(bufp.buff) || fresh(bufp.buff)
      requires old(bufp.stepReading) == 3 || bufp.offc == 0
      requires old(bufp.stepReading) == 3 ==> unchanged(bufp) && unchanged(bufp.buff)
      requires forall i :: 0 <= i < |chain| - 1 ==> unchanged(chain[i]) && unchanged(chain[i].buff)
      ensures Ordered(done)
    {
      hide Filled, Buffer.Holds, Concat;
      LastFilled();
    }

    /** The message in progress took in the bytes that arrived. */
    twostate lemma MoreOfLast(bytes: seq<byte>)
      requires old(Accounted(false)) && raws == old(raws) && pdus == old(pdus)
      requires bufp == old(bufp) && bufp.raw == old(bufp.raw) + bytes && input == old(input) + bytes
      ensures Accounted(false)
    {
      hide Converted, Concat;
      assert input == Concat(raws) + old(bufp.raw) + bytes;
    }

    lemma {:induction false} Apart()
      requires Linked()
      ensures 0 < |chain| && bufp.next == null && bufp == chain[|chain| - 1]
      ensures Filled() ==> bufp.Holds(mode) && bufp.offc <= bufp.offp
      ensures Filled() ==> if bufp.stepReading < 3 then bufp.offc == 0 else IsPdu(mode, bufp.raw, bufp.dir)
      ensures Filled() ==> 0 <= bufp.stepReading <= 3 && |bufp.raw| == bufp.offp
      ensures Filled() && bufp.stepReading == 0 ==> bufp.offp == 0
      ensures Filled() && bufp.stepReading == 2 ==> HEADER_SIZE <= bufp.offp
      ensures forall i :: 0 <= i < |chain| - 1 ==> chain[i] != bufp && chain[i].buff != bufp.buff
    {
    }

    /** Enters the message in the last buffer into the history. */
    ghost method Enter()
      requires Ordered(false) && Accounted(false) && LookedUp() && bufp.stepReading == 3
      modifies this`raws, this`pdus
      ensures Ordered(true) && Accounted(true)
      ensures raws == old(raws) + [bufp.raw]
    {
      hide Restored, Header, Output, IsPdu, Plain, Total, MessageDirection, HostHeader, Outgoing;
      hide Linked, Filled, Writing, Converted, Concat, Buffer.Holds;
      Apart();
      OneMore(mode, look, raws, pdus, bufp.raw);
      ghost var moreRaws := raws + [bufp.raw];
      ghost var morePdus := pdus + [Outgoing(mode, look, bufp.raw)];
      assert morePdus[..freed] == pdus[..freed];
      raws, pdus := moreRaws, morePdus;
    }

    /** The lengths in a complete header are not negative. */
    ghost predicate PlainLengths()
      requires bufp.Holds(mode)
      reads this`bufp, bufp, bufp.buff
    {
      bufp.stepReading < 3 && HEADER_SIZE <= bufp.offp ==> Plain(mode, Header(mode, bufp.raw, Dir(bufp.raw)))
    }

    /** The cache gives a reply the direction of its request. */
    ghost predicate Agrees(s: Slots)
      requires bufp.Holds(mode)
      reads this`bufp, bufp, bufp.buff
    {
      bufp.stepReading < 3 && HEADER_SIZE <= bufp.offp && TakesDirection(mode, bufp.Pending(mode)) ==>
        Direction(mode, s, bufp.Pending(mode)) == Dir(bufp.raw)
    }

    /** The direction found at a look is the message's, at every look. */
    lemma {:induction false} LookFindsDirection(s: Slots)
      requires bufp.Holds(mode) && LookedUp() && Agrees(s) && bufp.stepReading < 3 && HEADER_SIZE <= bufp.offp
      ensures Direction(mode, s, bufp.Pending(mode)) == Dir(bufp.raw)
      ensures PlainLengths() ==> Plausible(s)
    {
      hide Restored, Plain, Total, HostHeader;
      DirectionStays(mode, HostHeader(mode, bufp.raw), bufp.dir);
    }

    /** One step of the reader thread: asks for more, or completes the message in the buffer. */
    method ReadDev(cache: Cache, readOk: bool) returns (r: int)
      requires Valid() && cache.Valid() && PlainLengths() && Agrees(cache.Contents())
      modifies this`inReading, this`readInto, this`readAt, this`readLen, this`raws, this`pdus
      modifies bufp`buff, bufp`stepReading, bufp`requireResponse, bufp`dir, bufp.buff, cache.slots
      ensures Valid()
      ensures -1 <= r <= 1 && (r == -1 ==> !readOk)
      ensures (r == 1 <==> bufp.stepReading == 3) && (old(bufp.stepReading) == 3 ==> r == 1)
      ensures (r == 0 <==> inReading) && (old(inReading) ==> inReading)
      ensures bufp.buff == old(bufp.buff) || fresh(bufp.buff)
      ensures raws == if old(bufp.stepReading) < 3 && r == 1 then old(raws) + [bufp.raw] else old(raws)
      ensures Looked() == if old(bufp.stepReading < 2 && HEADER_SIZE <= bufp.offp)
                          then old(Looked()) + [HostHeader(mode, bufp.raw)] else old(Looked())
      ensures cache.Contents() == if old(bufp.stepReading < 3 && HEADER_SIZE <= bufp.offp)
                                  then CacheAfter(mode, old(cache.Contents()), old(bufp.Pending(mode)))
                                  else old(cache.Contents())
    {
      hide Restored, Header, Output, IsPdu, Plain, Total, Direction, CacheAfter, Dir, HeadersOf;
      hide Linked, Filled, Kept, Delivered, Writing, Accounted, Reading, Plausible, PlainLengths, Agrees, Buffer.Holds;
      Apart();
      ghost var done, more := bufp.stepReading == 3, bufp.stepReading < 3 && HEADER_SIZE <= bufp.offp;
      if more {
        LookFindsDirection(cache.Contents());
      } else {
        NothingToLook(cache.Contents());
      }
      label before:
      r := ReadBuffer(cache, readOk);
      LastChanged@before(done);
      if !done && r == 1 {
        Enter();
      }
      OneMoreHeader(mode, old(raws), bufp.raw);
    }

    /** The input is the completed messages and the one in progress. */
    lemma {:induction false} InputParts()
      requires Valid()
      ensures input == if bufp.stepReading == 3 then Concat(raws) else Concat(raws) + bufp.raw
      ensures freed <= |raws| == |pdus|
      ensures forall k :: 0 <= k < |raws| ==> |pdus[k]| == |raws[k]|
    {
    }

    /** An outstanding read is for bytes of the message in progress. */
    lemma {:induction false} ReadIsShort()
      requires Valid() && inReading
      ensures bufp.Holds(mode) && bufp.stepReading < 3 && bufp.offp < bufp.Goal(mode)
    {
    }

    /** A first buffer that is written, or not complete, with no complete one behind it holds the
        last message completed, or the one in progress. */
    lemma {:induction false} LastToWrite()
      requires Valid() && bufp.stepReading != 3
      requires !(bufc.stepReading == 3 && bufc.offc < bufc.offp)
      requires !(bufc.offc == bufc.offp && bufc.next != null && bufc.next.stepReading == 3)
      ensures freed == |pdus| || (freed + 1 == |pdus| && bufc.offc == bufc.offp)
    {
      hide Restored, Header, Output, IsPdu, Plain, Total, Concat;
      assert bufc.Holds(mode);
      if |chain| > 1 {
        assert chain[0].next == chain[1];
        assert chain[1].stepReading != 3;
        assert |chain| == 2;
      }
    }

    /** Less than a header is less than the current step is waiting for. */
    lemma {:induction false} ShortOfGoal()
      requires Valid()
      ensures bufp.Holds(mode)
      ensures bufp.stepReading < 3 && bufp.offp < HEADER_SIZE ==> bufp.offp < bufp.Goal(mode)
    {
    }

    lemma {:induction false} LastHolds()
      requires Valid()
      ensures bufp.Holds(mode) && |bufp.raw| == bufp.offp
    {
    }

    lemma {:induction false} NothingAgrees(s: Slots)
      requires bufp.Holds(mode) && (bufp.stepReading == 3 || bufp.offp < HEADER_SIZE)
      ensures Agrees(s)
    {
    }

    lemma {:induction false} NothingToLook(s: Slots)
      requires bufp.Holds(mode) && (bufp.stepReading == 3 || bufp.offp < HEADER_SIZE)
      ensures Plausible(s)
    {
    }

    /** The bytes of a read are in. */
    method Arrive(bytes: seq<byte>)
      requires Valid() && inReading && |bytes| <= readLen
      modifies this`inReading, this`input, bufp`offp, bufp`raw, readInto
      ensures Valid() && !inReading && Looked() == old(Looked())
      ensures input == old(input) + bytes && bufp.offp == old(bufp.offp) + |bytes|
    {
      hide Restored, Header, Output, IsPdu, Plain, Total;
      hide Linked, Filled, Kept, Delivered, Writing, Accounted, Buffer.Holds, Dir, HeadersOf;
      Apart();
      SameHeader(bufp.raw, bytes);
      label before:
      bufp.Receive(mode, readInto, readAt, bytes);
      input := input + bytes;
      inReading := false;
      MoreOfLast@before(bytes);
      LastChanged@before(false);
    }

    /** More bytes do not change a complete header. */
    lemma {:induction false} SameHeader(raw: seq<byte>, bytes: seq<byte>)
      ensures HEADER_SIZE <= |raw| ==> Dir(raw + bytes) == Dir(raw)
      ensures HEADER_SIZE <= |raw| ==> HeadersOf(mode, [raw + bytes]) == HeadersOf(mode, [raw])
    {
      hide HostHeader;
      if HEADER_SIZE <= |raw| {
        HeaderOfPrefix(mode, raw, bytes, 0);
      }
    }

    /** A read ends: its bytes are in, unless it failed. */
    method ReadCompletion(errcode: Errcode, bytes: seq<byte>)
      requires Valid() && inReading && |bytes| <= readLen
      modifies this`inReading, this`invalid, this`input, bufp`offp, bufp`raw, readInto
      ensures Valid() && !inReading && Looked() == old(Looked())
      ensures if errcode == NoError then input == old(input) + bytes && bufp.offp == old(bufp.offp) + |bytes|
              else input == old(input) && unchanged(bufp)
      ensures invalid <==> old(invalid) || (errcode == NoError && bytes == []) || errcode == NotConnected
    {
      hide Ordered, Accounted, Reading, Buffer.Holds;
      if errcode == NoError {
        Arrive(bytes);
        if |bytes| == 0 {
          invalid := true;
        }
      } else {
        if errcode == NotConnected {
          invalid := true;
        }
        inReading := false;
        assert Reading() by {
          NotReading();
        }
      }
    }

    lemma {:induction false} NotReading()
      requires bufp.Holds(mode) && !inReading
      ensures Reading()
    {
    }

    // -- writing ----------------------------------------------------------------

    /** One step of the writer thread: hands the rest of a complete first buffer to the peer. */
    method WriteDevbuf(writeOk: bool) returns (ok: bool)
      requires Valid()
      modifies this`inWriting, this`writeFrom, this`writeAt, this`writeLen
      ensures Valid()
      ensures !ok ==> !writeOk && !inWriting && !old(inWriting)
      ensures ok ==> (inWriting <==> old(inWriting) || (bufc.stepReading == 3 && bufc.offc < bufc.offp))
    {
      hide Linked, Filled, Kept, Delivered, Accounted, Reading, Buffer.Holds;
      if bufc.stepReading == 3 && bufc.offp > bufc.offc && !inWriting {
        if !writeOk {
          return false;
        }
        writeFrom, writeAt, writeLen := bufc.buff, bufc.offc, bufc.offp - bufc.offc;
        inWriting := true;
      }
      return true;
    }

    /** Only the written part of the first buffer grew. */
    twostate lemma FirstHolds()
      requires old(Filled()) && 0 < |chain| && chain[0] == bufc
      requires unchanged(this`chain, this`bufc)
      requires unchanged(bufc`buff, bufc`offp, bufc`stepReading, bufc`requireResponse, bufc`next, bufc`raw, bufc`dir)
      requires unchanged(bufc.buff)
      requires bufc.stepReading == 3 && bufc.offc <= bufc.offp
      requires forall i :: 0 < i < |chain| ==> unchanged(chain[i]) && unchanged(chain[i].buff)
      ensures Filled()
    {
      hide Restored, Header, Output, IsPdu, Plain, Total;
      forall i | 0 <= i < |chain|
        ensures chain[i].Holds(mode)
      {
        assert old(chain[i].Holds(mode));
        assert chain[i].buff[..chain[i].offp] == old(chain[i].buff[..chain[i].offp]);
      }
    }

    twostate lemma FirstLinked()
      requires old(Linked()) && unchanged(this`chain, this`bufp, this`bufc)
      requires unchanged(bufc`next, bufc`stepReading, bufc`buff)
      requires forall i :: 0 < i < |chain| ==> unchanged(chain[i])
      ensures Linked()
    {
      assert forall i :: 0 <= i < |chain| ==> chain[i].next == old(chain[i].next);
      assert forall i :: 0 <= i < |chain| ==> chain[i].buff == old(chain[i].buff);
      assert forall i :: 0 <= i < |chain| ==> chain[i].stepReading == old(chain[i].stepReading);
      assert bufp == chain[|chain| - 1];
    }

    twostate lemma StillReading()
      requires old(bufp.Holds(mode)) && bufp.Holds(mode) && old(Reading())
      requires unchanged(this`inReading, this`readInto, this`readAt, this`readLen, this`bufp)
      requires unchanged(bufp`buff, bufp`offp, bufp`stepReading, bufp`raw, bufp`dir)
      ensures Reading()
    {
      hide Header, Plain, Total, Buffer.Holds;
    }

    twostate lemma FirstDelivered(n: nat)
      requires old(Delivered()) && unchanged(this`bufc, this`freed, this`pdus)
      requires unchanged(bufc`buff)
      requires unchanged(bufc.buff)
      requires bufc.offc == old(bufc.offc) + n <= bufc.buff.Length
      requires written == old(written) + bufc.buff[old(bufc.offc)..bufc.offc]
      ensures Delivered()
    {
      hide Concat;
      assert bufc.buff[..bufc.offc] == bufc.buff[..old(bufc.offc)] + bufc.buff[old(bufc.offc)..bufc.offc];
      assert bufc.buff[..old(bufc.offc)] == old(bufc.buff[..bufc.offc]);
    }

    /** The peer took n more bytes of the first buffer. */
    method Take(n: nat)
      requires Valid() && inWriting && n <= writeLen
      modifies this`inWriting, this`written, bufc`offc
      ensures Valid() && !inWriting
      ensures written == old(written) + old(bufc.buff[bufc.offc..bufc.offc + n]) && bufc.offc == old(bufc.offc) + n
    {
      hide Accounted, Linked, Filled, Kept, Delivered, Reading, LookedUp, Concat, Buffer.Holds;
      FirstIsOpen();
      Apart();
      label before:
      inWriting := false;
      written := written + bufc.buff[bufc.offc..bufc.offc + n];
      bufc.offc := bufc.offc + n;
      FirstLinked@before();
      FirstHolds@before();
      Apart();
      StillReading@before();
      FirstDelivered@before(n);
    }

    lemma {:induction false} FirstIsOpen()
      requires Linked() && Filled()
      ensures bufc.Holds(mode) && bufc.offp <= bufc.buff.Length && bufc == chain[0]
      ensures forall i :: 0 < i < |chain| ==> chain[i] != bufc && chain[i].buff != bufc.buff
    {
    }

    lemma {:induction false} NoBytes()
      requires Valid() && bufc.stepReading == 3
      ensures bufc.offc <= bufc.buff.Length && bufc.buff[bufc.offc..bufc.offc] == []
    {
    }

    /** A write ends, having taken the first nwrite bytes it was given, unless it failed. */
    method WriteCompletion(errcode: Errcode, nwrite: nat)
      requires Valid() && inWriting && nwrite <= writeLen
      modifies this`inWriting, this`writeInvalid, this`written, bufc`offc
      ensures Valid() && !inWriting
      ensures written == if errcode != NoError then old(written)
                         else old(written) + old(bufc.buff[bufc.offc..bufc.offc + nwrite])
      ensures bufc.offc == old(bufc.offc) + if errcode == NoError then nwrite else 0
      ensures writeInvalid <==> old(writeInvalid) || (errcode == NoError && nwrite == 0)
    {
      hide Linked, Filled, Kept, Accounted, Delivered, Reading, Buffer.Holds;
      NoBytes();
      if errcode != NoError {
        inWriting := false;
      } else if nwrite == 0 {
        inWriting := false;
        writeInvalid := true;
      } else {
        Take(nwrite);
      }
    }

    // -- the chain --------------------------------------------------------------

    /** A first buffer with a complete successor is complete, and once it is written all of its
        message is. */
    lemma {:induction false} FirstIsWhole()
      requires Valid() && bufc.offc == bufc.offp && bufc.next != null
      ensures |chain| > 1 && bufc.next == chain[1] && bufc.stepReading == 3 && chain[1].offc == 0 && !inWriting
      ensures freed < |pdus| && written == Concat(pdus[..freed + 1])
    {
      hide Restored, Header, Output, IsPdu, Plain, Total, Concat;
      assert bufc.Holds(mode);
      assert bufc.buff[..bufc.offc] == pdus[freed];
      assert pdus[..freed + 1] == pdus[..freed] + [pdus[freed]];
      ConcatAppend(pdus[..freed], pdus[freed]);
    }

    /** The rest of the chain is in order without its first buffer. */
    twostate lemma RestKept(done: bool)
      requires old(Filled() && Kept(done)) && 0 < |old(chain)| && chain == old(chain)[1..]
      requires freed == old(freed) + 1 && unchanged(this`raws)
      requires forall b :: b in chain ==> unchanged(b) && unchanged(b.buff)
      ensures Filled() && Kept(done)
    {
      hide Buffer.Holds, Dir;
      forall i | 0 <= i < |chain|
        ensures chain[i].Holds(mode) && chain[i].raw == old(chain[i + 1].raw) && chain[i].dir == old(chain[i + 1].dir)
      {
        assert chain[i] == old(chain)[i + 1] && chain[i] in chain;
      }
    }

    /** Frees the first buffer once it is written and the next one is complete. */
    method AdvanceBufc()
      requires Valid()
      modifies this`bufc, this`chain, this`freed
      ensures Valid() && Looked() == old(Looked())
      ensures if freed == old(freed) then chain == old(chain)
              else && freed == old(freed) + 1 && 0 < |old(chain)| && chain == old(chain)[1..]
                   && old(bufc.offc == bufc.offp)
      ensures freed > old(freed) <==> old(bufc.offc == bufc.offp && bufc.next != null && bufc.next.stepReading == 3)
    {
      hide Filled, Kept, Accounted, Reading, LookedUp, Dir, Buffer.Holds, Concat, Converted;
      if bufc.offc == bufc.offp && bufc.next != null && bufc.next.stepReading == 3 {
        FirstIsWhole();
        FirstIsOpen();
        label before:
        bufc := bufc.next;
        chain := chain[1..];
        freed := freed + 1;
        RestKept@before(bufp.stepReading == 3);
      }
    }

    /** The link to the next buffer is no part of a buffer's contents. */
    twostate lemma StillHolds(b: Buffer)
      requires old(b.Holds(mode)) && unchanged(b`buff, b`offp, b`offc, b`stepReading, b`requireResponse, b`raw, b`dir)
      requires unchanged(b.buff)
      ensures b.Holds(mode)
    {
      hide Restored, Header, Output, IsPdu, Plain, Total;
      assert b.buff[..b.offp] == old(b.buff[..b.offp]);
    }

    twostate lemma LinkedFilled()
      requires old(Linked() && Filled()) && unchanged(this`chain, this`bufp)
      requires unchanged(bufp`buff, bufp`offp, bufp`offc, bufp`stepReading, bufp`requireResponse, bufp`raw, bufp`dir)
      requires forall i :: 0 <= i < |chain| - 1 ==> unchanged(chain[i])
      requires forall i :: 0 <= i < |chain| ==> unchanged(chain[i].buff)
      ensures forall i :: 0 <= i < |chain| ==> chain[i].Holds(mode)
    {
      hide Buffer.Holds;
      assert bufp == chain[|chain| - 1];
      StillHolds(bufp);
      LastFilled();
    }

    /** Links an empty buffer behind the last one. */
    method Append(newbuf: Buffer)
      requires Valid() && bufp.stepReading == 3
      requires newbuf.stepReading == 0 && newbuf.offp == 0 && newbuf.offc == 0
      requires newbuf.raw == [] && newbuf.next == null
      requires forall b :: b in chain ==> b != newbuf && b.buff != newbuf.buff
      modifies this`bufp, this`chain, bufp`next
      ensures Valid() && bufp == newbuf && chain == old(chain) + [newbuf]
    {
      hide Linked, Filled, Kept, Writing, Accounted, Delivered, Reading, LookedUp, Dir, Buffer.Holds;
      Apart();
      label before:
      bufp.next := newbuf;
      newbuf.Empty(mode);
      LinkedFilled@before();
      bufp := newbuf;
      chain := chain + [newbuf];
      FilledPlus(old(chain), newbuf);
      LinkedPlus@before(old(chain), newbuf);
      NothingYet@before();
    }

    /** The chain with an empty buffer behind a complete last one. */
    twostate lemma LinkedPlus(bs: seq<Buffer>, new b: Buffer)
      requires old(Linked() && Kept(true) && Writing() && bufp.stepReading == 3 && chain == bs)
      requires chain == bs + [b] && bufp == b && unchanged(this`bufc, this`freed, this`raws)
      requires unchanged(this`inWriting, this`writeFrom, this`writeAt, this`writeLen)
      requires b.next == null && b.offc == 0
      requires forall i :: 0 <= i < |bs| ==> bs[i] != b && bs[i].buff != b.buff && bs[i].buff == old(bs[i].buff)
      requires forall i :: 0 <= i < |bs| ==> bs[i].offp == old(bs[i].offp) && bs[i].offc == old(bs[i].offc)
      requires forall i :: 0 <= i < |bs| ==> bs[i].raw == old(bs[i].raw) && bs[i].dir == old(bs[i].dir)
      requires forall i :: 0 <= i < |bs| ==> bs[i].stepReading == old(bs[i].stepReading)
      requires forall i :: 0 <= i < |bs| ==> bs[i].next == if i < |bs| - 1 then old(bs[i].next) else b
      ensures Linked() && Kept(false) && Writing()
    {
      hide Dir;
    }

    /** Appends a fresh buffer once the last one is complete. */
    method GrowBufp()
      requires Valid()
      modifies this`bufp, this`chain, bufp`next
      ensures Valid() && bufp.stepReading < 3 && Looked() == old(Looked())
      ensures if old(bufp.stepReading) != 3 then chain == old(chain) && bufp == old(bufp)
              else chain == old(chain) + [bufp] && fresh(bufp) && fresh(bufp.buff) && bufp.stepReading == 0
    {
      hide Kept, Writing, Accounted, Delivered, Reading, Buffer.Holds;
      Apart();
      if bufp.stepReading == 3 {
        var newbuf := new Buffer();
        Append(newbuf);
      }
    }

    lemma {:induction false} FilledPlus(bs: seq<Buffer>, b: Buffer)
      requires chain == bs + [b] && b.Holds(mode) && forall i :: 0 <= i < |bs| ==> bs[i].Holds(mode)
      ensures Filled()
    {
    }

    twostate lemma NothingYet()
      requires old(Accounted(true)) && unchanged(this`raws, this`pdus, this`input, this`inReading)
      requires old(bufp.Holds(mode) && bufp.stepReading == 3 && Reading())
      requires bufp.Holds(mode) && bufp.raw == [] && bufp.stepReading == 0
      ensures Accounted(false) && Reading() && LookedUp()
    {
      hide Converted, Concat, Buffer.Holds;
    }

    /** One step of the third thread. */
    method DealWithBufpAndBufc()
      requires Valid()
      modifies this`bufc, this`bufp, this`chain, this`freed, bufp`next
      ensures Valid() && bufp.stepReading < 3 && Looked() == old(Looked())
      ensures freed == old(freed) || (freed == old(freed) + 1 && old(bufc.offc == bufc.offp))
      ensures freed > old(freed) <==> old(bufc.offc == bufc.offp && bufc.next != null && bufc.next.stepReading == 3)
      ensures if old(bufp.stepReading) == 3 then bufp.stepReading == 0 else bufp == old(bufp)
      ensures forall b :: b in chain ==> b in old(chain) || (fresh(b) && fresh(b.buff))
    {
      hide Valid, Looked;
      AdvanceBufc();
      GrowBufp();
    }

    // -- what every run keeps ---------------------------------------------------

    /** However the input was cut into reads, the messages completed so far are those the input
        holds; and all of them, unless the last buffer holds a whole header or message that was
        not looked at yet. */
    lemma {:induction false} MessagesOfInput()
      requires Valid()
      ensures raws <= Frames(mode, input, look)
      ensures bufp.stepReading == 3 || bufp.offp < bufp.Goal(mode) ==> raws == Frames(mode, input, look)
    {
      hide Linked, Filled, Kept, Delivered, Reading, Writing, Framed, Frames, Concat, Restored, Output;
      var rest := if bufp.stepReading == 3 then [] else bufp.raw;
      NoMoreBytes(Concat(raws));
      FramesOfConcat(mode, look, raws, rest);
      if bufp.stepReading == 3 || bufp.offp < bufp.Goal(mode) {
        NoFramesYet(mode, look, rest);
      }
    }

    /** Two runs that read the same input have, whatever their reads, completed the same
        messages, as far as both got: requests always, replies if they answer the same requests. */
    lemma {:induction false} SameInputSameMessages(that: Devbuf, k: nat)
      requires Valid() && that.Valid() && mode == that.mode && input == that.input
      requires mode.isReq || look == that.look
      requires k < |raws| && k < |that.raws|
      ensures raws[k] == that.raws[k] && k < |pdus| && k < |that.pdus| && pdus[k] == that.pdus[k]
    {
      hide Linked, Filled, Kept, Delivered, Reading, Writing, IsPdu, Output, Frames, Concat, Buffer.Holds;
      MessagesOfInput();
      that.MessagesOfInput();
      CompletedMessages();
      that.CompletedMessages();
      if mode.isReq {
        RequestsNeedNoLook(mode, input, look, that.look);
      }
    }

    /** The messages completed are whole, and leave as Outgoing says. */
    lemma {:induction false} CompletedMessages()
      requires Valid()
      ensures Framed(mode, look, raws) && |pdus| == |raws|
      ensures forall k :: 0 <= k < |raws| ==> pdus[k] == Outgoing(mode, look, raws[k])
    {
    }

    /** What was written is a prefix of the completed messages in order of arrival; and all of
        them once the first buffer is written and no other is complete. */
    lemma {:induction false} WrittenInOrder()
      requires Valid()
      ensures written <= Concat(pdus)
      ensures bufc.offc == bufc.offp && freed + 1 == |pdus| ==> written == Concat(pdus)
      ensures freed == |pdus| ==> written == Concat(pdus)
    {
      hide Restored, Header, Plain, Total, IsPdu, Output, Concat;
      assert bufc.Holds(mode);
      if freed == |pdus| {
        assert bufc.buff[..bufc.offc] == [] && pdus[..freed] == pdus;
      } else {
        assert bufc.buff[..bufc.offp] == pdus[freed];
        assert bufc.buff[..bufc.offc] <= pdus[freed];
        assert pdus[..freed + 1] == pdus[..freed] + [pdus[freed]];
        ConcatAppend(pdus[..freed], pdus[freed]);
        ConcatTake(pdus, freed + 1);
        assert freed + 1 == |pdus| ==> pdus[..freed + 1] == pdus;
      }
    }
  }
}
