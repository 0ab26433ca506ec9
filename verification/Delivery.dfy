/** What a device buffer makes of a stream of whole messages: whatever the order in which bytes
    arrive, headers are looked at, buffers are appended and freed and bytes are written, it only
    ever gets closer to having written all of them. */
module Delivery {
  import opened Bytes
  import opened PduCodec
  import opened HdrsCache
  import opened Framing
  import opened Forwarder

  /** The bytes read so far are the front of a stream of whole messages. */
  ghost predicate Carries(d: Devbuf, msgs: seq<seq<byte>>)
    reads d`input
  {
    Framed(d.mode, d.look, msgs) && d.input <= Concat(msgs)
  }

  lemma {:induction false} ConcatSplit(ss: seq<seq<byte>>, n: nat)
    requires n <= |ss|
    ensures Concat(ss) == Concat(ss[..n]) + Concat(ss[n..])
    decreases n
  {
    if n == 0 {
      assert ss[..0] == [] && ss[0..] == ss;
    } else {
      ConcatSplit(ss[1..], n - 1);
      assert ss[..n][1..] == ss[1..][..n - 1] && ss[n..] == ss[1..][n - 1..];
    }
  }

  lemma {:induction false} FramesOfStream(m: Mode, look: seq<byte> -> u32, msgs: seq<seq<byte>>)
    requires Framed(m, look, msgs)
    ensures Frames(m, Concat(msgs), look) == msgs
  {
    hide Framed, Concat;
    FramesOfConcat(m, look, msgs, []);
    assert Concat(msgs) + [] == Concat(msgs);
    assert msgs + Frames(m, [], look) == msgs;
  }

  /** The completed messages are the first ones of the stream, and the bytes behind them are the
      front of what follows. */
  lemma {:induction false} CompletedAreFirst(d: Devbuf, msgs: seq<seq<byte>>)
    requires d.Valid() && Carries(d, msgs)
    ensures d.raws <= msgs && d.bufp.Holds(d.mode) && |d.bufp.raw| == d.bufp.offp
    ensures d.bufp.stepReading < 3 ==> d.bufp.raw <= Concat(msgs[|d.raws|..])
    ensures d.input == Concat(msgs) && d.bufp.stepReading < 3 && d.bufp.offp < d.bufp.Goal(d.mode) ==> d.raws == msgs
  {
    hide Framed, Frames, Concat, Devbuf.Valid, Devbuf.Reading, Buffer.Holds;
    d.MessagesOfInput();
    d.LastHolds();
    d.InputParts();
    FramesOfStream(d.mode, d.look, msgs);
    FramesGrow(d.mode, d.input, Concat(msgs), d.look);
    ConcatSplit(msgs, |d.raws|);
    assert msgs[..|d.raws|] == d.raws;
    if d.bufp.stepReading < 3 {
      BehindFront(Concat(d.raws), d.bufp.raw, Concat(msgs[|d.raws|..]));
    }
  }

  lemma {:induction false} BehindFront(a: seq<byte>, b: seq<byte>, c: seq<byte>)
    requires a + b <= a + c
    ensures b <= c
  {
    assert forall i :: 0 <= i < |b| ==> b[i] == (a + b)[|a| + i] == (a + c)[|a| + i];
  }

  /** A complete header is that of the next message of the stream, and its lengths are proper. */
  lemma {:induction false} HeaderIsNext(d: Devbuf, msgs: seq<seq<byte>>)
    requires d.Valid() && Carries(d, msgs)
    ensures d.bufp.Holds(d.mode) && |d.bufp.raw| == d.bufp.offp && d.raws <= msgs
    ensures d.bufp.stepReading < 3 && HEADER_SIZE <= d.bufp.offp ==>
              && |d.raws| < |msgs| && HEADER_SIZE <= |msgs[|d.raws|]|
              && HostHeader(d.mode, d.bufp.raw) == HostHeader(d.mode, msgs[|d.raws|])
    ensures d.PlainLengths()
  {
    hide Devbuf.Valid, Buffer.Holds;
    CompletedAreFirst(d, msgs);
    var n := |d.raws|;
    if d.bufp.stepReading < 3 && HEADER_SIZE <= d.bufp.offp {
      var rest := msgs[n..];
      assert rest != [] && rest[0] == msgs[n];
      assert Concat(rest) == rest[0] + Concat(rest[1..]);
      SameFront(d.bufp.raw, msgs[n], Concat(rest[1..]));
      NextIsPlain(d, msgs[n]);
    }
  }

  lemma {:induction false} SameFront(raw: seq<byte>, msg: seq<byte>, more: seq<byte>)
    requires raw <= msg + more && HEADER_SIZE <= |raw| && HEADER_SIZE <= |msg|
    ensures raw[..HEADER_SIZE] == msg[..HEADER_SIZE]
  {
    assert forall i :: 0 <= i < HEADER_SIZE ==> raw[i] == (msg + more)[i] == msg[i];
  }

  lemma {:induction false} NextIsPlain(d: Devbuf, msg: seq<byte>)
    requires d.bufp.Holds(d.mode) && HEADER_SIZE <= |msg| && IsPdu(d.mode, msg, MessageDirection(d.mode, d.look, msg))
    requires HEADER_SIZE <= |d.bufp.raw| && d.bufp.raw[..HEADER_SIZE] == msg[..HEADER_SIZE]
    ensures d.PlainLengths()
  {
    hide Buffer.Holds, Plain, Total;
  }

  lemma {:induction false} FrontHeaders(m: Mode, raws: seq<seq<byte>>, msgs: seq<seq<byte>>)
    requires raws <= msgs
    ensures HeadersOf(m, raws) <= HeadersOf(m, msgs)
  {
  }

  /** The headers looked at are the first ones of the stream. */
  lemma {:induction false} LookedAreFirst(d: Devbuf, msgs: seq<seq<byte>>)
    requires d.Valid() && Carries(d, msgs)
    ensures d.Looked() <= HeadersOf(d.mode, msgs)
    ensures d.bufp.stepReading < 2 && HEADER_SIZE <= |d.bufp.raw| ==> |d.Looked()| == |d.raws| < |msgs|
    ensures d.bufp.stepReading == 2 ==> |d.Looked()| == |d.raws| + 1 && HEADER_SIZE <= |d.bufp.raw|
  {
    hide Devbuf.Valid, HostHeader, Framed, Concat, Devbuf.PlainLengths, Buffer.Holds;
    HeaderIsNext(d, msgs);
    OwnParts(d);
    FrontHeaders(d.mode, d.raws, msgs);
  }

  // ---------------------------------------------------------------------------
  // Progress
  // ---------------------------------------------------------------------------

  /** What is left to do: bytes to arrive and reads to start, messages to complete and buffers to
      append and free, bytes to write and writes to start. */
  ghost function Work(d: Devbuf, msgs: seq<seq<byte>>): int
    reads d`input, d`raws, d`freed, d`written, d`inReading, d`inWriting, d`bufp, d.bufp`stepReading
  {
    2 * (|Concat(msgs)| - |d.input|) + (if d.inReading then 0 else 1)
    + 2 * (|msgs| - |d.raws|) + (if d.bufp.stepReading == 3 then 1 else 0) + (|msgs| - d.freed)
    + 2 * (|Concat(msgs)| - |d.written|) + (if d.inWriting then 0 else 1)
  }

  lemma {:induction false} SameLength(raws: seq<seq<byte>>, pdus: seq<seq<byte>>)
    requires |raws| == |pdus| && forall k :: 0 <= k < |raws| ==> |raws[k]| == |pdus[k]|
    ensures |Concat(raws)| == |Concat(pdus)|
  {
    if raws != [] {
      SameLength(raws[1..], pdus[1..]);
    }
  }

  lemma {:induction false} WorkIsNat(d: Devbuf, msgs: seq<seq<byte>>)
    requires d.Valid() && Carries(d, msgs)
    ensures 0 <= Work(d, msgs)
  {
    hide Devbuf.Valid, Concat, Buffer.Holds;
    CompletedAreFirst(d, msgs);
    d.CompletedMessages();
    d.WrittenInOrder();
    d.InputParts();
    SameLength(d.raws, d.pdus);
  }

  // ---------------------------------------------------------------------------
  // One direction of a connection
  // ---------------------------------------------------------------------------

  /** The steps of the threads that serve a device buffer: a look, the end of a read that brought
      at most n bytes, the start of a write, its end, and a turn of the third thread. */
  datatype Op =
    | Look(readOk: bool)
    | Arrive(readError: Errcode, n: nat)
    | Write(writeOk: bool)
    | Wrote(writeError: Errcode, n: nat)
    | Deal

  /** The objects of a device buffer. */
  ghost function Parts(d: Devbuf): (os: set<object>)
    reads d`chain, d.chain`buff
  {
    {d} + (set b | b in d.chain :: b as object) + (set b | b in d.chain :: b.buff as object)
  }

  lemma {:induction false} PartsOfOne(d: Devbuf)
    requires d.chain == [d.bufp]
    ensures Parts(d) == {d, d.bufp, d.bufp.buff}
  {
    assert d.bufp in d.chain;
    assert d.bufp.buff as object in (set b | b in d.chain :: b.buff as object);
  }

  lemma {:induction false} OwnParts(d: Devbuf)
    requires d.Valid()
    ensures d.bufp in d.chain && d.bufc in d.chain && d.bufp.next == null
    ensures d.inReading ==> d.readInto == d.bufp.buff && 0 < d.readLen
    ensures d.inWriting ==> 0 < d.writeLen && d.bufc.offc + d.writeLen <= d.bufc.buff.Length
    ensures 0 <= d.bufp.stepReading <= 3 && (d.bufp.stepReading == 2 ==> HEADER_SIZE <= d.bufp.offp)
    ensures d.bufp.Holds(d.mode) && d.bufc.Holds(d.mode)
  {
    hide Framed, Concat, Buffer.Holds;
    d.Apart();
    d.FirstIsOpen();
  }

  lemma {:induction false} MovedOver(a: seq<byte>, b: seq<byte>, k: nat)
    requires k <= |b|
    ensures (a + b[..k]) + b[k..] == a + b && |a + b[..k]| == |a| + k
  {
  }

  twostate lemma OwnPartsBefore(d: Devbuf)
    requires old(d.Valid())
    ensures old(d.bufp in d.chain && d.bufc in d.chain)
  {
    hide Framed, Concat, Devbuf.Looked, Devbuf.Filled, Devbuf.Kept, Devbuf.Delivered, Devbuf.Writing;
    hide Devbuf.Accounted, Devbuf.Reading, Devbuf.LookedUp, Buffer.Holds;
    assert old(d.bufc == d.chain[0] && d.bufp == d.chain[|d.chain| - 1]);
  }

  twostate lemma StaysValid(d: Devbuf)
    requires old(d.Valid()) && unchanged(d)
    requires forall i :: 0 <= i < |old(d.chain)| ==> unchanged(old(d.chain)[i]) && unchanged(old(d.chain)[i].buff)
    ensures d.Valid()
  {
    hide Devbuf.Valid;
    OwnPartsBefore(d);
  }

  /** The headers looked at once the reader looks again. */
  ghost function LookedNext(d: Devbuf): (hs: seq<seq<byte>>)
    reads d`raws, d`bufp, d.bufp
    ensures d.Looked() <= hs
  {
    if d.bufp.stepReading < 2 && HEADER_SIZE <= d.bufp.offp && HEADER_SIZE <= |d.bufp.raw|
    then d.Looked() + [HostHeader(d.mode, d.bufp.raw)] else d.Looked()
  }

  /** The cache once the reader looks again. */
  ghost function SlotsNext(d: Devbuf, s: Slots): Slots
    requires d.bufp.Holds(d.mode)
    reads d`bufp, d.bufp, d.bufp.buff
  {
    if d.bufp.stepReading < 3 && HEADER_SIZE <= d.bufp.offp then CacheAfter(d.mode, s, d.bufp.Pending(d.mode)) else s
  }

  class Line {
    const dev: Devbuf
    /** The messages of the stream, and its bytes that are still to arrive. */
    const msgs: seq<seq<byte>>
    var coming: seq<byte>

    ghost function Repr(): set<object>
      reads dev`chain, dev.chain`buff
    {
      {this} + Parts(dev)
    }

    ghost predicate Valid()
      reads this, dev, dev.chain, set b | b in dev.chain :: b.buff, dev.bufp, dev.bufc, dev.bufc.buff
    {
      && dev.Valid() && Framed(dev.mode, dev.look, msgs)
      && dev.input + coming == Concat(msgs)
    }

    /** Nothing has arrived yet. */
    constructor (m: Mode, ghost look: seq<byte> -> u32, ms: seq<seq<byte>>)
      requires Framed(m, look, ms)
      ensures Valid() && fresh(Repr()) && dev.mode == m && dev.look == look && msgs == ms
      ensures dev.Looked() == [] && dev.input == []
      ensures Repr() == {this, dev, dev.bufp, dev.bufp.buff}
    {
      hide Devbuf.Valid, Devbuf.Looked, Framed, Concat, Parts;
      dev := new Devbuf(m, look);
      msgs, coming := ms, Concat(ms);
      new;
      PartsOfOne(dev);
      assert dev.input + coming == coming;
    }

    ghost function Left(): int
      reads dev`input, dev`raws, dev`freed, dev`written, dev`inReading, dev`inWriting, dev`bufp, dev.bufp`stepReading
    {
      Work(dev, msgs)
    }

    lemma {:induction false} LeftIsNat()
      requires Valid()
      ensures Carries(dev, msgs) && 0 <= Left()
    {
      hide Devbuf.Valid, Framed, Concat, Work;
      assert Carries(dev, msgs);
      WorkIsNat(dev, msgs);
    }

    /** The step brings the stream closer to the peer. */
    predicate Useful(op: Op)
      reads this, dev, dev.bufp, dev.bufc, if dev.bufc.next == null then {} else {dev.bufc.next}
    {
      match op
      case Look(readOk) => readOk && dev.bufp.stepReading != 3 && !dev.inReading
      case Arrive(error, n) => error == NoError && dev.inReading && 0 < n && coming != []
      case Write(writeOk) =>
        writeOk && dev.bufc.stepReading == 3 && dev.bufc.offc < dev.bufc.offp && !dev.inWriting
      case Wrote(error, n) => error == NoError && dev.inWriting && 0 < n
      case Deal =>
        || dev.bufp.stepReading == 3
        || (dev.bufc.offc == dev.bufc.offp && dev.bufc.next != null && dev.bufc.next.stepReading == 3)
    }

    /** At any time the messages completed are the first of the stream, each put in the byte orders
        it leaves in, and what was written is the front of these. */
    lemma {:induction false} FirstOfStream()
      requires Valid()
      ensures dev.raws <= msgs && |dev.pdus| == |dev.raws| && dev.written <= Concat(dev.pdus)
      ensures forall k :: 0 <= k < |dev.raws| ==> dev.pdus[k] == Outgoing(dev.mode, dev.look, msgs[k])
    {
      hide Devbuf.Valid, Concat, Outgoing;
      assert Carries(dev, msgs);
      CompletedAreFirst(dev, msgs);
      dev.CompletedMessages();
      dev.WrittenInOrder();
    }

    /** When no step is useful any more, every message of the stream was completed and written to
        the peer, in the byte orders it leaves in. */
    lemma {:induction false} UselessMeansDelivered()
      requires Valid() && forall op :: !Useful(op)
      ensures dev.raws == msgs && |dev.pdus| == |msgs| && dev.written == Concat(dev.pdus)
      ensures forall k :: 0 <= k < |msgs| ==> dev.pdus[k] == Outgoing(dev.mode, dev.look, msgs[k])
    {
      hide Devbuf.Valid, Concat, Buffer.Holds, Outgoing, Framed;
      assert !Useful(Op.Look(true)) && !Useful(Arrive(NoError, 1)) && !Useful(Write(true));
      assert !Useful(Wrote(NoError, 1)) && !Useful(Deal);
      assert dev.input + [] == dev.input;
      dev.ReadIsShort();
      CompletedAreFirst(dev, msgs);
      dev.CompletedMessages();
      dev.LastToWrite();
      dev.WrittenInOrder();
    }

    /** The step ends a read or a write that moved nothing. */
    predicate InVain(op: Op)
      reads this
    {
      match op
      case Arrive(error, n) => error != NoError || n == 0 || coming == []
      case Wrote(error, n) => error != NoError || n == 0
      case _ => false
    }

    lemma {:induction false} KindsOfParts()
      ensures forall o :: o in Repr() ==> allocated(o) && (o is Line || o is Devbuf || o is Buffer || o is array<byte>)
    {
    }

    lemma {:induction false} OwnRepr()
      requires Valid()
      ensures {this, dev, dev.bufp, dev.bufc, dev.bufp.buff, dev.bufc.buff} <= Repr()
    {
      hide Devbuf.Valid, Framed, Concat;
      OwnParts(dev);
    }

    /** Steps elsewhere leave a line alone. */
    twostate lemma Untouched()
      requires old(Valid()) && forall o :: o in old(Repr()) ==> unchanged(o)
      ensures Valid() && Repr() == old(Repr()) && Left() == old(Left()) && dev.Looked() == old(dev.Looked())
      ensures forall o :: o in Repr() ==> !fresh(o)
    {
      hide Devbuf.Valid, Framed, Concat, Devbuf.Looked, Work;
      OwnPartsBefore(dev);
      assert dev in old(Repr()) && this in old(Repr());
      forall i | 0 <= i < |old(dev.chain)|
        ensures unchanged(old(dev.chain)[i]) && unchanged(old(dev.chain)[i].buff)
      {
        var b := old(dev.chain)[i];
        assert b in old(dev.chain);
        assert b in old(Repr()) && old(b.buff) as object in old(Repr());
      }
      StaysValid(dev);
    }

    /** A buffer that grew has a new array. */
    twostate lemma Moved()
      requires dev.chain == old(dev.chain)
      requires forall b :: b in dev.chain ==> b.buff == old(b.buff) || fresh(b.buff)
      ensures fresh(Repr() - old(Repr()))
    {
    }

    /** The end of a read. */
    method EndRead(error: Errcode, n: nat)
      requires Valid()
      modifies Repr()
      ensures Valid() && fresh(Repr() - old(Repr())) && dev.Looked() == old(dev.Looked())
      ensures Left() <= old(Left()) + (if old(InVain(Arrive(error, n))) then 1 else 0)
      ensures old(Useful(Arrive(error, n))) ==> Left() < old(Left())
    {
      hide Devbuf.Valid, Devbuf.Looked, Framed, Concat, Buffer.Holds, Parts, Line.Repr;
      OwnRepr();
      OwnParts(dev);
      if dev.inReading {
        var k := if n <= dev.readLen then n else dev.readLen;
        k := if k <= |coming| then k else |coming|;
        MovedOver(dev.input, coming, k);
        dev.ReadCompletion(error, coming[..k]);
        coming := if error == NoError then coming[k..] else coming;
      }
    }

    /** The start of a write. */
    method StartWrite(writeOk: bool)
      requires Valid()
      modifies Repr()
      ensures Valid() && fresh(Repr() - old(Repr())) && dev.Looked() == old(dev.Looked())
      ensures Left() <= old(Left()) + (if old(InVain(Write(writeOk))) then 1 else 0)
      ensures old(Useful(Write(writeOk))) ==> Left() < old(Left())
    {
      hide Devbuf.Valid, Devbuf.Looked, Framed, Concat, Buffer.Holds, Parts, Line.Repr;
      OwnRepr();
      OwnParts(dev);
      var ok := dev.WriteDevbuf(writeOk);
    }

    /** The end of a write. */
    method EndWrite(error: Errcode, n: nat)
      requires Valid()
      modifies Repr()
      ensures Valid() && fresh(Repr() - old(Repr())) && dev.Looked() == old(dev.Looked())
      ensures Left() <= old(Left()) + (if old(InVain(Wrote(error, n))) then 1 else 0)
      ensures old(Useful(Wrote(error, n))) ==> Left() < old(Left())
    {
      hide Devbuf.Valid, Devbuf.Looked, Framed, Concat, Buffer.Holds, Parts, Line.Repr;
      OwnRepr();
      OwnParts(dev);
      if dev.inWriting {
        var k := if n <= dev.writeLen then n else dev.writeLen;
        ghost var was, more := dev.written, dev.bufc.buff[dev.bufc.offc..dev.bufc.offc + k];
        dev.WriteCompletion(error, k);
        assert dev.written == if error == NoError then was + more else was;
      }
    }

    /** A turn of the third thread. */
    method Turn()
      requires Valid()
      modifies Repr()
      ensures Valid() && fresh(Repr() - old(Repr())) && dev.Looked() == old(dev.Looked())
      ensures Left() <= old(Left()) + (if old(InVain(Deal)) then 1 else 0)
      ensures old(Useful(Deal)) ==> Left() < old(Left())
    {
      hide Devbuf.Valid, Devbuf.Looked, Framed, Concat, Buffer.Holds;
      OwnParts(dev);
      dev.DealWithBufpAndBufc();
    }

    /** One step of a thread other than the reader. */
    method Step(op: Op)
      requires Valid() && !op.Look?
      modifies Repr()
      ensures Valid() && fresh(Repr() - old(Repr())) && dev.Looked() == old(dev.Looked())
      ensures Left() <= old(Left()) + (if old(InVain(op)) then 1 else 0)
      ensures old(Useful(op)) ==> Left() < old(Left())
    {
      hide *;
      match op
      case Arrive(error, n) => EndRead(error, n);
      case Write(writeOk) => StartWrite(writeOk);
      case Wrote(error, n) => EndWrite(error, n);
      case Deal => Turn();
    }

    /** One look of the reader. */
    method Look(cache: Cache, readOk: bool)
      requires Valid() && cache.Valid() && dev.bufp.Holds(dev.mode) && dev.Agrees(cache.Contents())
      modifies Repr(), cache.slots
      ensures Valid() && fresh(Repr() - old(Repr()))
      ensures Left() <= old(Left())
      ensures old(Useful(Op.Look(readOk))) ==> Left() < old(Left())
      ensures dev.Looked() == old(LookedNext(dev)) && cache.Contents() == old(SlotsNext(dev, cache.Contents()))
    {
      hide Devbuf.Valid, Devbuf.Looked, Framed, Concat, Buffer.Holds, Devbuf.PlainLengths, Devbuf.Agrees, CacheAfter;
      hide HostHeader, Parts, Line.Repr;
      OwnParts(dev);
      OwnRepr();
      HeaderIsNext(dev, msgs);
      label before:
      var r := dev.ReadDev(cache, readOk);
      Moved@before();
    }
  }
}
