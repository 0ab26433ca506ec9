/** The stub driver's reply stream, as a state machine: replies are queued, and reads of any
    size cut them into pieces. A read first claims a reply under the lock; storing the piece
    and saving what is left of the reply is a later step, with other replies in between. */
module StubStream {
  import opened Bytes
  import opened Options

  /** A reply: its header bytes and its data. */
  datatype Res = Res(header: seq<byte>, data: seq<byte>)

  predicate WellFormed(r: Res) {
    |r.header| == HEADER_SIZE
  }

  /** The bytes a reply stands for on the stream. */
  function Message(r: Res): seq<byte> {
    r.header + r.data
  }

  /** A read request of `len` bytes that has been paired with a reply. */
  datatype Claim = Claim(len: nat, res: Res)

  /** What one completed read returned: bytes of the reply with the given number. */
  datatype Chunk = Chunk(reply: nat, from: nat, bytes: seq<byte>)

  datatype Stub = Stub(
    parked: Option<nat>,
    ongoing: Option<Res>,
    lenSent: nat,
    done: seq<Res>,
    claim: Option<Claim>,
    replies: seq<Res>,
    returned: seq<Chunk>)

  const Init := Stub(None, None, 0, [], None, [], [])

  // ---------------------------------------------------------------------------
  // Steps
  // ---------------------------------------------------------------------------

  /** send_irp_sres up to the release of the lock: the read is paired with the ongoing reply
      or with the first queued one. */
  function TakeClaim(s: Stub, len: nat): Stub
    requires s.ongoing.Some? || s.done != []
  {
    if s.ongoing.Some? then s.(parked := None, claim := Some(Claim(len, s.ongoing.value)))
    else s.(parked := None, done := s.done[1..], claim := Some(Claim(len, s.done[0])))
  }

  /** reply_stub_req: queue the reply; a parked read takes one at once. */
  function Reply(s: Stub, r: Res): Stub {
    var t := s.(done := s.done + [r], replies := s.replies + [r]);
    if s.parked.None? then t else TakeClaim(t, s.parked.value)
  }

  /** collect_done_stub_res: park the read if there is nothing to return. */
  function Collect(s: Stub, len: nat): Stub {
    if s.ongoing.None? && s.done == [] then s.(parked := Some(len)) else TakeClaim(s, len)
  }

  /** on_irp_read_cancelled. */
  function CancelRead(s: Stub): Stub {
    s.(parked := None)
  }

  function Min(a: nat, b: nat): nat {
    if a < b then a else b
  }

  /** How much of a reply a read of len bytes takes: first what is left of the header, then
      what fits of the data. */
  function SentLen(r: Res, lenSent: nat, len: nat): (k: nat)
    requires lenSent <= |Message(r)|
  {
    var hdr := if lenSent < |r.header| then Min(len, |r.header| - lenSent) else 0;
    if lenSent + hdr < |r.header| then hdr
    else hdr + Min(len - hdr, |r.data| - (lenSent + hdr - |r.header|))
  }

  /** send_stub_res: store a piece of the claimed reply and save the rest. */
  function Send(s: Stub): Stub
    requires s.claim.Some? && s.lenSent <= |Message(s.claim.value.res)|
  {
    var r := s.claim.value.res;
    var k := SentLen(r, s.lenSent, s.claim.value.len);
    var bytes := if s.lenSent + k <= |Message(r)| then Message(r)[s.lenSent..s.lenSent + k] else [];
    var whole := s.lenSent + k == |Message(r)|;
    s.(claim := None,
       ongoing := if whole then None else Some(r),
       lenSent := if whole then 0 else s.lenSent + k,
       returned := s.returned + [Chunk(NextReply(s), s.lenSent, bytes)])
  }

  /** The number of the reply that is being sent. */
  function NextReply(s: Stub): nat {
    if |s.done| < |s.replies| then |s.replies| - |s.done| - 1 else 0
  }

  // ---------------------------------------------------------------------------
  // The invariant
  // ---------------------------------------------------------------------------

  function Stream(rs: seq<Res>): seq<byte> {
    if rs == [] then [] else Message(rs[0]) + Stream(rs[1..])
  }

  function Returned(cs: seq<Chunk>): seq<byte> {
    if cs == [] then [] else Returned(cs[..|cs| - 1]) + cs[|cs| - 1].bytes
  }

  /** The unsent part of the reply in progress. */
  function Tail(s: Stub): seq<byte> {
    var r := if s.claim.Some? then Some(s.claim.value.res) else s.ongoing;
    if r.Some? && s.lenSent <= |Message(r.value)| then Message(r.value)[s.lenSent..] else []
  }

  ghost predicate InProgress(s: Stub) {
    s.claim.Some? || s.ongoing.Some?
  }

  ghost predicate Inv(s: Stub) {
    && (forall r :: r in s.replies ==> WellFormed(r))
    && (s.parked.Some? ==> s.claim.None? && s.ongoing.None? && s.done == [])
    && (s.claim.Some? && s.ongoing.Some? ==> s.ongoing == Some(s.claim.value.res))
    && (s.ongoing.Some? ==> s.lenSent < |Message(s.ongoing.value)|)
    && (s.ongoing.None? ==> s.lenSent == 0)
    && |s.done| + (if InProgress(s) then 1 else 0) <= |s.replies|
    && s.done == s.replies[|s.replies| - |s.done|..]
    && (s.claim.Some? ==> s.claim.value.res == s.replies[NextReply(s)])
    && (s.claim.None? && s.ongoing.Some? ==> s.ongoing.value == s.replies[NextReply(s)])
    && Returned(s.returned) + Tail(s) + Stream(s.done) == Stream(s.replies)
    && (forall c :: c in s.returned ==> OfOneReply(s.replies, c))
  }

  /** A read returned bytes of a single reply. */
  ghost predicate OfOneReply(replies: seq<Res>, c: Chunk) {
    && c.reply < |replies| && c.from + |c.bytes| <= |Message(replies[c.reply])|
    && c.bytes == Message(replies[c.reply])[c.from..c.from + |c.bytes|]
  }

  lemma {:induction false} StreamAppend(rs: seq<Res>, r: Res)
    ensures Stream(rs + [r]) == Stream(rs) + Message(r)
  {
    if rs == [] {
      assert [] + [r] == [r];
    } else {
      assert (rs + [r])[1..] == rs[1..] + [r];
      StreamAppend(rs[1..], r);
    }
  }

  /** However the header and the data are split over reads, the piece sent is the next
      stretch of the message, as long as the read allows. */
  lemma {:induction false} SentLenIsMin(r: Res, lenSent: nat, len: nat)
    requires lenSent <= |Message(r)|
    ensures SentLen(r, lenSent, len) == Min(len, |Message(r)| - lenSent)
  {
  }

  /** Queueing a reply appends its message to the stream. */
  lemma {:induction false} QueueInv(s: Stub, r: Res)
    requires Inv(s) && WellFormed(r) && s.parked.None?
    ensures Inv(s.(done := s.done + [r], replies := s.replies + [r]))
  {
    hide Stream, Message, Returned;
    StreamAppend(s.replies, r);
    StreamAppend(s.done, r);
    var t := s.(done := s.done + [r], replies := s.replies + [r]);
    assert NextReply(t) == NextReply(s);
    assert Tail(t) == Tail(s);
    Regroup(Returned(s.returned), Tail(s), Stream(s.done), Message(r));
    OneReplyKept(s.replies, r, s.returned);
  }

  lemma {:induction false} Regroup(a: seq<byte>, b: seq<byte>, c: seq<byte>, d: seq<byte>)
    ensures a + b + (c + d) == a + b + c + d
  {
  }

  lemma {:induction false} OneReplyKept(rs: seq<Res>, r: Res, cs: seq<Chunk>)
    requires forall c :: c in cs ==> OfOneReply(rs, c)
    ensures forall c :: c in cs ==> OfOneReply(rs + [r], c)
  {
    forall c | c in cs
      ensures OfOneReply(rs + [r], c)
    {
      assert OfOneReply(rs, c);
      assert (rs + [r])[c.reply] == rs[c.reply];
    }
  }

  /** A reply that meets a parked read is claimed at once. */
  lemma {:induction false} HandInv(s: Stub, r: Res)
    requires Inv(s) && WellFormed(r) && s.parked.Some?
    ensures Inv(Reply(s, r))
  {
    StreamAppend(s.replies, r);
    OneReplyKept(s.replies, r, s.returned);
    var t := Reply(s, r);
    assert t == s.(parked := None, done := [], replies := s.replies + [r], claim := Some(Claim(s.parked.value, r)));
    assert Message(r)[0..] == Message(r);
    assert Tail(s) == [] && Stream(s.done) == [];
    assert Returned(s.returned) == Stream(s.replies);
  }

  lemma {:induction false} ReplyInv(s: Stub, r: Res)
    requires Inv(s) && WellFormed(r)
    ensures Inv(Reply(s, r))
  {
    if s.parked.Some? {
      HandInv(s, r);
    } else {
      QueueInv(s, r);
    }
  }

  /** A read that finds no reply in progress claims the first queued one. */
  lemma {:induction false} ClaimFirstInv(s: Stub, len: nat)
    requires Inv(s) && s.parked.None? && s.claim.None? && s.ongoing.None? && s.done != []
    ensures Inv(TakeClaim(s, len))
  {
    hide Message, Returned, WellFormed;
    var t := TakeClaim(s, len);
    assert Stream(s.done) == Message(s.done[0]) + Stream(s.done[1..]);
    hide Stream;
    assert Message(s.done[0])[0..] == Message(s.done[0]);
    assert Tail(s) == [] && Tail(t) == Message(s.done[0]);
    FirstOfRest(Returned(s.returned), Message(s.done[0]), Stream(s.done[1..]));
  }

  lemma {:induction false} FirstOfRest(a: seq<byte>, b: seq<byte>, c: seq<byte>)
    ensures a + [] + (b + c) == a + b + c
  {
  }

  lemma {:induction false} CollectInv(s: Stub, len: nat)
    requires Inv(s) && s.parked.None? && s.claim.None?
    ensures Inv(Collect(s, len))
  {
    hide Message, Stream, Returned, WellFormed;
    if s.ongoing.Some? {
      assert Tail(Collect(s, len)) == Tail(s);
    } else if s.done != [] {
      ClaimFirstInv(s, len);
    } else {
      assert Tail(Collect(s, len)) == Tail(s);
    }
  }

  lemma {:induction false} ClaimIsProper(s: Stub)
    requires Inv(s) && s.claim.Some?
    ensures NextReply(s) < |s.replies| && s.claim.value.res == s.replies[NextReply(s)]
    ensures WellFormed(s.claim.value.res) && s.lenSent < |Message(s.claim.value.res)|
  {
    assert s.claim.value.res in s.replies;
  }

  /** The piece a read returns is the front of the unsent tail. */
  lemma {:induction false} SendBytes(s: Stub)
    requires s.claim.Some? && s.lenSent < |Message(s.claim.value.res)|
    ensures var t := Send(s);
      && |t.returned| == |s.returned| + 1 && t.returned[..|s.returned|] == s.returned
      && var c := t.returned[|s.returned|];
         && c.reply == NextReply(s) && c.from == s.lenSent
         && |c.bytes| == Min(s.claim.value.len, |Message(s.claim.value.res)| - s.lenSent)
         && c.bytes == Message(s.claim.value.res)[c.from..c.from + |c.bytes|]
         && c.bytes + Tail(t) == Tail(s)
  {
    hide SentLen;
    var r := s.claim.value.res;
    var k := SentLen(r, s.lenSent, s.claim.value.len);
    SentLenIsMin(r, s.lenSent, s.claim.value.len);
    hide Message;
    var t := Send(s);
    var c := Chunk(NextReply(s), s.lenSent, Message(r)[s.lenSent..s.lenSent + k]);
    assert t.returned == s.returned + [c];
    assert |c.bytes| == k;
    CutAt(Message(r), s.lenSent, s.lenSent + k);
    assert Tail(t) == Message(r)[s.lenSent + k..];
  }

  lemma {:induction false} SendInv(s: Stub)
    requires Inv(s) && s.claim.Some?
    ensures s.lenSent < |Message(s.claim.value.res)|
    ensures Inv(Send(s))
  {
    hide Message, SentLen, Stream, Returned, WellFormed;
    ClaimIsProper(s);
    SendBytes(s);
    var t := Send(s);
    var c := t.returned[|s.returned|];
    ReturnedAppend(s.returned, c);
    assert t.returned == s.returned + [c];
    Regroup3(Returned(s.returned), c.bytes, Tail(t), Stream(s.done));
    assert OfOneReply(t.replies, c);
  }

  lemma {:induction false} CutAt(m: seq<byte>, i: nat, j: nat)
    requires i <= j <= |m|
    ensures m[i..j] + m[j..] == m[i..]
  {
  }

  lemma {:induction false} ReturnedAppend(cs: seq<Chunk>, c: Chunk)
    ensures Returned(cs + [c]) == Returned(cs) + c.bytes
  {
    assert (cs + [c])[..|cs|] == cs;
  }

  lemma {:induction false} Regroup3(a: seq<byte>, b: seq<byte>, c: seq<byte>, d: seq<byte>)
    ensures a + b + c + d == a + (b + c) + d
  {
  }

  // ---------------------------------------------------------------------------
  // Runs
  // ---------------------------------------------------------------------------

  datatype Step = ReplyStep(res: Res) | CollectStep(len: nat) | SendStep | CancelStep

  /** One read is outstanding at a time, and a reply carries a full header. */
  ghost predicate Enabled(s: Stub, e: Step) {
    match e
    case ReplyStep(r) => WellFormed(r)
    case CollectStep(_) => s.parked.None? && s.claim.None?
    case SendStep => s.claim.Some? && s.lenSent <= |Message(s.claim.value.res)|
    case CancelStep => s.parked.Some?
  }

  ghost function Next(s: Stub, e: Step): Stub
    requires Enabled(s, e)
  {
    match e
    case ReplyStep(r) => Reply(s, r)
    case CollectStep(len) => Collect(s, len)
    case SendStep => Send(s)
    case CancelStep => CancelRead(s)
  }

  ghost predicate Run(s: Stub, es: seq<Step>)
    decreases |es|
  {
    es == [] || (Enabled(s, es[0]) && Run(Next(s, es[0]), es[1..]))
  }

  ghost function After(s: Stub, es: seq<Step>): Stub
    requires Run(s, es)
    decreases |es|
  {
    if es == [] then s else After(Next(s, es[0]), es[1..])
  }

  /** The replies queued by a run, in order. */
  function RepliesOf(es: seq<Step>): seq<Res> {
    if es == [] then [] else (if es[0].ReplyStep? then [es[0].res] else []) + RepliesOf(es[1..])
  }

  lemma {:induction false} StepInv(s: Stub, e: Step)
    requires Inv(s) && Enabled(s, e)
    ensures Inv(Next(s, e))
    ensures Next(s, e).replies == s.replies + if e.ReplyStep? then [e.res] else []
  {
    match e
    case ReplyStep(r) => ReplyInv(s, r);
    case CollectStep(len) => CollectInv(s, len);
    case SendStep => SendInv(s);
    case CancelStep =>
      assert Tail(CancelRead(s)) == Tail(s);
  }

  lemma {:induction false} RunInv(s: Stub, es: seq<Step>)
    requires Inv(s) && Run(s, es)
    ensures Inv(After(s, es)) && After(s, es).replies == s.replies + RepliesOf(es)
    decreases |es|
  {
    hide Inv, Next, Enabled;
    if es == [] {
      assert s.replies + [] == s.replies;
    } else {
      StepInv(s, es[0]);
      var one := if es[0].ReplyStep? then [es[0].res] else [];
      assert s.replies + (one + RepliesOf(es[1..])) == s.replies + one + RepliesOf(es[1..]);
      RunInv(Next(s, es[0]), es[1..]);
    }
  }

  lemma {:induction false} InitInv()
    ensures Inv(Init)
  {
    assert Returned([]) + Tail(Init) + Stream([]) == Stream([]);
  }

  /** The stream refines a plain queue of messages: after any run, what was returned, then the
      unsent rest of the reply in progress, then the queued replies, are exactly the replies
      made so far; and no read returned bytes of two replies. */
  lemma {:induction false} StreamRefinesFifo(es: seq<Step>)
    requires Run(Init, es)
    ensures var t := After(Init, es);
      && Returned(t.returned) + Tail(t) + Stream(t.done) == Stream(RepliesOf(es))
      && Returned(t.returned) <= Stream(RepliesOf(es))
      && forall c :: c in t.returned ==> OfOneReply(RepliesOf(es), c)
  {
    hide Run, After, Inv, Stream, Returned, Tail, RepliesOf;
    InitInv();
    RunInv(Init, es);
    NoneBefore(RepliesOf(es));
    InvMeans(After(Init, es));
  }

  lemma {:induction false} NoneBefore(rs: seq<Res>)
    ensures Init.replies + rs == rs
  {
  }

  lemma {:induction false} InvMeans(t: Stub)
    requires Inv(t)
    ensures Returned(t.returned) + Tail(t) + Stream(t.done) == Stream(t.replies)
    ensures Returned(t.returned) <= Stream(t.replies)
    ensures forall c :: c in t.returned ==> OfOneReply(t.replies, c)
  {
    hide Stream, Returned, Tail;
    assert Returned(t.returned) + Tail(t) + Stream(t.done) == Returned(t.returned) + (Tail(t) + Stream(t.done));
  }

  // ---------------------------------------------------------------------------
  // Progress
  // ---------------------------------------------------------------------------

  /** Bytes replied but not yet returned. */
  function Backlog(s: Stub): nat {
    |Tail(s)| + |Stream(s.done)|
  }

  /** A read is parked exactly when nothing is left to return. */
  lemma {:induction false} ParksIffDrained(s: Stub, len: nat)
    requires Inv(s) && s.parked.None? && s.claim.None?
    ensures Collect(s, len).parked.Some? <==> Backlog(s) == 0
    ensures Backlog(s) == 0 <==> Returned(s.returned) == Stream(s.replies)
  {
    if s.done != [] {
      assert s.done[0] in s.replies;
      assert Stream(s.done) == Message(s.done[0]) + Stream(s.done[1..]);
    }
    assert |Returned(s.returned) + Tail(s) + Stream(s.done)| == |Returned(s.returned)| + Backlog(s);
  }

  lemma {:induction false} ParkedMeansDrained(s: Stub)
    requires Inv(s) && s.parked.Some?
    ensures Backlog(s) == 0 && Returned(s.returned) == Stream(s.replies)
  {
  }

  /** A read of positive length returns at least one byte, and as many as the rest of the
      reply in progress and the length of the read allow. */
  lemma {:induction false} SendProgress(s: Stub)
    requires Inv(s) && s.claim.Some? && s.claim.value.len > 0
    ensures s.lenSent < |Message(s.claim.value.res)|
    ensures var t := Send(s);
      && |t.returned| == |s.returned| + 1
      && var got := |t.returned[|s.returned|].bytes|;
         got == Min(s.claim.value.len, |Tail(s)|) && got >= 1 && Backlog(t) == Backlog(s) - got
  {
    SendInv(s);
    SentLenIsMin(s.claim.value.res, s.lenSent, s.claim.value.len);
  }

  /** One whole read: it parks or returns a piece. */
  function ReadOnce(s: Stub, len: nat): Stub {
    var t := Collect(s, len);
    if t.claim.Some? && t.lenSent <= |Message(t.claim.value.res)| then Send(t) else t
  }

  /** Reads of the given lengths, until one is parked. */
  function Reads(s: Stub, lens: seq<nat>): Stub
    decreases |lens|
  {
    if lens == [] || s.parked.Some? then s else Reads(ReadOnce(s, lens[0]), lens[1..])
  }

  lemma {:induction false} ReadOnceProgress(s: Stub, len: nat)
    requires Inv(s) && s.parked.None? && s.claim.None? && len > 0
    ensures var t := ReadOnce(s, len);
      && Inv(t) && t.claim.None? && t.replies == s.replies
      && (if Backlog(s) == 0 then t.parked.Some? else t.parked.None? && Backlog(t) < Backlog(s))
  {
    ParksIffDrained(s, len);
    CollectInv(s, len);
    var c := Collect(s, len);
    if c.claim.Some? {
      SendInv(c);
      SendProgress(c);
      assert Backlog(c) == Backlog(s) by {
        assert |Returned(c.returned) + Tail(c) + Stream(c.done)| == |Returned(s.returned) + Tail(s) + Stream(s.done)|;
      }
    }
  }

  /** Repeated reads of any positive lengths return every queued byte, after which one parks. */
  lemma {:induction false} ReadsDrain(s: Stub, lens: seq<nat>)
    requires Inv(s) && s.claim.None?
    requires forall i :: 0 <= i < |lens| ==> lens[i] > 0
    requires |lens| > Backlog(s)
    ensures var t := Reads(s, lens);
      Inv(t) && t.parked.Some? && Returned(t.returned) == Stream(s.replies)
    decreases |lens|
  {
    if s.parked.Some? {
      ParkedMeansDrained(s);
    } else {
      ReadOnceProgress(s, lens[0]);
      var t := ReadOnce(s, lens[0]);
      if t.parked.Some? {
        ParkedMeansDrained(t);
      } else {
        ReadsDrain(t, lens[1..]);
      }
    }
  }

  // ---------------------------------------------------------------------------
  // The driver's code
  // ---------------------------------------------------------------------------

  /** A read request: its system buffer and the number of bytes it completed with. */
  class ReadIrp {
    const buffer: array<byte>
    var information: nat

    constructor (length: nat)
      ensures fresh(buffer) && buffer.Length == length
    {
      buffer := new byte[length](_ => 0);
      information := 0;
    }
  }

  class StubDev {
    var irpStubRead: ReadIrp?
    var sresOngoing: Option<Res>
    var lenSentPartial: nat
    var sresHeadDone: seq<Res>
    ghost var claimed: Option<Claim>
    ghost var replies: seq<Res>
    ghost var returned: seq<Chunk>

    constructor ()
      ensures State() == Init && Inv(State())
    {
      irpStubRead := null;
      sresOngoing, lenSentPartial, sresHeadDone := None, 0, [];
      claimed, replies, returned := None, [], [];
      new;
      InitInv();
    }

    ghost function State(): Stub
      reads this
    {
      Stub(if irpStubRead == null then None else Some(irpStubRead.buffer.Length),
           sresOngoing, lenSentPartial, sresHeadDone, claimed, replies, returned)
    }

    /** Copies data to the read buffer at offset, as far as it fits. */
    static method StoreIrpStubRes(irp: ReadIrp, offset: nat, data: seq<byte>) returns (storeLen: nat)
      requires offset <= irp.buffer.Length
      modifies irp.buffer
      ensures storeLen == Min(irp.buffer.Length - offset, |data|)
      ensures irp.buffer[..] == old(irp.buffer[..offset]) + data[..storeLen] + old(irp.buffer[offset + storeLen..])
    {
      if irp.buffer.Length - offset < |data| {
        storeLen := irp.buffer.Length - offset;
      } else {
        storeLen := |data|;
      }
      if storeLen == 0 {
        return;
      }
      forall i | 0 <= i < storeLen {
        irp.buffer[offset + i] := data[i];
      }
    }

    method SavePendingSres(sres: Option<Res>)
      modifies this`sresOngoing, this`lenSentPartial
      ensures sresOngoing == sres
      ensures lenSentPartial == if sres.None? then 0 else old(lenSentPartial)
    {
      sresOngoing := sres;
      if sres.None? {
        lenSentPartial := 0;
      }
    }

    /** What is left of the header, as far as it fits. */
    method StoreHeader(irp: ReadIrp, sres: Res) returns (sent: nat)
      requires WellFormed(sres) && lenSentPartial <= |Message(sres)|
      modifies this`lenSentPartial, irp.buffer
      ensures lenSentPartial == old(lenSentPartial) + sent
      ensures sent == if old(lenSentPartial) >= HEADER_SIZE then 0
                      else Min(irp.buffer.Length, HEADER_SIZE - old(lenSentPartial))
      ensures irp.buffer[..sent] == Message(sres)[old(lenSentPartial)..old(lenSentPartial) + sent]
      ensures forall i :: sent <= i < irp.buffer.Length ==> irp.buffer[i] == old(irp.buffer[i])
    {
      sent := 0;
      if lenSentPartial < HEADER_SIZE {
        sent := StoreIrpStubRes(irp, 0, sres.header[lenSentPartial..]);
        lenSentPartial := lenSentPartial + sent;
      }
    }

    /** The header is out: what is left of the data, as far as it fits behind it. */
    method StoreData(irp: ReadIrp, sres: Res, sent: nat) returns (payload: nat)
      requires WellFormed(sres) && sent <= irp.buffer.Length
      requires HEADER_SIZE <= lenSentPartial <= |Message(sres)|
      modifies this`sresOngoing, this`lenSentPartial, irp.buffer
      ensures payload == Min(irp.buffer.Length - sent, |Message(sres)| - old(lenSentPartial))
      ensures irp.buffer[..sent] == old(irp.buffer[..sent])
      ensures irp.buffer[sent..sent + payload] == Message(sres)[old(lenSentPartial)..old(lenSentPartial) + payload]
      ensures forall i :: sent + payload <= i < irp.buffer.Length ==> irp.buffer[i] == old(irp.buffer[i])
      ensures if old(lenSentPartial) + payload == |Message(sres)| then sresOngoing == None && lenSentPartial == 0
              else sresOngoing == Some(sres) && lenSentPartial == old(lenSentPartial) + payload
    {
      var dataLenSent := lenSentPartial - HEADER_SIZE;
      var dataLen := |sres.data| - dataLenSent;
      payload := 0;
      if dataLen > 0 {
        payload := StoreIrpStubRes(irp, sent, sres.data[dataLenSent..]);
        DataPiece(sres, dataLenSent, payload);
        lenSentPartial := lenSentPartial + payload;
        if payload < dataLen {
          SavePendingSres(Some(sres));
        } else {
          SavePendingSres(None);
        }
      } else {
        SavePendingSres(None);
      }
    }

    /** Stores the next piece of a claimed reply in the read buffer: what is left of the header,
        and behind it what fits of the data. */
    method SendStubRes(irp: ReadIrp, sres: Res)
      requires Inv(State()) && claimed == Some(Claim(irp.buffer.Length, sres))
      modifies this, irp`information, irp.buffer
      ensures old(lenSentPartial) < |Message(sres)|
      ensures Inv(State()) && State() == Send(old(State()))
      ensures irp.information <= irp.buffer.Length
      ensures returned
              == old(returned) + [Chunk(NextReply(old(State())), old(lenSentPartial), irp.buffer[..irp.information])]
      ensures forall i :: irp.information <= i < irp.buffer.Length ==> irp.buffer[i] == old(irp.buffer[i])
    {
      hide Inv, Send, SentLen, NextReply, Message;
      ghost var start, was := lenSentPartial, State();
      ClaimIsProper(was);
      MessageLength(sres);
      SendInv(was);
      var sent := StoreHeader(irp, sres);
      if lenSentPartial < HEADER_SIZE {
        SavePendingSres(Some(sres));
        irp.information := sent;
      } else {
        var payload := StoreData(irp, sres, sent);
        irp.information := sent + payload;
        Join(Message(sres), irp.buffer[..], start, sent, payload);
      }
      ghost var piece := irp.buffer[..][..irp.information];
      assert piece == irp.buffer[..irp.information];
      Returns(Chunk(NextReply(was), start, piece));
      SentIs(was, State(), irp.buffer.Length, sres, irp.information);
    }

    /** The read completes with the bytes stored in its buffer. */
    ghost method Returns(c: Chunk)
      modifies this`claimed, this`returned
      ensures claimed == None && returned == old(returned) + [c]
    {
      returned := returned + [c];
      claimed := None;
    }

    /** Pairs the outstanding read with the reply in progress or the first queued one, up to
        the release of the lock; SendStubRes follows. */
    method SendIrpSres() returns (irp: ReadIrp, sres: Res)
      requires irpStubRead != null && (sresOngoing.Some? || sresHeadDone != [])
      modifies this
      ensures irp == old(irpStubRead)
      ensures State() == TakeClaim(old(State()), irp.buffer.Length) && claimed == Some(Claim(irp.buffer.Length, sres))
    {
      irp := irpStubRead;
      irpStubRead := null;
      if sresOngoing.Some? {
        sres := sresOngoing.value;
      } else {
        sres := sresHeadDone[0];
        sresHeadDone := sresHeadDone[1..];
      }
      claimed := Some(Claim(irp.buffer.Length, sres));
    }

    /** Parks the read if there is nothing to return; otherwise hands out a reply for it. */
    method CollectDoneStubRes(irp: ReadIrp) returns (sres: Option<Res>)
      requires Inv(State()) && irpStubRead == null && claimed.None?
      modifies this
      ensures Inv(State()) && State() == Collect(old(State()), irp.buffer.Length)
      ensures sres.None? <==> old(sresOngoing.None? && sresHeadDone == [])
      ensures sres.None? ==> irpStubRead == irp
      ensures sres.Some? ==> claimed == Some(Claim(irp.buffer.Length, sres.value))
    {
      hide Inv;
      CollectInv(State(), irp.buffer.Length);
      if sresOngoing.None? && sresHeadDone == [] {
        irpStubRead := irp;
        sres := None;
      } else {
        irpStubRead := irp;
        var _, r := SendIrpSres();
        sres := Some(r);
      }
    }

    /** Queues a reply; a parked read takes one at once. */
    method ReplyStubReq(r: Res) returns (irp: ReadIrp?, sres: Option<Res>)
      requires Inv(State()) && WellFormed(r)
      modifies this
      ensures Inv(State()) && State() == Reply(old(State()), r)
      ensures irp == old(irpStubRead) && (irp == null <==> sres.None?)
      ensures irp != null ==> claimed == Some(Claim(irp.buffer.Length, sres.value))
    {
      hide Inv, Stream;
      ReplyInv(State(), r);
      sresHeadDone := sresHeadDone + [r];
      replies := replies + [r];
      if irpStubRead == null {
        irp, sres := null, None;
      } else {
        var i, s := SendIrpSres();
        irp, sres := i, Some(s);
      }
    }

    /** The framework cancels a read: if it is the parked one, no reply will be handed to it,
        and nothing of the stream is lost with it. */
    method OnIrpReadCancelled(irp: ReadIrp)
      requires Inv(State())
      modifies this`irpStubRead
      ensures Inv(State()) && irpStubRead != irp
      ensures State() == old(State()) || (old(irpStubRead) == irp && State() == CancelRead(old(State())))
    {
      hide Inv;
      StepInvCancel(State());
      if irpStubRead == irp {
        irpStubRead := null;
      }
    }
  }

  lemma {:induction false} StepInvCancel(s: Stub)
    requires Inv(s)
    ensures Inv(CancelRead(s))
  {
    assert Tail(CancelRead(s)) == Tail(s);
  }

  lemma {:induction false} MessageLength(r: Res)
    requires WellFormed(r)
    ensures |Message(r)| == HEADER_SIZE + |r.data|
  {
  }

  lemma {:induction false} DataPiece(r: Res, from: nat, k: nat)
    requires WellFormed(r) && from + k <= |r.data|
    ensures Message(r)[HEADER_SIZE + from..HEADER_SIZE + from + k] == r.data[from..][..k]
  {
  }

  /** The two parts a read stores are together the next stretch of the message. */
  lemma {:induction false} Join(m: seq<byte>, b: seq<byte>, start: nat, sent: nat, payload: nat)
    requires sent + payload <= |b| && start + sent + payload <= |m|
    requires b[..sent] == m[start..start + sent]
    requires b[sent..sent + payload] == m[start + sent..start + sent + payload]
    ensures b[..sent + payload] == m[start..start + sent + payload]
  {
    assert b[..sent + payload] == b[..sent] + b[sent..sent + payload];
  }

  /** The new state once the piece is stored and the rest saved. */
  lemma {:induction false} SentIs(s: Stub, t: Stub, len: nat, r: Res, k: nat)
    requires s.claim == Some(Claim(len, r)) && s.lenSent <= |Message(r)|
    requires k == Min(len, |Message(r)| - s.lenSent)
    requires t == s.(claim := None, ongoing := t.ongoing, lenSent := t.lenSent, returned := t.returned)
    requires t.returned == s.returned + [Chunk(NextReply(s), s.lenSent, Message(r)[s.lenSent..s.lenSent + k])]
    requires if s.lenSent + k == |Message(r)| then t.ongoing.None? && t.lenSent == 0
             else t.ongoing == Some(r) && t.lenSent == s.lenSent + k
    ensures t == Send(s)
  {
    SentLenIsMin(r, s.lenSent, len);
  }
}
