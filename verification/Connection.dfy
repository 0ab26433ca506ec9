/** One connection through the forwarder: requests pass one way and enter their directions in the
    cache, replies come back and are framed by what the cache says. The threads of both sides take
    their steps in any order. */
module Connection {
  import opened Bytes
  import opened PduCodec
  import opened HdrsCache
  import opened Framing
  import opened Forwarder
  import opened Delivery

  // ---------------------------------------------------------------------------
  // The requests of a connection
  // ---------------------------------------------------------------------------

  /** What the cache takes from a request's header. */
  function RequestOf(m: Mode, h: seq<byte>): Request {
    if |h| < HEADER_SIZE then Request(true, 0) else Request(IsUnlink(m, h), Word(h, DIRECTION))
  }

  function RequestsOf(m: Mode, hs: seq<seq<byte>>): (rs: seq<Request>)
    ensures |rs| == |hs|
  {
    seq(|hs|, k requires 0 <= k < |hs| => RequestOf(m, hs[k]))
  }

  /** Requests are numbered consecutively from first on. */
  predicate Numbered(first: u32, hs: seq<seq<byte>>) {
    forall k :: 0 <= k < |hs| ==> HEADER_SIZE <= |hs[k]| && Word(hs[k], SEQNUM) == Number(first, k)
  }

  /** The direction of the last of the requests with this number, or the given one. */
  function DirectionOf(first: u32, reqs: seq<Request>, seqnum: u32, direction: u32): u32
    decreases |reqs|
  {
    if reqs == [] then direction
    else
      var k := |reqs| - 1;
      if Number(first, k) == seqnum && !reqs[k].unlink then reqs[k].direction
      else DirectionOf(first, reqs[..k], seqnum, direction)
  }

  /** A reply has the direction of the request whose number it carries. */
  function DirectionsOf(first: u32, reqs: seq<Request>): seq<byte> -> u32 {
    h => if |h| < HEADER_SIZE then 0 else DirectionOf(first, reqs, Word(h, SEQNUM), Word(h, DIRECTION))
  }

  /** Fewer than 2^32 requests have different numbers. */
  lemma {:induction false} DirectionFound(first: u32, reqs: seq<Request>, k: nat, direction: u32)
    requires k < |reqs| <= k + 0x1_0000_0000 && !reqs[k].unlink
    ensures DirectionOf(first, reqs, Number(first, k), direction) == reqs[k].direction
    decreases |reqs|
  {
    var n := |reqs| - 1;
    if k < n {
      NumbersDistinct(first, n, k);
      DirectionFound(first, reqs[..n], k, direction);
    }
  }

  // ---------------------------------------------------------------------------
  // The two readers
  // ---------------------------------------------------------------------------

  lemma {:induction false} OneMoreRequest(m: Mode, hs: seq<seq<byte>>, h: seq<byte>)
    ensures RequestsOf(m, hs + [h]) == RequestsOf(m, hs) + [RequestOf(m, h)]
  {
  }

  lemma {:induction false} MoreRequests(m: Mode, hs: seq<seq<byte>>, news: seq<seq<byte>>)
    ensures RequestsOf(m, hs + news) == RequestsOf(m, hs) + RequestsOf(m, news)
  {
  }

  /** The first look at a request's header enters it, a later one leaves the cache as it is. */
  lemma {:induction false} LookEnters(m: Mode, start: Slots, first: u32, hs: seq<seq<byte>>, h: seq<byte>, isNew: bool)
    requires m.isReq && HEADER_SIZE <= |h|
    requires if isNew then Word(h, SEQNUM) == Number(first, |hs|)
             else |hs| > 0 && hs[|hs| - 1] == h && Word(h, SEQNUM) == Number(first, |hs| - 1)
    ensures var more := if isNew then hs + [h] else hs;
      CacheAfter(m, InsertedAll(start, first, RequestsOf(m, hs)), h) == InsertedAll(start, first, RequestsOf(m, more))
  {
    var before := if isNew then hs else hs[..|hs| - 1];
    assert (if isNew then hs + [h] else hs) == before + [h];
    OneMoreRequest(m, before, h);
    assert Word(h, SEQNUM) == Number(first, |RequestsOf(m, before)|);
    RequestEntersOnce(m, start, first, RequestsOf(m, before), h);
  }

  /** The header carries the number of the k-th request, which is not an unlink. */
  predicate Answers(h: seq<byte>, first: u32, reqs: seq<Request>, k: nat)
    requires HEADER_SIZE <= |h|
  {
    k < |reqs| && !reqs[k].unlink && Word(h, SEQNUM) == Number(first, k)
  }

  /** A reply, looked at for the first time, to a request whose slot was not taken or whose
      direction it carries itself. */
  predicate Timely(h: seq<byte>, first: u32, reqs: seq<Request>)
    requires HEADER_SIZE <= |h|
  {
    exists k | 0 <= k < |reqs| ::
      Answers(h, first, reqs, k) && (Cached(reqs, k) || Word(h, DIRECTION) == reqs[k].direction)
  }

  /** No later request took the slot of the k-th. */
  predicate Cached(reqs: seq<Request>, k: nat) {
    forall j: nat | k < j < |reqs| :: !Evicts(reqs, j, k)
  }

  /** The cache gives a reply the direction of its request at the first look if and only if the
      look is timely. */
  lemma {:induction false} FirstLookIff(m: Mode, start: Slots, first: u32, reqs: seq<Request>, h: seq<byte>, k: nat)
    requires HEADER_SIZE <= |h| && TakesDirection(m, h) && |reqs| <= 0x1_0000_0000 && Answers(h, first, reqs, k)
    ensures Direction(m, InsertedAll(start, first, reqs), h) == reqs[k].direction <==> Timely(h, first, reqs)
  {
    HitIffNotEvicted(start, first, reqs, k, Word(h, DIRECTION));
    assert Cached(reqs, k) <==> forall j :: !Evicts(reqs, j, k);
    forall i: nat | Answers(h, first, reqs, i)
      ensures i == k
    {
      OneAnswer(h, first, reqs, i, k);
    }
  }

  /** Fewer than 2^32 requests have different numbers, so a reply answers one of them at most. */
  lemma {:induction false} OneAnswer(h: seq<byte>, first: u32, reqs: seq<Request>, i: nat, k: nat)
    requires HEADER_SIZE <= |h| && |reqs| <= 0x1_0000_0000
    requires Answers(h, first, reqs, i) && Answers(h, first, reqs, k)
    ensures i == k
  {
    if i < k {
      NumbersDistinct(first, k, i);
    } else if k < i {
      NumbersDistinct(first, i, k);
    }
  }

  /** A reply can come too late: the first of 1025 IN requests has lost its slot to the last, and
      the header of its reply says OUT. */
  lemma {:induction false} LateReply(h: seq<byte>)
    requires HEADER_SIZE <= |h| && Word(h, SEQNUM) == 0 && Word(h, DIRECTION) == DIR_OUT
    ensures var reqs := seq(SIZE + 1, _ => Request(false, 1)); Answers(h, 0, reqs, 0) && !Timely(h, 0, reqs)
  {
    var reqs := seq(SIZE + 1, _ => Request(false, 1));
    assert Answers(h, 0, reqs, 0) && Evicts(reqs, SIZE, 0);
    forall k: nat | Answers(h, 0, reqs, k)
      ensures k == 0
    {
      OneAnswer(h, 0, reqs, k, 0);
    }
  }

  /** A reply to one of the last 1024 requests is timely. */
  lemma {:induction false} RecentIsTimely(h: seq<byte>, first: u32, reqs: seq<Request>, k: nat)
    requires HEADER_SIZE <= |h| && Answers(h, first, reqs, k) && |reqs| <= k + SIZE
    ensures Timely(h, first, reqs)
  {
    assert forall j: nat | k < j < |reqs| :: !Evicts(reqs, j, k);
  }

  /** So is a reply to an OUT request whose header says OUT, however many requests came in
      between. */
  lemma {:induction false} OutIsTimely(h: seq<byte>, first: u32, reqs: seq<Request>, k: nat)
    requires HEADER_SIZE <= |h| && Answers(h, first, reqs, k)
    requires Word(h, DIRECTION) == DIR_OUT == reqs[k].direction
    ensures Timely(h, first, reqs)
  {
  }

  /** A later look finds the direction in the cache or, as the first look put it there, in the
      header. */
  lemma {:induction false} LaterLook(m: Mode, start: Slots, first: u32, reqs: seq<Request>, h: seq<byte>, k: nat)
    requires HEADER_SIZE <= |h| && TakesDirection(m, h) && |reqs| <= 0x1_0000_0000 && Answers(h, first, reqs, k)
    requires Word(h, DIRECTION) == reqs[k].direction
    ensures Direction(m, InsertedAll(start, first, reqs), h) == reqs[k].direction
  {
    HitIffNotEvicted(start, first, reqs, k, Word(h, DIRECTION));
  }

  /** The header of a reply in progress is the one that arrived, or has the direction found for it. */
  lemma {:induction false} ReplyPending(d: Devbuf)
    requires d.bufp.Holds(d.mode) && d.LookedUp() && d.bufp.stepReading < 3 && HEADER_SIZE <= d.bufp.offp
    requires TakesDirection(d.mode, d.bufp.Pending(d.mode))
    ensures var h := HostHeader(d.mode, d.bufp.raw); var p := d.bufp.Pending(d.mode);
      && Word(p, SEQNUM) == Word(h, SEQNUM) && TakesDirection(d.mode, h)
      && (d.bufp.stepReading < 2 ==> p == h)
      && (d.bufp.stepReading == 2 ==> Word(p, DIRECTION) == d.Dir(d.bufp.raw)
                                      && |d.Looked()| > 0 && d.Looked()[|d.Looked()| - 1] == h)
      && d.Dir(d.bufp.raw) == d.look(h)
  {
    var h := HostHeader(d.mode, d.bufp.raw);
    DirectionStays(d.mode, h, d.bufp.dir);
    WordOfPutWord(h, DIRECTION, d.bufp.dir);
  }

  /** The header of a request in progress is the one that arrived. */
  lemma {:induction false} RequestPending(d: Devbuf)
    requires d.bufp.Holds(d.mode) && d.bufp.stepReading < 3 && HEADER_SIZE <= d.bufp.offp && d.mode.isReq
    ensures d.bufp.Pending(d.mode) == HostHeader(d.mode, d.bufp.raw)
    ensures forall s :: d.Agrees(s)
    ensures d.bufp.stepReading == 2 ==>
              |d.Looked()| > 0 && d.Looked()[|d.Looked()| - 1] == HostHeader(d.mode, d.bufp.raw)
  {
  }

  /** Every reply looked at so far answers a request looked at so far. */
  ghost predicate Answered(m: Mode, hs: seq<seq<byte>>, first: u32, reqs: seq<Request>) {
    forall i :: 0 <= i < |hs| && HEADER_SIZE <= |hs[i]| && TakesDirection(m, hs[i]) ==>
      exists k: nat :: Answers(hs[i], first, reqs, k)
  }

  lemma {:induction false} AnsweredGrows(m: Mode, hs: seq<seq<byte>>, first: u32, reqs: seq<Request>,
                                         more: seq<Request>)
    requires Answered(m, hs, first, reqs) && reqs <= more
    ensures Answered(m, hs, first, more)
  {
    forall i | 0 <= i < |hs| && HEADER_SIZE <= |hs[i]| && TakesDirection(m, hs[i])
      ensures exists k: nat :: Answers(hs[i], first, more, k)
    {
      var k: nat :| Answers(hs[i], first, reqs, k);
      assert Answers(hs[i], first, more, k);
    }
  }

  /** A header is complete but was not looked at. */
  predicate HasNewHeader(d: Devbuf)
    reads d`bufp, d.bufp
  {
    d.bufp.stepReading < 2 && HEADER_SIZE <= d.bufp.offp <= d.bufp.buff.Length
  }

  function NewHeader(d: Devbuf): (h: seq<byte>)
    reads d`bufp, d.bufp, d.bufp.buff
    ensures HasNewHeader(d) ==> |h| == HEADER_SIZE
  {
    if HasNewHeader(d) then HostHeader(d.mode, d.bufp.buff[..d.bufp.offp]) else []
  }

  lemma {:induction false} HeaderInBuffer(d: Devbuf)
    requires d.bufp.Holds(d.mode)
    ensures HasNewHeader(d) <==> d.bufp.stepReading < 2 && HEADER_SIZE <= d.bufp.offp
    ensures HasNewHeader(d) ==> NewHeader(d) == HostHeader(d.mode, d.bufp.raw)
  {
    hide HostHeader, Header, Restored, Plain, Total, IsPdu, Output;
  }

  lemma {:induction false} OneMoreAnswered(m: Mode, hs: seq<seq<byte>>, h: seq<byte>, first: u32, reqs: seq<Request>)
    requires Answered(m, hs, first, reqs) && HEADER_SIZE <= |h|
    requires TakesDirection(m, h) ==> Timely(h, first, reqs)
    ensures Answered(m, hs + [h], first, reqs)
  {
    if TakesDirection(m, h) {
      var k :| 0 <= k < |reqs| && Answers(h, first, reqs, k);
    }
  }

  /** A first look has to be timely; a later one may come at any time. */
  predicate MayLook(replies: Devbuf, first: u32, reqs: seq<Request>)
    reads replies`bufp, replies.bufp, replies.bufp.buff
  {
    HasNewHeader(replies) && TakesDirection(replies.mode, NewHeader(replies)) ==>
      Timely(NewHeader(replies), first, reqs)
  }

  /** What the cache, filled by the requests looked at so far, says about a reply is its request's
      direction, which is the one the connection's requests give it, those to come included. */
  lemma {:induction false} CacheAgrees(replies: Devbuf, start: Slots, first: u32, reqs: seq<Request>,
                                       all: seq<Request>)
    requires replies.bufp.Holds(replies.mode) && replies.LookedUp()
    requires MayLook(replies, first, reqs) && Answered(replies.mode, replies.Looked(), first, reqs)
    requires replies.look == DirectionsOf(first, all) && reqs <= all && |all| <= 0x1_0000_0000
    ensures replies.Agrees(InsertedAll(start, first, reqs))
  {
    var m, b := replies.mode, replies.bufp;
    if b.stepReading < 3 && HEADER_SIZE <= b.offp && TakesDirection(m, b.Pending(m)) {
      hide Buffer.Holds, Buffer.Pending, Devbuf.Looked, InsertedAll, Direction, TakesDirection, HostHeader, Devbuf.Dir;
      HeaderInBuffer(replies);
      ReplyPending(replies);
      var h := HostHeader(m, b.raw);
      var k: nat :| Answers(h, first, reqs, k);
      assert Answers(b.Pending(m), first, reqs, k);
      DirectionFound(first, all, k, Word(h, DIRECTION));
      assert all[k] == reqs[k];
      if b.stepReading == 2 {
        LaterLook(m, start, first, reqs, b.Pending(m), k);
      } else {
        FirstLookIff(m, start, first, reqs, h, k);
      }
    }
  }

  // ---------------------------------------------------------------------------
  // Runs
  // ---------------------------------------------------------------------------

  /** The header of the next request has the next number. */
  lemma {:induction false} NextNumber(l: Line, first: u32)
    requires l.Valid() && Numbered(first, HeadersOf(l.dev.mode, l.msgs))
    ensures l.dev.bufp.Holds(l.dev.mode) && |l.dev.bufp.raw| == l.dev.bufp.offp && 0 <= l.dev.bufp.stepReading <= 3
    ensures l.dev.bufp.stepReading == 2 ==> HEADER_SIZE <= l.dev.bufp.offp && 0 < |l.dev.Looked()|
    ensures HEADER_SIZE <= |l.dev.bufp.raw| ==>
              var h, n := HostHeader(l.dev.mode, l.dev.bufp.raw), |l.dev.Looked()|;
              && (l.dev.bufp.stepReading < 2 ==> Word(h, SEQNUM) == Number(first, n))
              && (l.dev.bufp.stepReading == 2 ==> Word(h, SEQNUM) == Number(first, n - 1))
  {
    hide Devbuf.Valid, Framed, Concat, Buffer.Holds, HostHeader, Devbuf.PlainLengths;
    HeaderIsNext(l.dev, l.msgs);
    OwnParts(l.dev);
  }

  lemma {:induction false} NothingLooked(m: Mode, back: Mode, s: Slots, first: u32)
    ensures RequestsOf(m, []) == [] && InsertedAll(s, first, []) == s && Answered(back, [], first, [])
  {
  }

  /** The requests in a stream of messages. */
  function RequestsIn(m: Mode, msgs: seq<seq<byte>>): (rs: seq<Request>)
    ensures |rs| == |msgs|
  {
    RequestsOf(m, HeadersOf(m, msgs))
  }

  /** The messages that pass over a connection: requests with consecutive numbers, at most 2^32,
      and replies whose lengths follow from the directions of these requests. */
  ghost predicate Conversation(requestMode: Mode, replyMode: Mode, first: u32, questions: seq<seq<byte>>,
                               answers: seq<seq<byte>>)
  {
    && requestMode.isReq && !replyMode.isReq && |questions| <= 0x1_0000_0000
    && Framed(requestMode, h => 0, questions) && Numbered(first, HeadersOf(requestMode, questions))
    && Framed(replyMode, DirectionsOf(first, RequestsIn(requestMode, questions)), answers)
  }

  datatype Side = Requests | Replies

  /** Any thread of either side takes a step. */
  datatype Event = Event(side: Side, op: Op)

  /** A connection: two lines that share the cache, and what the cache was filled with. */
  class Relay {
    const requests: Line
    const replies: Line
    const cache: Cache
    const first: u32
    ghost const start: Slots
    /** The requests looked at so far. */
    var looked: seq<Request>

    /** The requests of the connection, those to come included. */
    ghost function All(): seq<Request> {
      RequestsIn(requests.dev.mode, requests.msgs)
    }

    ghost function Repr(): set<object>
      reads requests.dev`chain, requests.dev.chain`buff, replies.dev`chain, replies.dev.chain`buff
    {
      requests.Repr() + replies.Repr() + {this, cache.slots}
    }

    /** The two sides share the cache only. */
    ghost predicate Separate()
      reads requests.dev`chain, requests.dev.chain`buff, replies.dev`chain, replies.dev.chain`buff
    {
      && requests.Repr() !! replies.Repr()
      && this !in requests.Repr() + replies.Repr() && cache.slots as object !in requests.Repr() + replies.Repr()
    }

    /** What was promised for the connection: requests have consecutive numbers, at most 2^32,
        and the directions of the replies are those of the requests. */
    ghost predicate Promised() {
      && requests.dev.mode.isReq && !replies.dev.mode.isReq
      && Numbered(first, HeadersOf(requests.dev.mode, requests.msgs)) && |All()| <= 0x1_0000_0000
      && replies.dev.look == DirectionsOf(first, All())
    }

    /** The cache was filled by the requests looked at so far, and the replies looked at so far
        answer some of these. */
    ghost predicate Synced()
      requires cache.Valid()
      reads this, cache.slots
      reads requests.dev`raws, requests.dev`bufp, requests.dev.bufp`stepReading, requests.dev.bufp`raw
      reads replies.dev`raws, replies.dev`bufp, replies.dev.bufp`stepReading, replies.dev.bufp`raw
    {
      && looked == RequestsOf(requests.dev.mode, requests.dev.Looked())
      && cache.Contents() == InsertedAll(start, first, looked)
      && Answered(replies.dev.mode, replies.dev.Looked(), first, looked)
    }

    ghost predicate Valid()
      reads this, cache.slots, requests, requests.dev, requests.dev.chain, set b | b in requests.dev.chain :: b.buff
      reads requests.dev.bufp, requests.dev.bufc, requests.dev.bufc.buff
      reads replies, replies.dev, replies.dev.chain, set b | b in replies.dev.chain :: b.buff
      reads replies.dev.bufp, replies.dev.bufc, replies.dev.bufc.buff
    {
      && requests.Valid() && replies.Valid() && cache.Valid()
      && Separate() && Promised() && Synced()
    }

    /** A connection over which the given messages will pass. */
    constructor (requestMode: Mode, replyMode: Mode, n: u32, questions: seq<seq<byte>>, answers: seq<seq<byte>>)
      requires Conversation(requestMode, replyMode, n, questions, answers)
      ensures Valid() && fresh(Repr())
      ensures requests.msgs == questions && replies.msgs == answers && first == n
      ensures requests.dev.mode == requestMode && replies.dev.mode == replyMode
    {
      hide Line.Valid, Framed, Numbered, HeadersOf, RequestsOf, DirectionsOf, Devbuf.Looked, InsertedAll, Parts;
      hide Line.Repr, Answered, RequestsIn, Devbuf.Valid, Line.Left;
      ghost var all := RequestsIn(requestMode, questions);
      var c := new Cache();
      requests := new Line(requestMode, h => 0, questions);
      replies := new Line(replyMode, DirectionsOf(n, all), answers);
      cache, start := c, c.Contents();
      first, looked := n, [];
      NothingLooked(requestMode, replyMode, c.Contents(), n);
      new;
      assert Separate();
      assert Promised();
      assert Synced();
    }

    ghost function Left(): int
      reads requests.dev, requests.dev.bufp, replies.dev, replies.dev.bufp
    {
      requests.Left() + replies.Left()
    }

    /** The next look of the reader of requests keeps the cache in step. */
    lemma {:induction false} RequestStep()
      requires Valid()
      ensures requests.dev.bufp.Holds(requests.dev.mode) && requests.dev.Agrees(cache.Contents())
      ensures var news := RequestsOf(requests.dev.mode,
                                     if HasNewHeader(requests.dev) then [NewHeader(requests.dev)] else []);
        && RequestsOf(requests.dev.mode, LookedNext(requests.dev)) == looked + news
        && Answered(replies.dev.mode, replies.dev.Looked(), first, looked + news)
        && SlotsNext(requests.dev, cache.Contents()) == InsertedAll(start, first, looked + news)
    {
      hide Line.Valid, Devbuf.Looked, Buffer.Holds, Buffer.Pending, HostHeader, CacheAfter, InsertedAll;
      hide Numbered, HeadersOf, Answered, Line.Repr, RequestsOf, Devbuf.Agrees, NewHeader, HasNewHeader;
      var m, hs := requests.dev.mode, requests.dev.Looked();
      var news := if HasNewHeader(requests.dev) then [NewHeader(requests.dev)] else [];
      NextNumber(requests, first);
      HeaderInBuffer(requests.dev);
      if requests.dev.bufp.stepReading < 3 && HEADER_SIZE <= requests.dev.bufp.offp {
        RequestPending(requests.dev);
        LookEnters(m, start, first, hs, HostHeader(m, requests.dev.bufp.raw), HasNewHeader(requests.dev));
      } else {
        requests.dev.NothingAgrees(cache.Contents());
      }
      MoreRequests(m, hs, news);
      assert hs + [] == hs;
      AnsweredGrows(replies.dev.mode, replies.dev.Looked(), first, looked, looked + RequestsOf(m, news));
    }

    /** A step of the reader of requests. */
    method ReadRequest(readOk: bool)
      requires Valid()
      modifies Repr()
      ensures Valid() && fresh(Repr() - old(Repr()))
      ensures Left() <= old(Left()) && (old(Useful(Event(Requests, Op.Look(readOk)))) ==> Left() < old(Left()))
    {
      hide Line.Valid, Line.Left, Devbuf.Looked, Buffer.Holds, Buffer.Pending, HostHeader, CacheAfter, InsertedAll;
      hide RequestsOf, Numbered, HeadersOf, Answered, Line.Repr, Devbuf.Agrees, NewHeader, HasNewHeader, MayLook;
      hide LookedNext, SlotsNext, DirectionsOf, RequestsIn, Devbuf.Valid, Parts;
      RequestStep();
      var m := requests.dev.mode;
      var news := RequestsOf(m, if HasNewHeader(requests.dev) then [NewHeader(requests.dev)] else []);
      replies.KindsOfParts();
      label before:
      requests.Look(cache, readOk);
      replies.Untouched@before();
      assert Separate();
      looked := looked + news;
      assert Synced();
    }

    /** The cache is right about the reply in progress, and a reply looked at for the first time
        answers a request looked at. */
    lemma {:induction false} ReplyStep()
      requires Valid() && MayLook(replies.dev, first, looked)
      ensures replies.dev.bufp.Holds(replies.dev.mode) && replies.dev.Agrees(cache.Contents())
      ensures SlotsNext(replies.dev, cache.Contents()) == cache.Contents()
      ensures Answered(replies.dev.mode, LookedNext(replies.dev), first, looked)
    {
      hide Devbuf.Looked, Buffer.Holds, Buffer.Pending, HostHeader, InsertedAll, Framed, Concat, Answered;
      hide Numbered, HeadersOf, Line.Repr, RequestOf, Devbuf.Agrees, NewHeader, HasNewHeader, RequestsOf;
      hide Devbuf.Valid, Separate, Timely;
      OwnParts(replies.dev);
      HeaderInBuffer(replies.dev);
      RequestsAreFirst();
      if HasNewHeader(replies.dev) {
        OneMoreAnswered(replies.dev.mode, replies.dev.Looked(), NewHeader(replies.dev), first, looked);
      }
      CacheAgrees(replies.dev, start, first, looked, All());
    }

    lemma {:induction false} RequestsAreFirst()
      requires Valid()
      ensures looked <= All() && replies.dev.LookedUp()
    {
      hide Devbuf.Looked, Framed, Concat, HeadersOf, RequestOf, Answered, InsertedAll, Separate;
      hide Devbuf.Ordered, Devbuf.Accounted, Devbuf.Reading;
      LookedAreFirst(requests.dev, requests.msgs);
    }

    /** A step of the reader of replies. */
    method ReadReply(readOk: bool)
      requires Valid()
      modifies Repr()
      ensures Valid() && fresh(Repr() - old(Repr()))
      ensures Left() <= old(Left()) && (old(Useful(Event(Replies, Op.Look(readOk)))) ==> Left() < old(Left()))
    {
      hide Line.Valid, Line.Left, Devbuf.Looked, Buffer.Holds, Buffer.Pending, HostHeader, CacheAfter, InsertedAll;
      hide RequestsOf, Numbered, HeadersOf, Answered, Line.Repr, Devbuf.Agrees, NewHeader, HasNewHeader, MayLook;
      hide LookedNext, SlotsNext;
      if MayLook(replies.dev, first, looked) {
        ReplyStep();
        requests.KindsOfParts();
        label before:
        replies.Look(cache, readOk);
        requests.Untouched@before();
      }
    }

    /** A step of another thread of a side. */
    method ServeSide(side: Side, op: Op)
      requires Valid() && !op.Look?
      modifies Repr()
      ensures Valid() && fresh(Repr() - old(Repr()))
      ensures Left() <= old(Left()) + (if old(InVain(Event(side, op))) then 1 else 0)
      ensures old(Useful(Event(side, op))) ==> Left() < old(Left())
    {
      hide Line.Valid, Line.Left, Devbuf.Looked, InsertedAll, RequestsOf, Numbered, HeadersOf, Answered, Line.Repr;
      hide Line.Useful, Line.InVain;
      requests.KindsOfParts();
      replies.KindsOfParts();
      label before:
      match side
      case Requests =>
        requests.Step(op);
        replies.Untouched@before();
      case Replies =>
        replies.Step(op);
        requests.Untouched@before();
    }

    /** The step brings a stream closer to its peer. The reader of replies has to be in time. */
    predicate Useful(e: Event)
      reads this, requests, requests.dev, requests.dev.bufp, requests.dev.bufc
      reads if requests.dev.bufc.next == null then {} else {requests.dev.bufc.next}
      reads replies, replies.dev, replies.dev.bufp, replies.dev.bufp.buff, replies.dev.bufc
      reads if replies.dev.bufc.next == null then {} else {replies.dev.bufc.next}
    {
      match e.side
      case Requests => requests.Useful(e.op)
      case Replies => replies.Useful(e.op) && (e.op.Look? ==> MayLook(replies.dev, first, looked))
    }

    /** The step ends a read or a write that moved nothing. */
    predicate InVain(e: Event)
      reads requests, replies
    {
      match e.side
      case Requests => requests.InVain(e.op)
      case Replies => replies.InVain(e.op)
    }

    /** Any step of any thread. */
    method Step(e: Event)
      requires Valid()
      modifies Repr()
      ensures Valid() && fresh(Repr() - old(Repr()))
      ensures Left() <= old(Left()) + (if old(InVain(e)) then 1 else 0)
      ensures old(Useful(e)) ==> Left() < old(Left())
    {
      hide *;
      match e
      case Event(Requests, Look(readOk)) => ReadRequest(readOk);
      case Event(Replies, Look(readOk)) => ReadReply(readOk);
      case Event(side, op) => ServeSide(side, op);
    }

    /** Every run of the threads keeps the connection in order, and the useful steps of a run are
        bounded by what was left to do and the reads and writes that moved nothing. */
    method Run(es: seq<Event>) returns (useful: nat, vain: nat)
      requires Valid()
      modifies Repr()
      ensures Valid() && fresh(Repr() - old(Repr()))
      ensures Left() + useful <= old(Left()) + vain
    {
      hide *;
      useful, vain := 0, 0;
      for i := 0 to |es|
        invariant Valid() && fresh(Repr() - old(Repr()))
        invariant Left() + useful <= old(Left()) + vain
      {
        var u, v := Useful(es[i]), InVain(es[i]);
        ghost var was := Repr();
        assert forall o :: o in was ==> o in old(Repr()) || fresh(o);
        label before:
        Step(es[i]);
        assert forall o :: o in Repr() ==> o in was || fresh@before(o);
        assert forall o :: o in Repr() ==> o in old(Repr()) || fresh(o);
        useful := useful + if u then 1 else 0;
        vain := vain + if v then 1 else 0;
      }
    }

    /** When no step is useful any more and no reply comes too late, every message of both sides
        was completed and written to the peer, each reply framed by its request's direction. */
    lemma {:induction false} AllDelivered()
      requires Valid() && (forall e :: !Useful(e)) && MayLook(replies.dev, first, looked)
      ensures requests.dev.raws == requests.msgs && requests.dev.written == Concat(requests.dev.pdus)
      ensures replies.dev.raws == replies.msgs && replies.dev.written == Concat(replies.dev.pdus)
      ensures |requests.dev.pdus| == |requests.msgs| && |replies.dev.pdus| == |replies.msgs|
      ensures forall k :: 0 <= k < |requests.msgs| ==>
                requests.dev.pdus[k] == Outgoing(requests.dev.mode, requests.dev.look, requests.msgs[k])
      ensures forall k :: 0 <= k < |replies.msgs| ==>
                replies.dev.pdus[k] == Outgoing(replies.dev.mode, replies.dev.look, replies.msgs[k])
    {
      hide Line.Valid, Line.Useful, Framed, Concat, Outgoing, MayLook, Separate, Promised, Synced;
      forall op
        ensures !requests.Useful(op) && !replies.Useful(op)
      {
        assert !Useful(Event(Requests, op)) && !Useful(Event(Replies, op));
      }
      requests.UselessMeansDelivered();
      replies.UselessMeansDelivered();
    }
  }
}
