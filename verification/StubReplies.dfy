/** The replies the stub driver makes on each request path, and their journey through its reply
    stream and the forwarder: the length the forwarder derives from a reply's header and the
    direction of its request has to be the length of the reply's data. */
module StubReplies {
  import opened Bytes
  import opened Connection
  import opened IsoPackets
  import opened IsoTransfer
  import opened WireForm
  import opened HdrsCache
  import opened Options
  import opened PduCodec
  import opened Framing
  import opened StubStream
  import opened Forwarder

  const STATUS := 20
  const SETUP := 40
  const START_FRAME := 28
  const ERROR_COUNT := 36

  /** Stub to socket: replies in host order, leaving in network order. */
  const StubMode := Mode(false, false, true)

  /** Lengths are kept in signed 32-bit fields. */
  const LIMIT := 0x8000_0000

  /** So are the lengths of rows of descriptors. */
  const PKT_LIMIT := 0x800_0000

  // ---------------------------------------------------------------------------
  // Replies
  // ---------------------------------------------------------------------------

  /** A header set to zero. */
  function Blank(): (h: seq<byte>)
    ensures |h| == HEADER_SIZE
  {
    seq(HEADER_SIZE, _ => 0)
  }

  /** create_stub_res. */
  function CreateStubRes(cmd: u32, seqnum: u32, err: u32, data: seq<byte>, nPkts: u32): (r: Res)
    requires |data| < LIMIT
    ensures WellFormed(r) && r.data == data
  {
    var h := PutWord(PutWord(Blank(), COMMAND, cmd), SEQNUM, seqnum);
    if cmd == RET_SUBMIT then
      Res(PutWord(PutWord(PutWord(h, STATUS, err), XFER_LEN, |data|), N_PACKETS, nPkts), data)
    else if cmd == RET_UNLINK then
      Res(PutWord(h, STATUS, err), data)
    else
      Res(h, data)
  }

  /** reply_stub_req_err and, with err 0, reply_stub_req_hdr. */
  function ErrReply(cmd: u32, seqnum: u32, err: u32): Res {
    CreateStubRes(cmd, seqnum, err, [], 0)
  }

  /** reply_stub_req_data. */
  function DataReply(seqnum: u32, data: seq<byte>): Res
    requires |data| < LIMIT
  {
    CreateStubRes(RET_SUBMIT, seqnum, 0, data, 0)
  }

  /** How USBD ended a transfer. */
  datatype Outcome = Done | Failed(status: u32)

  /** done_bulk_intr_transfer, for a transfer that moved n bytes; buffer is the data buffer of
      an IN transfer. */
  function BulkReply(seqnum: u32, isIn: bool, buffer: seq<byte>, n: nat, outcome: Outcome): Res
    requires |buffer| < LIMIT && n < LIMIT && (isIn ==> n <= |buffer|)
  {
    var r := CreateStubRes(RET_SUBMIT, seqnum, 0, if isIn then buffer else [], 0);
    match outcome
    case Done => Res(PutWord(r.header, XFER_LEN, n), if isIn then buffer[..n] else r.data)
    case Failed(status) => Res(PutWord(PutWord(r.header, XFER_LEN, 0), STATUS, status), [])
  }

  /** done_iso_transfer when the transfer was submitted as IN: the buffer holds the data and,
      behind it, one descriptor a packet; on success the packets were compacted to payload. */
  function IsoInReply(seqnum: u32, nPkts: u32, buffer: seq<byte>, payload: seq<byte>, descs: seq<byte>,
                      startFrame: u32, errors: u32, outcome: Outcome): Res
    requires |buffer| < LIMIT && |payload| <= |buffer| && |descs| == DESC_SIZE * nPkts
  {
    var r := CreateStubRes(RET_SUBMIT, seqnum, 0, buffer, nPkts);
    match outcome
    case Done =>
      Res(PutWord(PutWord(PutWord(r.header, XFER_LEN, |payload|), START_FRAME, startFrame), ERROR_COUNT, errors),
          payload + descs)
    case Failed(status) => Res(PutWord(r.header, STATUS, status), r.data)
  }

  /** done_iso_transfer when the transfer was submitted as OUT. The reply is created with the
      number of bytes sent as its length but no data. On success only the descriptors return.
      On failure the length stays, and `stray` is what the stream copies in place of data. */
  function IsoOutReply(seqnum: u32, nPkts: u32, stray: seq<byte>, descs: seq<byte>,
                       startFrame: u32, errors: u32, outcome: Outcome): Res
    requires |stray| < LIMIT && |descs| == DESC_SIZE * nPkts
  {
    var r := CreateStubRes(RET_SUBMIT, seqnum, 0, stray, nPkts);
    match outcome
    case Done =>
      Res(PutWord(PutWord(PutWord(r.header, XFER_LEN, 0), START_FRAME, startFrame), ERROR_COUNT, errors), descs)
    case Failed(status) => Res(PutWord(r.header, STATUS, status), r.data)
  }

  // ---------------------------------------------------------------------------
  // Framing of one reply
  // ---------------------------------------------------------------------------

  /** The forwarder, knowing direction d, takes exactly this reply. */
  predicate WellFramed(r: Res, d: u32) {
    IsPdu(StubMode, Message(r), d)
  }

  /** What the forwarder reads from a header. */
  predicate Says(h: seq<byte>, cmd: u32, seqnum: u32, actual: u32, nPkts: u32) {
    && |h| == HEADER_SIZE && Word(h, COMMAND) == cmd && Word(h, SEQNUM) == seqnum
    && Word(h, XFER_LEN) == actual && Word(h, N_PACKETS) == nPkts
  }

  /** Storing another field keeps what the header says; storing the length replaces it. */
  lemma {:induction false} SaysAfter(h: seq<byte>, o: nat, v: u32, cmd: u32, seqnum: u32, actual: u32, nPkts: u32)
    requires Says(h, cmd, seqnum, actual, nPkts) && o in {STATUS, START_FRAME, ERROR_COUNT, XFER_LEN, DIRECTION}
    ensures Says(PutWord(h, o, v), cmd, seqnum, if o == XFER_LEN then v else actual, nPkts)
  {
    PutWordOther(h, o, v, COMMAND);
    PutWordOther(h, o, v, SEQNUM);
    if o == XFER_LEN {
      WordOfPutWord(h, o, v);
    } else {
      PutWordOther(h, o, v, XFER_LEN);
    }
    PutWordOther(h, o, v, N_PACKETS);
  }

  lemma {:induction false} BlankSays(cmd: u32, seqnum: u32)
    ensures Says(PutWord(PutWord(Blank(), COMMAND, cmd), SEQNUM, seqnum), cmd, seqnum, 0, 0)
  {
    var z := Blank();
    assert Word(z, XFER_LEN) == 0 && Word(z, N_PACKETS) == 0;
    hide Word, PutWord;
    WordOfPutWord(z, COMMAND, cmd);
    PutWordOther(z, COMMAND, cmd, XFER_LEN);
    PutWordOther(z, COMMAND, cmd, N_PACKETS);
    var h := PutWord(z, COMMAND, cmd);
    WordOfPutWord(h, SEQNUM, seqnum);
    PutWordOther(h, SEQNUM, seqnum, COMMAND);
    PutWordOther(h, SEQNUM, seqnum, XFER_LEN);
    PutWordOther(h, SEQNUM, seqnum, N_PACKETS);
  }

  lemma {:induction false} CreatedSays(cmd: u32, seqnum: u32, err: u32, data: seq<byte>, nPkts: u32)
    requires |data| < LIMIT
    ensures Says(CreateStubRes(cmd, seqnum, err, data, nPkts).header, cmd, seqnum,
                 if cmd == RET_SUBMIT then |data| else 0, if cmd == RET_SUBMIT then nPkts else 0)
  {
    hide PutWord, Word;
    BlankSays(cmd, seqnum);
    var h := PutWord(PutWord(Blank(), COMMAND, cmd), SEQNUM, seqnum);
    SaysAfter(h, STATUS, err, cmd, seqnum, 0, 0);
    var hs := PutWord(h, STATUS, err);
    SaysAfter(hs, XFER_LEN, |data|, cmd, seqnum, 0, 0);
    var hl := PutWord(hs, XFER_LEN, |data|);
    WordOfPutWord(hl, N_PACKETS, nPkts);
    PutWordOther(hl, N_PACKETS, nPkts, COMMAND);
    PutWordOther(hl, N_PACKETS, nPkts, SEQNUM);
    PutWordOther(hl, N_PACKETS, nPkts, XFER_LEN);
  }

  /** A reply whose header says these lengths is well framed if and only if its data is as long
      as they make it for the direction of its request. */
  lemma {:induction false} FramedIff(r: Res, cmd: u32, seqnum: u32, actual: u32, nPkts: u32, d: u32)
    requires Says(r.header, cmd, seqnum, actual, nPkts) && actual < LIMIT && nPkts < PKT_LIMIT
    ensures WellFramed(r, d) <==>
            |r.data| == if cmd == RET_UNLINK then 0 else (if d == DIR_OUT then 0 else actual) + DESC_SIZE * nPkts
  {
    assert Message(r)[..HEADER_SIZE] == r.header;
    var h := Header(StubMode, Message(r), d);
    WordOfPutWord(r.header, DIRECTION, d);
    SaysAfter(r.header, DIRECTION, d, cmd, seqnum, actual, nPkts);
    assert Says(h, cmd, seqnum, actual, nPkts);
    hide PutWord, Word, Header;
    assert IsUnlink(StubMode, h) <==> cmd == RET_UNLINK;
  }

  /** Replies without data are well framed whatever the direction. */
  lemma {:induction false} ErrReplyFramed(cmd: u32, seqnum: u32, err: u32, d: u32)
    ensures WellFramed(ErrReply(cmd, seqnum, err), d)
    ensures var h := ErrReply(cmd, seqnum, err).header; Says(h, cmd, seqnum, Word(h, XFER_LEN), Word(h, N_PACKETS))
  {
    CreatedSays(cmd, seqnum, err, [], 0);
    FramedIff(ErrReply(cmd, seqnum, err), cmd, seqnum, 0, 0, d);
  }

  /** A reply with data to a control request is well framed if and only if the request asked
      for data or there is none: the direction field, not the setup packet, decides. */
  lemma {:induction false} DataReplyFramedIff(seqnum: u32, data: seq<byte>, d: u32)
    requires |data| < LIMIT
    ensures WellFramed(DataReply(seqnum, data), d) <==> d != DIR_OUT || data == []
    ensures var h := DataReply(seqnum, data).header;
            Says(h, RET_SUBMIT, seqnum, Word(h, XFER_LEN), Word(h, N_PACKETS))
  {
    CreatedSays(RET_SUBMIT, seqnum, 0, data, 0);
    FramedIff(DataReply(seqnum, data), RET_SUBMIT, seqnum, |data|, 0, d);
  }

  /** Every bulk or interrupt reply, short or failed, in both directions. */
  lemma {:induction false} BulkReplyFramed(seqnum: u32, d: u32, buffer: seq<byte>, n: nat, outcome: Outcome)
    requires |buffer| < LIMIT && n < LIMIT && (d != DIR_OUT ==> n <= |buffer|)
    ensures WellFramed(BulkReply(seqnum, d != DIR_OUT, buffer, n, outcome), d)
    ensures var h := BulkReply(seqnum, d != DIR_OUT, buffer, n, outcome).header;
            Says(h, RET_SUBMIT, seqnum, Word(h, XFER_LEN), Word(h, N_PACKETS))
  {
    var data := if d != DIR_OUT then buffer else [];
    var h := CreateStubRes(RET_SUBMIT, seqnum, 0, data, 0).header;
    CreatedSays(RET_SUBMIT, seqnum, 0, data, 0);
    var m: u32 := if outcome.Done? then n else 0;
    SaysAfter(h, XFER_LEN, m, RET_SUBMIT, seqnum, |data|, 0);
    if outcome.Failed? {
      SaysAfter(PutWord(h, XFER_LEN, m), STATUS, outcome.status, RET_SUBMIT, seqnum, m, 0);
    }
    hide PutWord, Word;
    FramedIff(BulkReply(seqnum, d != DIR_OUT, buffer, n, outcome), RET_SUBMIT, seqnum, m, 0, d);
  }

  lemma {:induction false} IsoSays(h: seq<byte>, seqnum: u32, actual: u32, nPkts: u32, n: u32, startFrame: u32,
                                   errors: u32)
    requires Says(h, RET_SUBMIT, seqnum, actual, nPkts)
    ensures Says(PutWord(PutWord(PutWord(h, XFER_LEN, n), START_FRAME, startFrame), ERROR_COUNT, errors),
                 RET_SUBMIT, seqnum, n, nPkts)
  {
    SaysAfter(h, XFER_LEN, n, RET_SUBMIT, seqnum, actual, nPkts);
    SaysAfter(PutWord(h, XFER_LEN, n), START_FRAME, startFrame, RET_SUBMIT, seqnum, n, nPkts);
    var hs := PutWord(PutWord(h, XFER_LEN, n), START_FRAME, startFrame);
    SaysAfter(hs, ERROR_COUNT, errors, RET_SUBMIT, seqnum, n, nPkts);
  }

  /** A failed isochronous reply keeps the length it was created with and announces descriptors
      it does not carry. */
  lemma {:induction false} FailedIsoFramedIff(seqnum: u32, nPkts: u32, data: seq<byte>, status: u32, d: u32)
    requires |data| < LIMIT && nPkts < PKT_LIMIT
    ensures var r := Res(PutWord(CreateStubRes(RET_SUBMIT, seqnum, 0, data, nPkts).header, STATUS, status), data);
      && Says(r.header, RET_SUBMIT, seqnum, |data|, nPkts)
      && (WellFramed(r, d) <==> if d != DIR_OUT then nPkts == 0 else |data| == DESC_SIZE * nPkts)
  {
    var h := CreateStubRes(RET_SUBMIT, seqnum, 0, data, nPkts).header;
    CreatedSays(RET_SUBMIT, seqnum, 0, data, nPkts);
    SaysAfter(h, STATUS, status, RET_SUBMIT, seqnum, |data|, nPkts);
    hide PutWord, Word;
    FramedIff(Res(PutWord(h, STATUS, status), data), RET_SUBMIT, seqnum, |data|, nPkts, d);
  }

  /** A reply to a transfer submitted as IN, for a request of either direction: the flags of an OUT
      request can say IN. If it succeeded it is well framed if and only if the request is IN or
      no data came; if it failed, if and only if the length it was created with happens to be
      that of the descriptors it lacks. */
  lemma {:induction false} IsoInReplyFramedIff(seqnum: u32, nPkts: u32, buffer: seq<byte>, payload: seq<byte>,
                                               descs: seq<byte>, startFrame: u32, errors: u32, outcome: Outcome,
                                               d: u32)
    requires |buffer| < LIMIT && |payload| <= |buffer| && |descs| == DESC_SIZE * nPkts && nPkts < PKT_LIMIT
    ensures WellFramed(IsoInReply(seqnum, nPkts, buffer, payload, descs, startFrame, errors, outcome), d)
            <==> IsoInFramable(nPkts, buffer, payload, outcome, d)
    ensures var h := IsoInReply(seqnum, nPkts, buffer, payload, descs, startFrame, errors, outcome).header;
            Says(h, RET_SUBMIT, seqnum, Word(h, XFER_LEN), Word(h, N_PACKETS))
  {
    if outcome.Failed? {
      FailedIsoFramedIff(seqnum, nPkts, buffer, outcome.status, d);
    } else {
      var h := CreateStubRes(RET_SUBMIT, seqnum, 0, buffer, nPkts).header;
      CreatedSays(RET_SUBMIT, seqnum, 0, buffer, nPkts);
      IsoSays(h, seqnum, |buffer|, nPkts, |payload|, startFrame, errors);
      hide PutWord, Word;
      FramedIff(IsoInReply(seqnum, nPkts, buffer, payload, descs, startFrame, errors, outcome), RET_SUBMIT, seqnum,
                |payload|, nPkts, d);
    }
  }

  predicate IsoInFramable(nPkts: u32, buffer: seq<byte>, payload: seq<byte>, outcome: Outcome, d: u32) {
    match outcome
    case Done => d != DIR_OUT || payload == []
    case Failed(_) => if d != DIR_OUT then nPkts == 0 else |buffer| == DESC_SIZE * nPkts
  }

  /** A reply to an OUT transfer is well framed if it succeeded; one that failed is if and only if
      as many bytes were sent as its descriptors have. */
  lemma {:induction false} IsoOutReplyFramedIff(seqnum: u32, nPkts: u32, stray: seq<byte>, descs: seq<byte>,
                                                startFrame: u32, errors: u32, outcome: Outcome)
    requires |stray| < LIMIT && |descs| == DESC_SIZE * nPkts && nPkts < PKT_LIMIT
    ensures WellFramed(IsoOutReply(seqnum, nPkts, stray, descs, startFrame, errors, outcome), DIR_OUT)
            <==> outcome.Done? || |stray| == DESC_SIZE * nPkts
    ensures var h := IsoOutReply(seqnum, nPkts, stray, descs, startFrame, errors, outcome).header;
            Says(h, RET_SUBMIT, seqnum, Word(h, XFER_LEN), Word(h, N_PACKETS))
  {
    if outcome.Failed? {
      FailedIsoFramedIff(seqnum, nPkts, stray, outcome.status, DIR_OUT);
    } else {
      var h := CreateStubRes(RET_SUBMIT, seqnum, 0, stray, nPkts).header;
      CreatedSays(RET_SUBMIT, seqnum, 0, stray, nPkts);
      IsoSays(h, seqnum, |stray|, nPkts, 0, startFrame, errors);
      hide PutWord, Word;
      FramedIff(IsoOutReply(seqnum, nPkts, stray, descs, startFrame, errors, outcome), RET_SUBMIT, seqnum, 0, nPkts,
                DIR_OUT);
    }
  }

  // ---------------------------------------------------------------------------
  // Every request path
  // ---------------------------------------------------------------------------

  /** The paths a submitted request can take through the stub, with what the USB stack made of
      it. Errors, resets and control requests without data return a bare header. */
  datatype Path =
    | BarePath(err: u32)
    | ControlPath(data: seq<byte>)
    | BulkPath(buffer: seq<byte>, n: nat, outcome: Outcome)
    | IsoInPath(nPkts: u32, buffer: seq<byte>, payload: seq<byte>, descs: seq<byte>,
                startFrame: u32, errors: u32, outcome: Outcome)
    | IsoOutPath(nPkts: u32, stray: seq<byte>, descs: seq<byte>, startFrame: u32, errors: u32, outcome: Outcome)

  /** The path fits a request with direction d, and its lengths fit their fields. */
  predicate Possible(p: Path, d: u32) {
    match p
    case BarePath(_) => true
    case ControlPath(data) => |data| < LIMIT
    case BulkPath(buffer, n, _) => |buffer| < LIMIT && n < LIMIT && (d != DIR_OUT ==> n <= |buffer|)
    case IsoInPath(nPkts, buffer, payload, descs, _, _, _) =>
      |buffer| < LIMIT && |payload| <= |buffer| && |descs| == DESC_SIZE * nPkts && nPkts < PKT_LIMIT
    case IsoOutPath(nPkts, stray, descs, _, _, _) =>
      |stray| < LIMIT && |descs| == DESC_SIZE * nPkts && nPkts < PKT_LIMIT && d == DIR_OUT
  }

  function ReplyOf(p: Path, seqnum: u32, d: u32): Res
    requires Possible(p, d)
  {
    match p
    case BarePath(err) => ErrReply(RET_SUBMIT, seqnum, err)
    case ControlPath(data) => DataReply(seqnum, data)
    case BulkPath(buffer, n, outcome) => BulkReply(seqnum, d != DIR_OUT, buffer, n, outcome)
    case IsoInPath(nPkts, buffer, payload, descs, startFrame, errors, outcome) =>
      IsoInReply(seqnum, nPkts, buffer, payload, descs, startFrame, errors, outcome)
    case IsoOutPath(nPkts, stray, descs, startFrame, errors, outcome) =>
      IsoOutReply(seqnum, nPkts, stray, descs, startFrame, errors, outcome)
  }

  /** The header and the data of the reply agree. They can disagree for control data on an OUT
      request, for data on an OUT request that was submitted as an isochronous IN transfer, and
      for failed isochronous transfers. */
  predicate Framable(p: Path, d: u32) {
    match p
    case ControlPath(data) => d != DIR_OUT || data == []
    case IsoInPath(nPkts, buffer, payload, _, _, _, outcome) => IsoInFramable(nPkts, buffer, payload, outcome, d)
    case IsoOutPath(nPkts, stray, _, _, _, outcome) => outcome.Done? || |stray| == DESC_SIZE * nPkts
    case _ => true
  }

  lemma {:induction false} ReplyFramedIff(p: Path, seqnum: u32, d: u32)
    requires Possible(p, d)
    ensures var r := ReplyOf(p, seqnum, d);
      && Says(r.header, RET_SUBMIT, seqnum, Word(r.header, XFER_LEN), Word(r.header, N_PACKETS))
      && (WellFramed(r, d) <==> Framable(p, d))
  {
    hide WellFramed, Says, Word, ErrReply, DataReply, BulkReply, IsoInReply, IsoOutReply, IsoInFramable;
    match p
    case BarePath(err) => ErrReplyFramed(RET_SUBMIT, seqnum, err, d);
    case ControlPath(data) => DataReplyFramedIff(seqnum, data, d);
    case BulkPath(buffer, n, outcome) => BulkReplyFramed(seqnum, d, buffer, n, outcome);
    case IsoInPath(nPkts, buffer, payload, descs, startFrame, errors, outcome) =>
      IsoInReplyFramedIff(seqnum, nPkts, buffer, payload, descs, startFrame, errors, outcome, d);
    case IsoOutPath(nPkts, stray, descs, startFrame, errors, outcome) =>
      IsoOutReplyFramedIff(seqnum, nPkts, stray, descs, startFrame, errors, outcome);
  }

  // ---------------------------------------------------------------------------
  // What a reply contains
  // ---------------------------------------------------------------------------

  /** Storing a field of a header is reading it back, and no other. */
  lemma {:induction false} FieldsRead()
    ensures forall p: nat :: p + 4 <= HEADER_SIZE ==> Word(Blank(), p) == 0
    ensures forall h: seq<byte>, o: nat, v: u32, p: nat {:trigger Word(PutWord(h, o, v), p)} ::
              |h| == HEADER_SIZE && o + 4 <= HEADER_SIZE && p + 4 <= HEADER_SIZE && Beside(o, p) ==>
                Word(PutWord(h, o, v), p) == if o == p then v else Word(h, p)
  {
    forall h: seq<byte>, o: nat, v: u32, p: nat |
        |h| == HEADER_SIZE && o + 4 <= HEADER_SIZE && p + 4 <= HEADER_SIZE && Beside(o, p)
      ensures Word(PutWord(h, o, v), p) == if o == p then v else Word(h, p)
    {
      if o == p {
        WordOfPutWord(h, o, v);
      } else {
        PutWordOther(h, o, v, p);
      }
    }
  }

  /** Two words are the same or do not overlap. */
  predicate Beside(o: nat, p: nat) {
    o == p || o + 4 <= p || p + 4 <= o
  }

  function StatusOf(outcome: Outcome): u32 {
    match outcome
    case Done => 0
    case Failed(status) => status
  }

  /** The status of the reply on a path: 0 for success, else what USBD's status was translated to. */
  function StatusOn(p: Path): u32 {
    match p
    case BarePath(err) => err
    case ControlPath(_) => 0
    case BulkPath(_, _, outcome) => StatusOf(outcome)
    case IsoInPath(_, _, _, _, _, _, outcome) => StatusOf(outcome)
    case IsoOutPath(_, _, _, _, _, outcome) => StatusOf(outcome)
  }

  /** Every reply says how its transfer ended and how many bytes it moved, and carries what the
      device wrote: the first bytes of the buffer of a bulk transfer, the payload of an
      isochronous one and behind it the descriptors. */
  lemma {:induction false} ReplyContents(p: Path, seqnum: u32, d: u32)
    requires Possible(p, d)
    ensures var r := ReplyOf(p, seqnum, d);
      && |r.header| == HEADER_SIZE && Word(r.header, STATUS) == StatusOn(p)
      && Word(r.header, COMMAND) == RET_SUBMIT && Word(r.header, SEQNUM) == seqnum
      && match p
         case BarePath(_) => r.data == [] && Word(r.header, XFER_LEN) == Word(r.header, N_PACKETS) == 0
         case ControlPath(data) =>
           r.data == data && Word(r.header, XFER_LEN) == |data| && Word(r.header, N_PACKETS) == 0
         case BulkPath(buffer, n, outcome) =>
           var moved := if outcome.Done? then n else 0;
           && Word(r.header, XFER_LEN) == moved && Word(r.header, N_PACKETS) == 0
           && |r.data| == (if d == DIR_OUT then 0 else moved)
           && forall k :: 0 <= k < |r.data| ==> r.data[k] == buffer[k]
         case IsoInPath(nPkts, buffer, payload, descs, startFrame, errors, outcome) =>
           && Word(r.header, N_PACKETS) == nPkts
           && (outcome.Done? ==>
                 && Word(r.header, XFER_LEN) == |payload| && |r.data| == |payload| + |descs|
                 && (forall k :: 0 <= k < |payload| ==> r.data[k] == payload[k])
                 && (forall k :: 0 <= k < |descs| ==> r.data[|payload| + k] == descs[k])
                 && Word(r.header, START_FRAME) == startFrame && Word(r.header, ERROR_COUNT) == errors)
           && (outcome.Failed? ==> r.data == buffer && Word(r.header, XFER_LEN) == |buffer|)
         case IsoOutPath(nPkts, stray, descs, startFrame, errors, outcome) =>
           && Word(r.header, N_PACKETS) == nPkts
           && (outcome.Done? ==>
                 && Word(r.header, XFER_LEN) == 0 && r.data == descs
                 && Word(r.header, START_FRAME) == startFrame && Word(r.header, ERROR_COUNT) == errors)
           && (outcome.Failed? ==> r.data == stray && Word(r.header, XFER_LEN) == |stray|)
  {
    FieldsRead();
    hide Word, PutWord, Blank;
  }

  /** done_iso_transfer when a transfer submitted as IN succeeded: the reply is that of its path,
      its payload the packets' bytes packed at the front of the buffer, and behind them stand the
      request's descriptors with the results entered. */
  method DoneIsoIn(seqnum: u32, data: array<byte>, dataLen: nat, pk: seq<Packet>, toUsbipStatus: u32 -> u32,
                   startFrame: u32, errors: u32) returns (r: Res, ghost n: nat)
    requires dataLen < LIMIT && |pk| < PKT_LIMIT && data.Length == dataLen + DESC_SIZE * |pk| && Placed(pk, dataLen)
    modifies data
    ensures |r.header| == HEADER_SIZE && n == TotalLength(pk, |pk|) == Word(r.header, XFER_LEN)
    ensures |r.data| == n + DESC_SIZE * |pk|
    ensures r.data[..n] == Packed(old(data[..]), pk, |pk|)
    ensures Descs(r.data, n, |pk|) == Results(Descs(old(data[..]), dataLen, |pk|), pk, toUsbipStatus)
    ensures n <= dataLen && r == IsoInReply(seqnum, |pk|, old(data[..dataLen]), r.data[..n], r.data[n..], startFrame,
                                            errors, Done)
  {
    hide Packed, Descs, Results, TotalLength, Placed, Word;
    ghost var buffer := data[..dataLen];
    var sres := CreateStubRes(RET_SUBMIT, seqnum, 0, data[..dataLen], |pk|);
    var actualLen, replyLen := DoneIsoTransfer(data, dataLen, pk, toUsbipStatus);
    var h := PutWord(PutWord(PutWord(sres.header, XFER_LEN, actualLen), START_FRAME, startFrame), ERROR_COUNT, errors);
    r := Res(h, data[..replyLen]);
    n := actualLen;
    FieldsRead();
    assert r.data[..n] == data[..n] && r.data == r.data[..n] + r.data[n..];
    assert r.data[n..n + DESC_SIZE * |pk|] == data[..][n..n + DESC_SIZE * |pk|];
    DescsSame(data[..], n, r.data, n, |pk|);
  }

  /** How many packets a reply has descriptors of. */
  function DescsOn(p: Path): nat {
    match p
    case IsoInPath(nPkts, _, _, _, _, _, _) => nPkts
    case IsoOutPath(nPkts, _, _, _, _, _) => nPkts
    case _ => 0
  }

  /** The reply r as it leaves with direction d: its fields in network order, its data unchanged,
      and every word of its n descriptors in network order. */
  predicate LeavesAs(r: Res, out: seq<byte>, d: u32, n: nat) {
    && |r.header| == HEADER_SIZE && |out| == HEADER_SIZE + |r.data| && DESC_SIZE * n <= |r.data|
    && (forall o: nat | o < SETUP && o % 4 == 0 :: NetWord(out, o) == if o == DIRECTION then d else Word(r.header, o))
    && (forall k: nat | k < |r.data| - DESC_SIZE * n :: out[HEADER_SIZE + k] == r.data[k])
    && (forall k: nat | |r.data| - DESC_SIZE * n <= k && k + 4 <= |r.data| && (|r.data| - k) % 4 == 0 ::
          NetWord(out, HEADER_SIZE + k) == Word(r.data, k))
  }

  /** So leaves every well framed reply. */
  lemma {:induction false} ReplyHandedOn(p: Path, seqnum: u32, d: u32)
    requires Possible(p, d) && Framable(p, d)
    ensures var r := ReplyOf(p, seqnum, d);
      WellFramed(r, d) && LeavesAs(r, Output(StubMode, Message(r), d), d, DescsOn(p))
  {
    hide Word, PutWord, Framable, IsWireForm, Output, IsPdu, ReplyOf, StatusOn, LeavesAs;
    var r := ReplyOf(p, seqnum, d);
    ReplyFramedIff(p, seqnum, d);
    ReplyContents(p, seqnum, d);
    LeavesInNetworkOrder(StubMode, Message(r), d);
    MessageLeaves(r, Output(StubMode, Message(r), d), d);
  }

  /** A field of a message is that of its header, but for the direction. */
  lemma {:induction false} FieldOfMessage(r: Res, d: u32, o: nat)
    requires |r.header| == HEADER_SIZE && o + 4 <= HEADER_SIZE && o % 4 == 0
    requires Word(r.header, COMMAND) == RET_SUBMIT
    ensures var b := Directed(StubMode, Message(r), d);
      |b| == |Message(r)| && Word(b, o) == if o == DIRECTION then d else Word(r.header, o)
  {
    var msg := Message(r);
    assert msg[..HEADER_SIZE] == r.header;
    WordOfSlice(msg, 0, HEADER_SIZE, o);
    WordOfSlice(msg, 0, HEADER_SIZE, COMMAND);
    if o == DIRECTION {
      WordOfPutWord(msg, DIRECTION, d);
    } else {
      PutWordOther(msg, DIRECTION, d, o);
    }
  }

  lemma {:induction false} DataOfMessage(r: Res, d: u32)
    requires |r.header| == HEADER_SIZE
    ensures var b := Directed(StubMode, Message(r), d); |b| == |Message(r)| && b[HEADER_SIZE..] == r.data
  {
    WordOfPutWord(Message(r), DIRECTION, d);
  }

  /** The network form of a reply, field by field. */
  lemma {:induction false} MessageLeaves(r: Res, out: seq<byte>, d: u32)
    requires |r.header| == HEADER_SIZE && Word(r.header, COMMAND) == RET_SUBMIT && Word(r.header, N_PACKETS) < PKT_LIMIT
    requires IsWireForm(false, Directed(StubMode, Message(r), d), out)
    ensures LeavesAs(r, out, d, Word(r.header, N_PACKETS))
  {
    hide Word, PutWord, Directed, NetWord, Flipped;
    var b, n := Directed(StubMode, Message(r), d), Word(r.header, N_PACKETS);
    FieldOfMessage(r, d, COMMAND);
    FieldOfMessage(r, d, N_PACKETS);
    DataOfMessage(r, d);
    forall o: nat | o < SETUP && o % 4 == 0
      ensures NetWord(out, o) == if o == DIRECTION then d else Word(r.header, o)
    {
      FieldOfMessage(r, d, o);
      NetWordOfFlipped(b, out, o);
    }
    var at: nat :| DescsAt(false, b, at) && OpposedRows(b, out, at);
    assert at == |b| - DESC_SIZE * n;
    forall k: nat | k < |r.data| - DESC_SIZE * n
      ensures out[HEADER_SIZE + k] == r.data[k]
    {
      assert b[HEADER_SIZE + k] == b[HEADER_SIZE..][k];
    }
    forall k: nat | |r.data| - DESC_SIZE * n <= k && k + 4 <= |r.data| && (|r.data| - k) % 4 == 0
      ensures NetWord(out, HEADER_SIZE + k) == Word(r.data, k)
    {
      assert HEADER_SIZE + k - at == 4 * (4 * n - (|r.data| - k) / 4);
      NetWordOfFlipped(b, out, HEADER_SIZE + k);
      assert b[HEADER_SIZE..|b|] == r.data;
      WordOfSlice(b, HEADER_SIZE, |b|, k);
    }
  }

  /** The stub's reply to the k-th request carries its number and is framed right for its
      direction if and only if header and data agree on its path. */
  lemma {:induction false} ReplyProperIff(p: Path, first: u32, reqs: seq<Request>, k: nat)
    requires k < |reqs| <= 0x1_0000_0000 && !reqs[k].unlink && Possible(p, reqs[k].direction)
    ensures Proper(ReplyOf(p, Number(first, k), reqs[k].direction), first, reqs) <==> Framable(p, reqs[k].direction)
  {
    hide WellFramed, ReplyOf, Framable;
    var d := reqs[k].direction;
    var r := ReplyOf(p, Number(first, k), d);
    ReplyFramedIff(p, Number(first, k), d);
    assert Answers(r.header, first, reqs, k);
    forall j: nat | Answers(r.header, first, reqs, j)
      ensures j == k
    {
      if j < k {
        NumbersDistinct(first, k, j);
      } else if k < j {
        NumbersDistinct(first, j, k);
      }
    }
  }

  /** The stub leaves the direction in its headers at 0, which says OUT. So a reply to an OUT
      request gets its direction even when the cache has forgotten it. */
  lemma {:induction false} OutReplyIsTimely(p: Path, first: u32, reqs: seq<Request>, k: nat)
    requires k < |reqs| && !reqs[k].unlink && reqs[k].direction == DIR_OUT && Possible(p, DIR_OUT)
    ensures Timely(ReplyOf(p, Number(first, k), DIR_OUT).header, first, reqs)
  {
    hide Word, PutWord, Timely, Blank;
    var h := ReplyOf(p, Number(first, k), DIR_OUT).header;
    FieldsRead();
    assert Word(h, DIRECTION) == DIR_OUT;
    ReplyFramedIff(p, Number(first, k), DIR_OUT);
    OutIsTimely(h, first, reqs, k);
  }

  /** On a connection the reply to the k-th request leaves with the direction of that request. */
  lemma {:induction false} OutgoingReply(p: Path, first: u32, reqs: seq<Request>, k: nat)
    requires k < |reqs| <= 0x1_0000_0000 && !reqs[k].unlink
    requires Possible(p, reqs[k].direction) && Framable(p, reqs[k].direction)
    ensures var d, look := reqs[k].direction, DirectionsOf(first, reqs);
      var r := ReplyOf(p, Number(first, k), d);
      && HEADER_SIZE <= |Message(r)| && MessageDirection(StubMode, look, Message(r)) == d && WellFramed(r, d)
      && LeavesAs(r, Outgoing(StubMode, look, Message(r)), d, DescsOn(p))
  {
    hide Word, PutWord, Framable, Output, IsPdu, ReplyOf, LeavesAs;
    var d := reqs[k].direction;
    var r := ReplyOf(p, Number(first, k), d);
    ReplyHandedOn(p, Number(first, k), d);
    ReplyContents(p, Number(first, k), d);
    assert Message(r)[..HEADER_SIZE] == r.header;
    DirectionFound(first, reqs, k, Word(r.header, DIRECTION));
  }

  /** A reply to an unlink request is always framed right, and says whose it is and how it went. */
  lemma {:induction false} UnlinkReplyProper(seqnum: u32, err: u32, first: u32, reqs: seq<Request>)
    ensures var r := ErrReply(RET_UNLINK, seqnum, err);
      && Proper(r, first, reqs) && r.data == []
      && Word(r.header, COMMAND) == RET_UNLINK && Word(r.header, SEQNUM) == seqnum && Word(r.header, STATUS) == err
  {
    ErrReplyFramed(RET_UNLINK, seqnum, err, DIR_OUT);
    FieldsRead();
    hide Word, PutWord, Blank, WellFramed;
  }

  // ---------------------------------------------------------------------------
  // From replies through the stream and the forwarder
  // ---------------------------------------------------------------------------

  function Messages(rs: seq<Res>): (ms: seq<seq<byte>>)
    ensures |ms| == |rs| && forall k :: 0 <= k < |rs| ==> ms[k] == Message(rs[k])
  {
    seq(|rs|, k requires 0 <= k < |rs| => Message(rs[k]))
  }

  lemma {:induction false} StreamIsConcat(rs: seq<Res>)
    ensures Stream(rs) == Concat(Messages(rs))
  {
    if rs != [] {
      StreamIsConcat(rs[1..]);
      assert Messages(rs)[1..] == Messages(rs[1..]);
    }
  }

  /** A reply that answers a request of the connection and is well framed for the direction of
      that request; an unlink reply needs none. */
  ghost predicate Proper(r: Res, first: u32, reqs: seq<Request>) {
    && WellFormed(r)
    && if IsUnlink(StubMode, r.header) then WellFramed(r, DIR_OUT)
       else exists k: nat :: Answers(r.header, first, reqs, k) && WellFramed(r, reqs[k].direction)
  }

  /** For the connection's requests a proper reply is a whole message. */
  lemma {:induction false} ProperIsFramed(r: Res, first: u32, reqs: seq<Request>)
    requires Proper(r, first, reqs) && |reqs| <= 0x1_0000_0000
    ensures HEADER_SIZE <= |Message(r)|
    ensures WellFramed(r, MessageDirection(StubMode, DirectionsOf(first, reqs), Message(r)))
  {
    hide IsPdu;
    assert Message(r)[..HEADER_SIZE] == r.header;
    if IsUnlink(StubMode, r.header) {
      UnlinkNeedsNone(r, MessageDirection(StubMode, DirectionsOf(first, reqs), Message(r)));
    } else {
      var k: nat :| Answers(r.header, first, reqs, k) && WellFramed(r, reqs[k].direction);
      DirectionFound(first, reqs, k, Word(r.header, DIRECTION));
    }
  }

  lemma {:induction false} UnlinkNeedsNone(r: Res, d: u32)
    requires WellFormed(r) && IsUnlink(StubMode, r.header) && WellFramed(r, DIR_OUT)
    ensures WellFramed(r, d)
  {
    assert Message(r)[..HEADER_SIZE] == r.header;
  }

  /** A stream of proper replies is cut into exactly these replies. */
  lemma {:induction false} RepliesInStream(rs: seq<Res>, first: u32, reqs: seq<Request>)
    requires forall k :: 0 <= k < |rs| ==> Proper(rs[k], first, reqs)
    requires |reqs| <= 0x1_0000_0000
    ensures Framed(StubMode, DirectionsOf(first, reqs), Messages(rs))
    ensures Frames(StubMode, Stream(rs), DirectionsOf(first, reqs)) == Messages(rs)
  {
    hide Messages, Frames, Stream, Concat, IsPdu, Message, Proper, DirectionsOf, MessageDirection;
    StreamIsConcat(rs);
    var ms, look := Messages(rs), DirectionsOf(first, reqs);
    forall k | 0 <= k < |rs|
      ensures HEADER_SIZE <= |ms[k]| && IsPdu(StubMode, ms[k], MessageDirection(StubMode, look, ms[k]))
    {
      ProperIsFramed(rs[k], first, reqs);
    }
    FramesOfConcat(StubMode, look, ms, []);
    NoFrames(StubMode, look);
    assert Concat(ms) + [] == Concat(ms);
    assert ms + [] == ms;
  }

  lemma {:induction false} NoFrames(m: Mode, look: seq<byte> -> u32)
    ensures Frames(m, [], look) == []
  {
  }

  /** A connection over which proper replies will pass, after any run of its threads. */
  method Connect(requestMode: Mode, first: u32, questions: seq<seq<byte>>, rs: seq<Res>, es: seq<Event>)
    returns (c: Relay)
    requires requestMode.isReq && |questions| <= 0x1_0000_0000
    requires Framed(requestMode, h => 0, questions) && Numbered(first, HeadersOf(requestMode, questions))
    requires forall k :: 0 <= k < |rs| ==>
               Proper(rs[k], first, RequestsIn(requestMode, questions))
    ensures fresh(c) && c.Valid() && c.replies.dev.mode == StubMode
    ensures c.requests.msgs == questions && c.replies.msgs == Messages(rs)
  {
    hide Framed, Numbered, Proper, HeadersOf, RequestsOf, DirectionsOf, Messages, Relay.Valid, Frames, Stream;
    RepliesInStream(rs, first, RequestsIn(requestMode, questions));
    c := new Relay(requestMode, StubMode, first, questions, Messages(rs));
    var useful, vain := c.Run(es);
  }

  /** In any state of a connection whose reader of replies has read the front of the stub's stream,
      the messages completed are the first of the stub's replies, and the forwarder has those in
      network order with the directions of their requests. */
  lemma {:induction false} RepliesCut(rs: seq<Res>, c: Relay)
    requires c.Valid() && c.replies.dev.mode == StubMode && Messages(rs) <= c.replies.msgs
    requires c.replies.dev.input <= Stream(rs)
    ensures var f := c.replies.dev;
      && f.raws <= Messages(rs) && |f.pdus| == |f.raws| && Framed(StubMode, f.look, Messages(rs))
      && f.look == DirectionsOf(c.first, c.All())
      && (forall k :: 0 <= k < |f.raws| ==> f.pdus[k] == Outgoing(StubMode, f.look, Messages(rs)[k]))
      && (f.input == Stream(rs) && (f.bufp.stepReading == 3 || f.bufp.offp < HEADER_SIZE) ==> f.raws == Messages(rs))
  {
    hide Frames, Stream, Concat, IsPdu, Outgoing, Messages, DirectionsOf, MessageDirection, Devbuf.Valid;
    hide Relay.All, Relay.Separate, Relay.Synced;
    var f := c.replies.dev;
    assert forall k :: 0 <= k < |Messages(rs)| ==> Messages(rs)[k] == c.replies.msgs[k];
    StreamIsConcat(rs);
    FramesOfConcat(StubMode, f.look, Messages(rs), []);
    NoFrames(StubMode, f.look);
    assert Concat(Messages(rs)) + [] == Concat(Messages(rs));
    assert Messages(rs) + [] == Messages(rs);
    FramesGrow(StubMode, f.input, Stream(rs), f.look);
    f.MessagesOfInput();
    f.CompletedMessages();
    f.ShortOfGoal();
  }

  /** The forwarder recovers the stub's replies. After any run of the stub, in any state of the
      connection whose reader of replies has read some of the bytes the stub's reads returned, it
      has completed the first of the messages of the replies made so far, in order, and has for
      the peer those messages in network order with the directions of their requests; once it
      has read everything replied and looked at its last buffer it has them all. */
  lemma {:induction false} RepliesRecovered(es: seq<Step>, c: Relay)
    requires Run(Init, es)
    requires c.Valid() && c.replies.dev.mode == StubMode && Messages(RepliesOf(es)) <= c.replies.msgs
    requires c.replies.dev.input <= Returned(After(Init, es).returned)
    ensures var ms, f := Messages(RepliesOf(es)), c.replies.dev;
      && f.raws <= ms && |f.pdus| == |f.raws| && Framed(StubMode, f.look, ms)
      && f.look == DirectionsOf(c.first, c.All())
      && (forall k :: 0 <= k < |f.raws| ==> f.pdus[k] == Outgoing(StubMode, f.look, ms[k]))
      && (f.input == Stream(RepliesOf(es)) && (f.bufp.stepReading == 3 || f.bufp.offp < HEADER_SIZE) ==> f.raws == ms)
  {
    hide Run, After, Returned, RepliesOf, Frames, Stream, IsPdu, Outgoing, Framed, Messages, DirectionsOf;
    hide Relay.Valid, Relay.All;
    StreamRefinesFifo(es);
    RepliesCut(RepliesOf(es), c);
  }
}
