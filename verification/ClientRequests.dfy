/** The messages the UDE driver makes of its client's requests. A read takes the header and, if
    there is room, the payload; else the payload goes into the next read. What the reads return
    has to be one message for the forwarder, which knows no more than the header says. */
module ClientRequests {
  import opened Bytes
  import opened PduCodec
  import opened IsoPackets
  import opened IsoTransfer
  import opened Framing

  const DEVID := 8
  const START_FRAME := 28
  const SETUP := 40

  /** Driver to socket: requests in host order, leaving in network order. */
  const ClientMode := Mode(true, false, true)

  // ---------------------------------------------------------------------------
  // What the forwarder makes of a request's header
  // ---------------------------------------------------------------------------

  /** A request's length by its fields: an unlink is a header alone; the data of a submit follows
      its header if it goes OUT, and 16 bytes for each packet follow either way. */
  predicate RequestSize(h: seq<byte>, size: nat)
    requires HEADER_SIZE <= |h|
  {
    if Word(h, 0) == 2 then size == 48
    else size == 48 + (if Word(h, 12) == 0 then Word(h, 24) else 0) + 16 * Word(h, 32)
  }

  /** Lengths and packet counts that fit signed 32-bit lengths. */
  predicate FitsFields(h: seq<byte>)
    requires HEADER_SIZE <= |h|
  {
    Word(h, 24) < 0x8000_0000 && Word(h, 32) < 0x800_0000
  }

  /** A request is one message if and only if it has the length of its fields. */
  lemma {:induction false} RequestFramedIff(m: Mode, raw: seq<byte>, d: u32)
    requires m.isReq && HEADER_SIZE <= |raw| && FitsFields(HostHeader(m, raw))
    ensures IsPdu(m, raw, d) <==> RequestSize(HostHeader(m, raw), |raw|)
  {
    hide HostHeader;
    assert Header(m, raw, d) == HostHeader(m, raw);
  }

  /** So a stream of requests is framed if and only if each has the length of its fields. */
  lemma {:induction false} RequestsFramedIff(m: Mode, look: seq<byte> -> u32, raws: seq<seq<byte>>)
    requires m.isReq
    requires forall k :: 0 <= k < |raws| ==> HEADER_SIZE <= |raws[k]| && FitsFields(HostHeader(m, raws[k]))
    ensures Framed(m, look, raws)
            <==> forall k :: 0 <= k < |raws| ==> RequestSize(HostHeader(m, raws[k]), |raws[k]|)
  {
    hide IsPdu, HostHeader, RequestSize, MessageDirection;
    forall k | 0 <= k < |raws|
      ensures IsPdu(m, raws[k], MessageDirection(m, look, raws[k])) <==> RequestSize(HostHeader(m, raws[k]), |raws[k]|)
    {
      RequestFramedIff(m, raws[k], MessageDirection(m, look, raws[k]));
    }
  }

  // ---------------------------------------------------------------------------
  // Headers
  // ---------------------------------------------------------------------------

  /** What every request of an endpoint says: its number, the device, the endpoint with its
      interval, and the flags of the transfer, already translated. */
  datatype Ids = Ids(seqnum: u32, devid: u32, ep: u32, interval: u32, flags: u32)

  /** The words of a buffer from its start. */
  predicate HasWords(b: seq<byte>, ws: seq<u32>) {
    4 * |ws| <= |b| && forall k: nat | k < |ws| :: Word(b, 4 * k) == ws[k]
  }

  function SubmitWords(ids: Ids, direct: bool, len: u32, startFrame: u32, nPkts: u32): seq<u32> {
    [1, ids.seqnum, ids.devid, if direct then 1 else 0, ids.ep, ids.flags, len, startFrame, nPkts, ids.interval]
  }

  /** Stores word k behind the words before it. */
  method StoreWord(h: array<byte>, k: nat, v: u32, ghost ws: seq<u32>)
    requires k < |ws| && v == ws[k] && 4 * |ws| <= h.Length && HasWords(h[..], ws[..k])
    modifies h
    ensures HasWords(h[..], ws[..k + 1]) && h[4 * |ws|..] == old(h[4 * |ws|..])
  {
    ghost var b := h[..];
    PutWordAt(h, 4 * k, v);
    WordOfPutWord(b, 4 * k, v);
    forall j: nat | j < k
      ensures Word(h[..], 4 * j) == ws[j]
    {
      assert Word(b, 4 * j) == ws[..k][j];
      PutWordOther(b, 4 * k, v, 4 * j);
    }
  }

  /** set_cmd_submit_usbip_header: everything but the setup bytes. */
  method SetCmdSubmitUsbipHeader(h: array<byte>, ids: Ids, direct: bool, len: u32)
    requires HEADER_SIZE <= h.Length
    modifies h
    ensures HasWords(h[..], SubmitWords(ids, direct, len, 0, 0)) && h[SETUP..] == old(h[SETUP..])
  {
    hide HasWords;
    ghost var ws := SubmitWords(ids, direct, len, 0, 0);
    NoWords(h[..], ws);
    StoreWord(h, 0, CMD_SUBMIT, ws);
    StoreWord(h, 1, ids.seqnum, ws);
    StoreWord(h, 2, ids.devid, ws);
    StoreWord(h, 3, if direct then DIR_IN else DIR_OUT, ws);
    StoreWord(h, 4, ids.ep, ws);
    StoreWord(h, 5, ids.flags, ws);
    StoreWord(h, 6, len, ws);
    StoreWord(h, 7, 0, ws);
    StoreWord(h, 8, 0, ws);
    StoreWord(h, 9, ids.interval, ws);
    assert ws[..10] == ws;
  }

  lemma {:induction false} NoWords(b: seq<byte>, ws: seq<u32>)
    ensures HasWords(b, ws[..0])
  {
  }

  /** set_cmd_unlink_usbip_header. */
  method SetCmdUnlinkUsbipHeader(h: array<byte>, ids: Ids, target: u32)
    requires HEADER_SIZE <= h.Length
    modifies h
    ensures HasWords(h[..], [2, ids.seqnum, ids.devid, 0, 0, target]) && h[24..] == old(h[24..])
  {
    hide HasWords;
    ghost var ws: seq<u32> := [2, ids.seqnum, ids.devid, 0, 0, target];
    NoWords(h[..], ws);
    StoreWord(h, 0, CMD_UNLINK, ws);
    StoreWord(h, 1, ids.seqnum, ws);
    StoreWord(h, 2, ids.devid, ws);
    StoreWord(h, 3, DIR_OUT, ws);
    StoreWord(h, 4, 0, ws);
    StoreWord(h, 5, target, ws);
    assert ws[..6] == ws;
  }

  // ---------------------------------------------------------------------------
  // Requests
  // ---------------------------------------------------------------------------

  /** The requests a client can make: transfers with their buffer, of which a control, vendor or
      class transfer has eight setup bytes and an isochronous one packets; descriptor and status
      requests, which only announce a length, and configuration, interface and pipe requests,
      which have none; and unlinks. */
  datatype Transfer =
    | Control(isIn: bool, data: seq<byte>, setup: seq<byte>)
    | VendorClass(isIn: bool, data: seq<byte>, setup: seq<byte>)
    | Bulk(isIn: bool, data: seq<byte>)
    | Iso(isIn: bool, data: seq<byte>, pk: seq<Packet>, startFrame: u32)
    | Query(len: u32, setup: seq<byte>)
    | Command(setup: seq<byte>)
    | Unlink(target: u32)

  /** Setup packets have eight bytes, an isochronous transfer has packets, and lengths fit their
      fields. */
  predicate Proper(t: Transfer) {
    match t
    case Control(_, data, setup) => |data| < 0x8000_0000 && |setup| == 8
    case VendorClass(_, data, setup) => |data| < 0x8000_0000 && |setup| == 8
    case Bulk(_, data) => |data| < 0x8000_0000
    case Iso(_, data, pk, _) => |data| < 0x8000_0000 && 0 < |pk| < 0x800_0000
    case Query(len, setup) => len < 0x8000_0000 && |setup| == 8
    case Command(setup) => |setup| == 8
    case Unlink(_) => true
  }

  /** The words a request's header starts with. */
  function HeaderWords(t: Transfer, ids: Ids): seq<u32>
    requires Proper(t)
  {
    match t
    case Control(isIn, data, _) => SubmitWords(ids, isIn, |data|, 0, 0)
    case VendorClass(isIn, data, _) => SubmitWords(ids, isIn, |data|, 0, 0)
    case Bulk(isIn, data) => SubmitWords(ids, isIn, |data|, 0, 0)
    case Iso(isIn, data, pk, startFrame) => SubmitWords(ids, isIn, |data|, startFrame, |pk|)
    case Query(len, _) => SubmitWords(ids, true, len, 0, 0)
    case Command(_) => SubmitWords(ids, false, 0, 0, 0)
    case Unlink(target) => [2, ids.seqnum, ids.devid, 0, 0, target]
  }

  /** The bytes that go to the device: those of an OUT transfer. */
  function OutData(t: Transfer): seq<byte> {
    if (t.Control? || t.VendorClass? || t.Bulk? || t.Iso?) && !t.isIn then t.data else []
  }

  function PayloadLen(t: Transfer): nat {
    |OutData(t)| + if t.Iso? then DESC_SIZE * |t.pk| else 0
  }

  /** The payload at `at`: the bytes that go to the device and, for an isochronous transfer, a
      descriptor for each packet, right if the offsets ascend. */
  ghost predicate PayloadAt(b: seq<byte>, at: nat, t: Transfer)
    requires Proper(t)
  {
    && at + PayloadLen(t) <= |b|
    && b[at..at + |OutData(t)|] == OutData(t)
    && (t.Iso? && Ascending(t.pk) ==> Descs(b, at + |OutData(t)|, |t.pk|) == Expected(t.pk, |t.data|))
  }

  ghost predicate HeaderIn(b: seq<byte>, t: Transfer, ids: Ids)
    requires Proper(t) && HEADER_SIZE <= |b|
  {
    && HasWords(b, HeaderWords(t, ids))
    && (t.Control? || t.VendorClass? || t.Query? || t.Command? ==> b[SETUP..HEADER_SIZE] == t.setup)
    && (t.Bulk? ==> b[SETUP..HEADER_SIZE] == seq(8, _ => 0))
  }

  /** What a read returns: how many bytes, and whether the payload is still to come. */
  datatype Stored = TooSmall | Took(info: nat, rest: bool)

  // ---------------------------------------------------------------------------
  // The driver's code
  // ---------------------------------------------------------------------------

  method CopySetup(hdr: array<byte>, setup: seq<byte>)
    requires HEADER_SIZE <= hdr.Length && |setup| == 8
    modifies hdr
    ensures hdr[SETUP..HEADER_SIZE] == setup && hdr[..SETUP] == old(hdr[..SETUP])
    ensures hdr[HEADER_SIZE..] == old(hdr[HEADER_SIZE..])
  {
    forall i | 0 <= i < 8 {
      hdr[SETUP + i] := setup[i];
    }
  }

  /** Words in front of the setup bytes stay. */
  lemma {:induction false} WordsKept(b: seq<byte>, c: seq<byte>, ws: seq<u32>)
    requires HasWords(b, ws) && 4 * |ws| <= SETUP <= |b| && SETUP <= |c| && c[..SETUP] == b[..SETUP]
    ensures HasWords(c, ws)
  {
    forall k: nat | k < |ws|
      ensures Word(c, 4 * k) == ws[k]
    {
      WordOfSlice(b, 0, SETUP, 4 * k);
      WordOfSlice(c, 0, SETUP, 4 * k);
    }
  }

  /** The header of a request that has setup bytes. */
  method StoreHeader(dst: array<byte>, ids: Ids, direct: bool, len: u32, setup: seq<byte>)
    requires HEADER_SIZE <= dst.Length && |setup| == 8
    modifies dst
    ensures HasWords(dst[..], SubmitWords(ids, direct, len, 0, 0)) && dst[SETUP..HEADER_SIZE] == setup
  {
    SetCmdSubmitUsbipHeader(dst, ids, direct, len);
    ghost var b := dst[..];
    CopySetup(dst, setup);
    WordsKept(b, dst[..], SubmitWords(ids, direct, len, 0, 0));
  }

  /** Copies the data of an OUT transfer behind the header. */
  method CopyData(dst: array<byte>, data: seq<byte>)
    requires HEADER_SIZE + |data| <= dst.Length
    modifies dst
    ensures dst[..HEADER_SIZE] == old(dst[..HEADER_SIZE]) && dst[HEADER_SIZE..HEADER_SIZE + |data|] == data
  {
    forall i | 0 <= i < |data| {
      dst[HEADER_SIZE + i] := data[i];
    }
  }

  /** store_urbr_control_transfer and its extended form. */
  method StoreUrbrControlTransfer(dst: array<byte>, ids: Ids, t: Transfer) returns (r: Stored)
    requires t.Control? && Proper(t)
    modifies dst
    ensures r == FirstRead(t, dst.Length) && Filled(dst[..], t, ids, r)
  {
    if dst.Length < HEADER_SIZE {
      return TooSmall;
    }
    StoreHeader(dst, ids, t.isIn, |t.data|, t.setup);
    r := Took(HEADER_SIZE, false);
    if !t.isIn && |t.data| > 0 {
      if dst.Length - HEADER_SIZE >= |t.data| {
        ghost var b := dst[..];
        CopyData(dst, t.data);
        HeaderKept(b, dst[..], t, ids);
        r := Took(HEADER_SIZE + |t.data|, false);
      } else {
        r := Took(HEADER_SIZE, true);
      }
    }
  }

  lemma {:induction false} HeaderKept(b: seq<byte>, c: seq<byte>, t: Transfer, ids: Ids)
    requires Proper(t) && HEADER_SIZE <= |b| && HEADER_SIZE <= |c| && HeaderIn(b, t, ids)
    requires c[..HEADER_SIZE] == b[..HEADER_SIZE]
    ensures HeaderIn(c, t, ids)
  {
    assert c[..SETUP] == c[..HEADER_SIZE][..SETUP] && b[..SETUP] == b[..HEADER_SIZE][..SETUP];
    assert c[SETUP..HEADER_SIZE] == c[..HEADER_SIZE][SETUP..] && b[SETUP..HEADER_SIZE] == b[..HEADER_SIZE][SETUP..];
    WordsKept(b, c, HeaderWords(t, ids));
  }

  /** What the first read of a request returns. Room for the payload is used, with two exceptions:
      a bulk transfer copies its data but returns the header alone, and an IN vendor or class
      request returns no bytes at all. */
  function FirstRead(t: Transfer, size: nat): Stored {
    if size < HEADER_SIZE then TooSmall
    else if t.VendorClass? && t.isIn then Took(0, false)
    else if size - HEADER_SIZE < PayloadLen(t) then Took(HEADER_SIZE, true)
    else Took(HEADER_SIZE + if t.Bulk? then 0 else PayloadLen(t), false)
  }

  /** The read buffer holds the request's header and, unless it is still to come, its payload. */
  ghost predicate Filled(b: seq<byte>, t: Transfer, ids: Ids, r: Stored)
    requires Proper(t)
  {
    r.Took? ==> HEADER_SIZE <= |b| && HeaderIn(b, t, ids) && (!r.rest ==> PayloadAt(b, HEADER_SIZE, t))
  }

  /** store_urbr_vendor_class: the number of bytes is set on the OUT path only. */
  method StoreUrbrVendorClass(dst: array<byte>, ids: Ids, t: Transfer) returns (r: Stored)
    requires t.VendorClass? && Proper(t)
    modifies dst
    ensures r == FirstRead(t, dst.Length) && Filled(dst[..], t, ids, r)
  {
    if dst.Length < HEADER_SIZE {
      return TooSmall;
    }
    StoreHeader(dst, ids, t.isIn, |t.data|, t.setup);
    r := Took(0, false);
    if !t.isIn {
      if dst.Length - HEADER_SIZE >= |t.data| {
        ghost var b := dst[..];
        CopyData(dst, t.data);
        HeaderKept(b, dst[..], t, ids);
        r := Took(HEADER_SIZE + |t.data|, false);
      } else {
        r := Took(HEADER_SIZE, true);
      }
    }
  }

  /** store_urbr_bulk: the number of bytes is set before the data is copied, and stays. */
  method StoreUrbrBulk(dst: array<byte>, ids: Ids, t: Transfer) returns (r: Stored)
    requires t.Bulk? && Proper(t)
    modifies dst
    ensures r == FirstRead(t, dst.Length) && Filled(dst[..], t, ids, r)
  {
    if dst.Length < HEADER_SIZE {
      return TooSmall;
    }
    StoreHeader(dst, ids, t.isIn, |t.data|, seq(8, _ => 0));
    r := Took(HEADER_SIZE, false);
    if !t.isIn {
      if dst.Length - HEADER_SIZE >= |t.data| {
        ghost var b := dst[..];
        CopyData(dst, t.data);
        HeaderKept(b, dst[..], t, ids);
      } else {
        r := Took(HEADER_SIZE, true);
      }
    }
  }

  /** store_urbr_iso. */
  method StoreUrbrIso(dst: array<byte>, ids: Ids, t: Transfer) returns (r: Stored)
    requires t.Iso? && Proper(t)
    modifies dst
    ensures r == FirstRead(t, dst.Length) && Filled(dst[..], t, ids, r)
  {
    if dst.Length < HEADER_SIZE {
      return TooSmall;
    }
    SetCmdSubmitUsbipHeader(dst, ids, t.isIn, |t.data|);
    IsoWords(dst, ids, t);
    if dst.Length - HEADER_SIZE >= PayloadLen(t) {
      ghost var b := dst[..];
      var ok, base := StoreIsoData(dst, HEADER_SIZE, t.data, t.isIn, t.pk, |t.data|);
      HeaderKept(b, dst[..], t, ids);
      r := Took(HEADER_SIZE + PayloadLen(t), false);
    } else {
      r := Took(HEADER_SIZE, true);
    }
  }

  /** The start frame and the number of packets. */
  method IsoWords(dst: array<byte>, ids: Ids, t: Transfer)
    requires t.Iso? && Proper(t) && HEADER_SIZE <= dst.Length
    requires HasWords(dst[..], SubmitWords(ids, t.isIn, |t.data|, 0, 0))
    modifies dst
    ensures HeaderIn(dst[..], t, ids)
  {
    ghost var b := dst[..];
    PutWordAt(dst, START_FRAME, t.startFrame);
    ghost var c := dst[..];
    PutWordAt(dst, N_PACKETS, |t.pk|);
    ghost var ws := SubmitWords(ids, t.isIn, |t.data|, 0, 0);
    ghost var ws1: seq<u32> := SubmitWords(ids, t.isIn, |t.data|, t.startFrame, 0);
    OtherWord(b, ws, 7, t.startFrame);
    assert ws[7 := t.startFrame] == ws1;
    OtherWord(c, ws1, 8, |t.pk|);
    assert ws1[8 := |t.pk|] == HeaderWords(t, ids);
  }

  lemma {:induction false} OtherWord(b: seq<byte>, ws: seq<u32>, k: nat, v: u32)
    requires k < |ws| && HasWords(b, ws)
    ensures HasWords(PutWord(b, 4 * k, v), ws[k := v])
  {
    WordOfPutWord(b, 4 * k, v);
    forall j: nat | j < |ws|
      ensures Word(PutWord(b, 4 * k, v), 4 * j) == ws[k := v][j]
    {
      if j != k {
        PutWordOther(b, 4 * k, v, 4 * j);
      }
    }
  }

  /** The requests that never have a payload: store_urbr_dscr_dev and store_urbr_dscr_intf,
      store_urbr_get_status, store_urbr_select_config, store_urbr_select_interface and
      store_urbr_reset_pipe. */
  method StoreUrbrBare(dst: array<byte>, ids: Ids, t: Transfer) returns (r: Stored)
    requires (t.Query? || t.Command?) && Proper(t)
    modifies dst
    ensures r == FirstRead(t, dst.Length) && Filled(dst[..], t, ids, r)
  {
    if dst.Length < HEADER_SIZE {
      return TooSmall;
    }
    StoreHeader(dst, ids, t.Query?, if t.Query? then t.len else 0, t.setup);
    r := Took(HEADER_SIZE, false);
  }

  /** store_cancelled_urbr. */
  method StoreCancelledUrbr(dst: array<byte>, ids: Ids, t: Transfer) returns (r: Stored)
    requires t.Unlink?
    modifies dst
    ensures r == FirstRead(t, dst.Length) && Filled(dst[..], t, ids, r)
  {
    if dst.Length < HEADER_SIZE {
      return TooSmall;
    }
    SetCmdUnlinkUsbipHeader(dst, ids, t.target);
    r := Took(HEADER_SIZE, false);
  }

  /** store_urbr. */
  method StoreUrbr(dst: array<byte>, ids: Ids, t: Transfer) returns (r: Stored)
    requires Proper(t)
    modifies dst
    ensures r == FirstRead(t, dst.Length) && Filled(dst[..], t, ids, r)
  {
    match t
    case Control(_, _, _) => r := StoreUrbrControlTransfer(dst, ids, t);
    case VendorClass(_, _, _) => r := StoreUrbrVendorClass(dst, ids, t);
    case Bulk(_, _) => r := StoreUrbrBulk(dst, ids, t);
    case Iso(_, _, _, _) => r := StoreUrbrIso(dst, ids, t);
    case Unlink(_) => r := StoreCancelledUrbr(dst, ids, t);
    case _ => r := StoreUrbrBare(dst, ids, t);
  }

  /** store_urbr_partial: the payload alone. */
  method StoreUrbrPartial(dst: array<byte>, t: Transfer) returns (r: Stored)
    requires Proper(t) && FirstRead(t, HEADER_SIZE) == Took(HEADER_SIZE, true)
    modifies dst
    ensures r == if dst.Length < PayloadLen(t) then TooSmall else Took(PayloadLen(t), false)
    ensures r.Took? ==> PayloadAt(dst[..], 0, t)
  {
    if dst.Length < PayloadLen(t) {
      return TooSmall;
    }
    if t.Iso? {
      var ok, base := StoreIsoData(dst, 0, t.data, t.isIn, t.pk, |t.data|);
    } else {
      forall i | 0 <= i < |t.data| {
        dst[i] := t.data[i];
      }
    }
    r := Took(PayloadLen(t), false);
  }

  // ---------------------------------------------------------------------------
  // What the reads return
  // ---------------------------------------------------------------------------

  /** The whole message of a request: its header and its payload. */
  ghost predicate IsMessage(b: seq<byte>, t: Transfer, ids: Ids)
    requires Proper(t)
  {
    |b| == HEADER_SIZE + PayloadLen(t) && HeaderIn(b, t, ids) && PayloadAt(b, HEADER_SIZE, t)
  }

  /** A first read of this size leads to the whole message: not for an IN vendor or class request,
      and for a bulk transfer with data that goes OUT only if it has no room for the data. */
  predicate Whole(t: Transfer, size: nat) {
    && !(t.VendorClass? && t.isIn)
    && (t.Bulk? && !t.isIn && t.data != [] ==> size < HEADER_SIZE + |t.data|)
  }

  /** A bulk transfer of one byte is lost in a read that has room for it and goes through in two
      reads without; an IN class request is lost in every read. */
  lemma {:induction false} LostRequests(size: nat)
    ensures var t := Bulk(false, [0]); Proper(t) && !Whole(t, HEADER_SIZE + 1) && Whole(t, HEADER_SIZE)
    ensures var t := VendorClass(true, [], seq(8, _ => 0)); Proper(t) && !Whole(t, size)
  {
  }

  /** The fields of a request's header tell the length of its message. */
  lemma {:induction false} SizeOfRequest(b: seq<byte>, t: Transfer, ids: Ids, size: nat)
    requires Proper(t) && HEADER_SIZE <= |b| && HeaderIn(b, t, ids)
    ensures FitsFields(b[..HEADER_SIZE]) || t.Unlink?
    ensures RequestSize(b[..HEADER_SIZE], size) <==> size == HEADER_SIZE + PayloadLen(t)
  {
    var ws, h := HeaderWords(t, ids), b[..HEADER_SIZE];
    WordOfSlice(b, 0, HEADER_SIZE, 4 * 0);
    WordOfSlice(b, 0, HEADER_SIZE, 4 * 3);
    WordOfSlice(b, 0, HEADER_SIZE, 4 * 6);
    WordOfSlice(b, 0, HEADER_SIZE, 4 * 8);
    assert Word(b, 4 * 0) == ws[0] && Word(b, 4 * 3) == ws[3];
    if !t.Unlink? {
      assert Word(b, 4 * 6) == ws[6] && Word(b, 4 * 8) == ws[8];
    }
  }

  /** A request that starts with its header is one message for the forwarder if and only if it has
      its whole payload. */
  lemma {:induction false} ClientFramedIff(b: seq<byte>, t: Transfer, ids: Ids, d: u32)
    requires Proper(t) && HEADER_SIZE <= |b| && HeaderIn(b, t, ids)
    ensures IsPdu(ClientMode, b, d) <==> |b| == HEADER_SIZE + PayloadLen(t)
    ensures Plain(ClientMode, b[..HEADER_SIZE]) && Total(ClientMode, b[..HEADER_SIZE]) == HEADER_SIZE + PayloadLen(t)
  {
    hide HeaderIn;
    SizeOfRequest(b, t, ids, |b|);
    SizeOfRequest(b, t, ids, HEADER_SIZE + PayloadLen(t));
    assert HostHeader(ClientMode, b) == b[..HEADER_SIZE];
    if t.Unlink? {
      UnlinkCommand(b, t, ids);
    } else {
      RequestFramedIff(ClientMode, b, d);
    }
  }

  lemma {:induction false} UnlinkCommand(b: seq<byte>, t: Transfer, ids: Ids)
    requires t.Unlink? && HEADER_SIZE <= |b| && HeaderIn(b, t, ids)
    ensures Word(b[..HEADER_SIZE], COMMAND) == CMD_UNLINK
  {
    WordOfSlice(b, 0, HEADER_SIZE, 4 * 0);
    assert Word(b, 4 * 0) == HeaderWords(t, ids)[0];
  }

  /** The message survives the network: the server's forwarder frames it too and has it back in
      host order. */
  lemma {:induction false} ServerGetsMessage(b: seq<byte>, t: Transfer, ids: Ids, d: u32)
    requires Proper(t) && IsMessage(b, t, ids)
    ensures IsPdu(ClientMode, b, d)
    ensures var back, c := Mode(true, true, false), Output(ClientMode, b, d);
      IsPdu(back, c, d) && Output(back, c, d) == b
  {
    ClientFramedIff(b, t, ids, d);
    NetworkRoundTrip(ClientMode, Mode(true, true, false), b, d);
    assert Restored(ClientMode, b, d) == b;
  }

  /** What the forwarder's reads bring: a first read with `size` bytes of room and, if the payload
      is still to come, a second one with room for it. */
  method ReadMessage(ids: Ids, t: Transfer, size: nat, more: nat) returns (bytes: seq<byte>)
    requires Proper(t) && HEADER_SIZE <= size && PayloadLen(t) <= more
    ensures Whole(t, size) ==> IsMessage(bytes, t, ids)
    ensures forall d :: IsPdu(ClientMode, bytes, d) <==> Whole(t, size)
  {
    hide HeaderIn, PayloadAt, IsPdu, Total;
    var first := new byte[size];
    var r := StoreUrbr(first, ids, t);
    bytes := first[..r.info];
    if r.rest {
      var second := new byte[more];
      var q := StoreUrbrPartial(second, t);
      bytes := bytes + second[..q.info];
      PayloadMoves(second[..], 0, bytes, HEADER_SIZE, t);
    } else if HEADER_SIZE <= |bytes| {
      PayloadWhereRead(first[..], bytes, t);
    }
    if HEADER_SIZE <= |bytes| {
      HeaderKept(first[..], bytes, t, ids);
      forall d
        ensures IsPdu(ClientMode, bytes, d) <==> Whole(t, size)
      {
        ClientFramedIff(bytes, t, ids, d);
      }
    } else {
      NoHeaderNoPdu(bytes);
    }
  }

  lemma {:induction false} NoHeaderNoPdu(b: seq<byte>)
    requires |b| < HEADER_SIZE
    ensures forall d :: !IsPdu(ClientMode, b, d)
  {
  }

  lemma {:induction false} PayloadWhereRead(b: seq<byte>, c: seq<byte>, t: Transfer)
    requires Proper(t) && PayloadAt(b, HEADER_SIZE, t) && c <= b
    ensures HEADER_SIZE + PayloadLen(t) <= |c| ==> PayloadAt(c, HEADER_SIZE, t)
  {
    hide PayloadAt;
    if HEADER_SIZE + PayloadLen(t) <= |c| {
      PayloadMoves(b, HEADER_SIZE, c, HEADER_SIZE, t);
    }
  }

  lemma {:induction false} SameStretch(b: seq<byte>, at: nat, c: seq<byte>, to: nat, size: nat, lo: nat, hi: nat)
    requires at + size <= |b| && to + size <= |c| && c[to..to + size] == b[at..at + size] && lo <= hi <= size
    ensures b[at + lo..at + hi] == c[to + lo..to + hi]
  {
    var x, y := b[at + lo..at + hi], c[to + lo..to + hi];
    forall i | 0 <= i < |x|
      ensures x[i] == y[i]
    {
      assert b[at..at + size][lo + i] == c[to..to + size][lo + i];
    }
  }

  lemma {:induction false} PayloadMoves(b: seq<byte>, at: nat, c: seq<byte>, to: nat, t: Transfer)
    requires Proper(t) && PayloadAt(b, at, t) && to + PayloadLen(t) <= |c|
    requires c[to..to + PayloadLen(t)] == b[at..at + PayloadLen(t)]
    ensures PayloadAt(c, to, t)
  {
    hide Descs, Expected, OutData;
    var n, size := |OutData(t)|, PayloadLen(t);
    SameStretch(b, at, c, to, size, 0, n);
    if t.Iso? {
      SameStretch(b, at, c, to, size, n, size);
      DescsSame(b, at + n, c, to + n, |t.pk|);
    }
  }
}
