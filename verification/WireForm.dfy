/** What leaves the forwarder, word by word: the byte order of every field of a message in host
    order and of the same message in network order. */
module WireForm {
  import opened Bytes
  import opened PduCodec
  import opened Framing
  import opened Forwarder

  /** The four bytes at o are in opposite orders. */
  predicate Flipped(b: seq<byte>, c: seq<byte>, o: nat) {
    && o + 4 <= |b| && o + 4 <= |c|
    && c[o] == b[o + 3] && c[o + 1] == b[o + 2] && c[o + 2] == b[o + 1] && c[o + 3] == b[o]
  }

  /** The word at o read in network order. */
  function NetWord(b: seq<byte>, o: nat): u32
    requires o + 4 <= |b|
  {
    Word([b[o + 3], b[o + 2], b[o + 1], b[o]], 0)
  }

  lemma {:induction false} NetWordOfFlipped(b: seq<byte>, c: seq<byte>, o: nat)
    requires Flipped(b, c, o)
    ensures NetWord(c, o) == Word(b, o)
  {
  }

  predicate Kept(b: seq<byte>, c: seq<byte>, lo: nat, hi: nat)
    requires hi <= |b| && hi <= |c|
  {
    forall i: nat | lo <= i < hi :: c[i] == b[i]
  }

  /** The words of the union a command uses: five of a submit or its reply, one of an unlink or
      its reply. */
  function UnionFields(command: u32): (n: nat)
    ensures n <= 5
  {
    match command
    case 1 => 5
    case 3 => 5
    case 2 => 1
    case 4 => 1
    case _ => 0
  }

  /** Where the descriptors of a host-order message begin: 16 bytes a packet at its end, none for
      an unlink. */
  predicate DescsAt(isReq: bool, b: seq<byte>, at: nat)
    requires HEADER_SIZE <= |b|
  {
    && HEADER_SIZE <= at <= |b|
    && |b| - at == if Word(b, 0) == (if isReq then 2 else 4) then 0 else 16 * Signed(Word(b, 32))
  }

  /** The data is the same, and every word of the descriptors behind it is reversed. */
  ghost predicate OpposedRows(b: seq<byte>, c: seq<byte>, at: nat) {
    && HEADER_SIZE <= at <= |b| == |c|
    && Kept(b, c, HEADER_SIZE, at)
    && forall o: nat | at <= o < |b| && (o - at) % 4 == 0 :: Flipped(b, c, o)
  }

  /** Of the message b in host order c is the form in network order: the five words of the base,
      those of the union the command uses, and the four words of every descriptor are reversed;
      the rest of the header and the data are the same. */
  ghost predicate IsWireForm(isReq: bool, b: seq<byte>, c: seq<byte>) {
    && HEADER_SIZE <= |b| == |c|
    && var n := UnionFields(Word(b, 0));
    && (forall o: nat | o < 20 + 4 * n && o % 4 == 0 :: Flipped(b, c, o))
    && Kept(b, c, 20 + 4 * n, HEADER_SIZE)
    && exists at: nat :: DescsAt(isReq, b, at) && OpposedRows(b, c, at)
  }

  /** Swapping words flips each of them. */
  lemma {:induction false} SwapFlips(b: seq<byte>, start: nat, n: nat, o: nat)
    requires start + 4 * n <= |b| && start <= o < start + 4 * n && (o - start) % 4 == 0
    ensures Flipped(b, SwapWords(b, start, n), o)
  {
    hide Mirror;
    var q := (o - start) / 4;
    assert o == start + 4 * q;
    MirrorInWord(start, q, 0);
    MirrorInWord(start, q, 1);
    MirrorInWord(start, q, 2);
    MirrorInWord(start, q, 3);
  }

  lemma {:induction false} HeaderFlips(b: seq<byte>, o: nat)
    requires HEADER_SIZE <= |b|
    ensures var n := UnionFields(Word(b, 0));
      && (o < 20 + 4 * n && o % 4 == 0 ==> Flipped(b, SwapHeader(b, false), o))
      && Kept(b, SwapHeader(b, false), 20 + 4 * n, |b|)
  {
    hide Mirror, Word;
    var base, n := SwapWords(b, 0, 5), UnionWords(Word(b, COMMAND));
    if o % 4 == 0 && o < 20 {
      SwapFlips(b, 0, 5, o);
    } else if o % 4 == 0 && o < 20 + 4 * n {
      SwapFlips(base, UNION, n, o);
    }
  }

  /** The header of a message decides its words. */
  lemma {:induction false} SameHeaderWord(b: seq<byte>, s: seq<byte>)
    requires HEADER_SIZE <= |b| && HEADER_SIZE <= |s| && s[..HEADER_SIZE] == b[..HEADER_SIZE]
    ensures Word(s, 0) == Word(b, 0) && forall i :: 0 <= i < HEADER_SIZE ==> s[i] == b[i]
  {
    WordOfSlice(b, 0, HEADER_SIZE, 0);
    WordOfSlice(s, 0, HEADER_SIZE, 0);
    assert forall i :: 0 <= i < HEADER_SIZE ==> s[i] == s[..HEADER_SIZE][i] == b[..HEADER_SIZE][i] == b[i];
  }

  /** The header of a message put in network order. */
  lemma {:induction false} EncodedHeader(b: seq<byte>, s: seq<byte>)
    requires HEADER_SIZE <= |b| == |s| && s[..HEADER_SIZE] == b[..HEADER_SIZE]
    ensures var c, n := SwapHeader(s, false), UnionFields(Word(b, 0));
      && (forall o: nat | o < 20 + 4 * n && o % 4 == 0 :: Flipped(b, c, o))
      && Kept(b, c, 20 + 4 * n, HEADER_SIZE) && Kept(s, c, HEADER_SIZE, |s|)
  {
    SameHeaderWord(b, s);
    HeaderFlips(s, 0);
    hide SwapHeader, Word, UnionFields;
    var c, n := SwapHeader(s, false), UnionFields(Word(b, 0));
    forall o: nat | o < 20 + 4 * n && o % 4 == 0
      ensures Flipped(b, c, o)
    {
      HeaderFlips(s, o);
    }
  }

  /** The descriptors of a message swapped. */
  lemma {:induction false} EncodedBody(m: Mode, b: seq<byte>)
    requires HEADER_SIZE <= |b| && Plain(m, b) && |b| == Total(m, b)
    ensures var s, at := SwapIso(m, b), HEADER_SIZE + XferLen(m, b);
      DescsAt(m.isReq, b, at) && OpposedRows(b, s, at)
  {
    var s, at := SwapIso(m, b), HEADER_SIZE + XferLen(m, b);
    assert DescsAt(m.isReq, b, at);
    forall o: nat | at <= o < |b| && (o - at) % 4 == 0
      ensures Flipped(b, s, o)
    {
      SwapFlips(b, at, 4 * Count(Packets(b)), o);
    }
  }

  lemma {:induction false} RowsKept(b: seq<byte>, s: seq<byte>, c: seq<byte>, at: nat)
    requires OpposedRows(b, s, at) && |c| == |s| && Kept(s, c, HEADER_SIZE, |s|)
    ensures OpposedRows(b, c, at)
  {
    forall o: nat | at <= o < |b| && (o - at) % 4 == 0
      ensures Flipped(b, c, o)
    {
      assert Flipped(b, s, o);
    }
  }

  /** Descriptors first, then the header: the form in network order. */
  lemma {:induction false} EncodedForm(m: Mode, b: seq<byte>)
    requires HEADER_SIZE <= |b| && Plain(m, b) && |b| == Total(m, b)
    ensures IsWireForm(m.isReq, b, SwapHeader(SwapIso(m, b), false))
  {
    hide SwapHeader, SwapIso, UnionFields, Word, DescsAt;
    SwapIsoKeeps(m, b);
    EncodedBody(m, b);
    EncodedHeader(b, SwapIso(m, b));
    var c := SwapHeader(SwapIso(m, b), false);
    var at := HEADER_SIZE + XferLen(m, b);
    RowsKept(b, SwapIso(m, b), c, at);
  }

  /** The message with the direction of its request: a reply that is not to an unlink takes it. */
  function Directed(m: Mode, b: seq<byte>, d: u32): seq<byte>
    requires HEADER_SIZE <= |b|
  {
    if !m.isReq && Word(b, 0) != 4 then PutWord(b, 12, d) else b
  }

  /** What leaves in network order is the network form of the message with its direction. */
  lemma {:induction false} LeavesInNetworkOrder(m: Mode, raw: seq<byte>, d: u32)
    requires !m.swapReq && m.swapWrite && IsPdu(m, raw, d)
    ensures IsWireForm(m.isReq, Directed(m, raw, d), Output(m, raw, d))
  {
    RestoredIsWhole(m, raw, d);
    EncodedForm(m, Restored(m, raw, d));
    DirectedIsRestored(m, raw, d);
  }

  lemma {:induction false} DirectedIsRestored(m: Mode, raw: seq<byte>, d: u32)
    requires !m.swapReq && HEADER_SIZE <= |raw|
    ensures Restored(m, raw, d) == Directed(m, raw, d)
  {
    WordOfSlice(raw, 0, HEADER_SIZE, COMMAND);
  }

  /** The header that arrived in network order is the network form of the host-order one. */
  lemma {:induction false} ArrivedHeader(m: Mode, raw: seq<byte>, body: seq<byte>)
    requires m.swapReq && HEADER_SIZE <= |raw| && |body| == |raw| - HEADER_SIZE
    ensures var host := HostHeader(m, raw) + body; var n := UnionFields(Word(host, 0));
      && (forall o: nat | o < 20 + 4 * n && o % 4 == 0 :: Flipped(host, raw, o))
      && Kept(host, raw, 20 + 4 * n, HEADER_SIZE)
  {
    hide SwapHeader, UnionFields, Word;
    var h := HostHeader(m, raw);
    HeaderRoundTrip(raw[..HEADER_SIZE], true);
    SwapHeaderLocal(h + raw[HEADER_SIZE..], false);
    var b := h + raw[HEADER_SIZE..];
    assert b[..HEADER_SIZE] == h && b[HEADER_SIZE..] == raw[HEADER_SIZE..];
    assert raw[..HEADER_SIZE] + raw[HEADER_SIZE..] == raw;
    assert (h + body)[..HEADER_SIZE] == h;
    EncodedHeader(h + body, h + raw[HEADER_SIZE..]);
  }

  /** Restoring the direction keeps command and packet count. */
  lemma {:induction false} DirectionAlone(m: Mode, h: seq<byte>, d: u32)
    requires |h| == HEADER_SIZE
    ensures var r := Directed(m, h, d); |r| == HEADER_SIZE && Word(r, 0) == Word(h, 0) && Word(r, 32) == Word(h, 32)
  {
    WordOfPutWord(h, 12, d);
  }

  lemma {:induction false} SameDescs(isReq: bool, b: seq<byte>, c: seq<byte>, at: nat)
    requires HEADER_SIZE <= |b| == |c| && DescsAt(isReq, b, at)
    requires Word(b, 0) == Word(c, 0) && Word(b, 32) == Word(c, 32)
    ensures DescsAt(isReq, c, at)
  {
  }

  lemma {:induction false} WordsInFront(h: seq<byte>, body: seq<byte>)
    requires |h| == HEADER_SIZE
    ensures Word(h + body, 0) == Word(h, 0) && Word(h + body, 32) == Word(h, 32)
  {
  }

  lemma {:induction false} DirectedFront(m: Mode, h: seq<byte>, body: seq<byte>, d: u32)
    requires |h| == HEADER_SIZE
    ensures Directed(m, h + body, d) == Directed(m, h, d) + body
  {
    WordsInFront(h, body);
  }

  lemma {:induction false} RestoredFront(m: Mode, raw: seq<byte>, d: u32)
    requires HEADER_SIZE <= |raw|
    ensures Header(m, raw, d) == Directed(m, HostHeader(m, raw), d)
    ensures Restored(m, raw, d)[..HEADER_SIZE] == Header(m, raw, d)
    ensures Restored(m, raw, d)[HEADER_SIZE..] == raw[HEADER_SIZE..]
  {
    hide HostHeader;
  }

  /** Only what is behind the header counts, and which of the two is in host order does not. */
  lemma {:induction false} OpposedBodies(b: seq<byte>, c: seq<byte>, x: seq<byte>, y: seq<byte>, at: nat)
    requires OpposedRows(b, c, at) && |x| == |y| == |b|
    requires x[HEADER_SIZE..] == c[HEADER_SIZE..] && y[HEADER_SIZE..] == b[HEADER_SIZE..]
    ensures OpposedRows(x, y, at)
  {
    assert forall i :: HEADER_SIZE <= i < |b| ==> x[i] == x[HEADER_SIZE..][i - HEADER_SIZE] == c[i];
    assert forall i :: HEADER_SIZE <= i < |b| ==> y[i] == y[HEADER_SIZE..][i - HEADER_SIZE] == b[i];
    forall o: nat | at <= o < |x| && (o - at) % 4 == 0
      ensures Flipped(x, y, o)
    {
      assert Flipped(b, c, o);
    }
  }

  /** The descriptors that arrived. */
  lemma {:induction false} ArrivedDescs(m: Mode, raw: seq<byte>, d: u32, host: seq<byte>) returns (at: nat)
    requires IsPdu(m, raw, d) && |host| == |raw| && host[..HEADER_SIZE] == HostHeader(m, raw)
    requires var b := Restored(m, raw, d); Plain(m, b) && |b| == Total(m, b)
    ensures DescsAt(m.isReq, host, at)
    ensures OpposedRows(Restored(m, raw, d), SwapIso(m, Restored(m, raw, d)), at)
  {
    hide HostHeader, Word, PutWord, SwapIso;
    var h, b := HostHeader(m, raw), Restored(m, raw, d);
    RestoredIsWhole(m, raw, d);
    at := HEADER_SIZE + XferLen(m, b);
    EncodedBody(m, b);
    RestoredFront(m, raw, d);
    DirectionAlone(m, h, d);
    assert b == b[..HEADER_SIZE] + b[HEADER_SIZE..] && host == host[..HEADER_SIZE] + host[HEADER_SIZE..];
    WordsInFront(b[..HEADER_SIZE], b[HEADER_SIZE..]);
    WordsInFront(h, host[HEADER_SIZE..]);
    SameDescs(m.isReq, b, host, at);
  }

  /** What arrived in network order leaves in host order: it is the message whose network form
      arrived, with its direction. */
  lemma {:induction false} LeavesInHostOrder(m: Mode, raw: seq<byte>, d: u32) returns (host: seq<byte>)
    requires m.swapReq && !m.swapWrite && IsPdu(m, raw, d)
    ensures IsWireForm(m.isReq, host, raw) && Output(m, raw, d) == Directed(m, host, d)
  {
    hide HostHeader, Word, PutWord, Plain, Total, XferLen, SwapIso, Directed, DescsAt, Restored, UnionFields, Header;
    hide OpposedRows;
    var h, b, out := HostHeader(m, raw), Restored(m, raw, d), Output(m, raw, d);
    RestoredIsWhole(m, raw, d);
    SwapIsoKeeps(m, b);
    RestoredFront(m, raw, d);
    host := h + out[HEADER_SIZE..];
    var at := ArrivedDescs(m, raw, d, host);
    OpposedBodies(b, out, host, raw, at);
    ArrivedHeader(m, raw, out[HEADER_SIZE..]);
    DirectedFront(m, h, out[HEADER_SIZE..], d);
    WireOfParts(m.isReq, host, raw, at);
  }

  lemma {:induction false} WireOfParts(isReq: bool, b: seq<byte>, c: seq<byte>, at: nat)
    requires HEADER_SIZE <= |b| == |c| && DescsAt(isReq, b, at) && OpposedRows(b, c, at)
    requires forall o: nat | o < 20 + 4 * UnionFields(Word(b, 0)) && o % 4 == 0 :: Flipped(b, c, o)
    requires Kept(b, c, 20 + 4 * UnionFields(Word(b, 0)), HEADER_SIZE)
    ensures IsWireForm(isReq, b, c)
  {
    hide Word, UnionFields;
  }

  /** Whether a request asks for data is told from its first setup byte when it leaves in host
      order; a request that leaves in network order never looks like one that does. */
  lemma {:induction false} AsksInHostOrder(m: Mode, raw: seq<byte>, d: u32)
    requires m.swapReq != m.swapWrite && IsPdu(m, raw, d)
    ensures m.swapWrite && 1 <= Word(raw, 0) <= 4 ==> !AsksForData(Output(m, raw, d))
    ensures m.swapReq ==> (AsksForData(Output(m, raw, d)) <==> Word(Output(m, raw, d), 0) == 1 && raw[40] >= 0x80)
  {
    hide SwapHeader, PutWord, Output, IsPdu, Word;
    if m.swapWrite {
      LeavesInNetworkOrder(m, raw, d);
      CommandOfDirected(m, raw, d);
      if 1 <= Word(raw, 0) <= 4 {
        FlippedSmall(Directed(m, raw, d), Output(m, raw, d));
      }
    } else {
      var host := LeavesInHostOrder(m, raw, d);
      CommandOfDirected(m, host, d);
    }
  }

  lemma {:induction false} CommandOfDirected(m: Mode, b: seq<byte>, d: u32)
    requires HEADER_SIZE <= |b|
    ensures var r := Directed(m, b, d); |r| == |b| && Word(r, 0) == Word(b, 0) && r[40] == b[40]
  {
    WordOfPutWord(b, 12, d);
  }

  lemma {:induction false} FlippedSmall(b: seq<byte>, c: seq<byte>)
    requires 4 <= |b| && 4 <= |c| && Flipped(b, c, 0) && 1 <= Word(b, 0) <= 4
    ensures Word(c, 0) > 4
  {
    SmallWord(b[0], b[1], b[2], b[3]);
  }
}
