/** The endian codecs of the USB/IP protocol: a 48-byte header whose last 28 bytes are a union
    tagged by the command, followed by data and isochronous packet descriptors. The forwarder
    and the driver library each have one. */
module PduCodec {
  import opened Bytes


  const CMD_SUBMIT: u32 := 1
  const CMD_UNLINK: u32 := 2
  const RET_SUBMIT: u32 := 3
  const RET_UNLINK: u32 := 4

  const DIR_OUT: u32 := 0
  const DIR_IN: u32 := 1

  /** Offsets of header fields. */
  const COMMAND := 0
  const SEQNUM := 4
  const DIRECTION := 12
  const UNION := 20
  const XFER_LEN := 24
  const N_PACKETS := 32

  /** A 32-bit word as a signed integer. */
  function Signed(v: u32): int {
    if v < 0x8000_0000 then v else v - 0x1_0000_0000
  }

  /** How many words of the union a command's variant has. */
  function UnionWords(command: u32): (n: nat)
    ensures n <= 5
  {
    if command == CMD_SUBMIT || command == RET_SUBMIT then 5
    else if command == CMD_UNLINK || command == RET_UNLINK then 1
    else 0
  }

  // ---------------------------------------------------------------------------
  // Headers
  // ---------------------------------------------------------------------------

  /** swap_usbip_header_endian: the command that selects the variant is read where it is in
      host order. */
  function SwapHeader(b: seq<byte>, fromSwapped: bool): (r: seq<byte>)
    requires HEADER_SIZE <= |b|
    ensures |r| == |b|
  {
    var base := SwapWords(b, 0, 5);
    SwapWords(base, UNION, UnionWords(Word(if fromSwapped then base else b, COMMAND)))
  }

  /** The driver's swap_usbip_header always reads the command before swapping it. */
  function SwapHeaderInDriver(b: seq<byte>): (r: seq<byte>)
    requires HEADER_SIZE <= |b|
    ensures |r| == |b|
  {
    var base := SwapWords(b, 4, 4);
    SwapWords(SwapWords(base, UNION, UnionWords(Word(base, COMMAND))), COMMAND, 1)
  }

  /** Swapping the union leaves the base alone. */
  lemma {:induction false} BaseKept(b: seq<byte>, n: nat)
    requires HEADER_SIZE <= |b| && UNION + 4 * n <= |b|
    ensures Word(SwapWords(b, UNION, n), COMMAND) == Word(b, COMMAND)
  {
    WordOfSwapWords(b, UNION, n, COMMAND);
  }

  /** Only the first 48 bytes matter and change. */
  lemma {:induction false} SwapHeaderLocal(b: seq<byte>, fromSwapped: bool)
    requires HEADER_SIZE <= |b|
    ensures SwapHeader(b, fromSwapped) == SwapHeader(b[..HEADER_SIZE], fromSwapped) + b[HEADER_SIZE..]
  {
    var h := b[..HEADER_SIZE];
    var base, baseH := SwapWords(b, 0, 5), SwapWords(h, 0, 5);
    SwapWordsPrefix(b, 0, 5, HEADER_SIZE);
    WordOfSlice(b, 0, HEADER_SIZE, COMMAND);
    assert base[..HEADER_SIZE] == baseH && base[HEADER_SIZE..] == b[HEADER_SIZE..];
    WordOfSlice(base, 0, HEADER_SIZE, COMMAND);
    SwapWordsPrefix(base, UNION, UnionWords(Word(if fromSwapped then base else b, COMMAND)), HEADER_SIZE);
  }

  /** Whatever the command, known or not, a header swapped from network order and back is the
      header, in both directions. */
  lemma {:induction false} HeaderRoundTrip(b: seq<byte>, fromSwapped: bool)
    requires HEADER_SIZE <= |b|
    ensures SwapHeader(SwapHeader(b, fromSwapped), !fromSwapped) == b
  {
    var base := SwapWords(b, 0, 5);
    var n := UnionWords(Word(if fromSwapped then base else b, COMMAND));
    var r := SwapWords(base, UNION, n);
    SwapWordsTwice(b, 0, 5);
    BaseKept(base, n);
    BaseKept(b, n);
    SwapWordsCommute(base, 0, 5, UNION, n);
    assert SwapWords(r, 0, 5) == SwapWords(b, UNION, n);
    assert UnionWords(Word(if !fromSwapped then SwapWords(r, 0, 5) else r, COMMAND)) == n;
    SwapWordsTwice(b, UNION, n);
  }

  /** The driver's codec is the forwarder's host-to-network codec. */
  lemma {:induction false} DriverEncodes(b: seq<byte>)
    requires HEADER_SIZE <= |b|
    ensures SwapHeaderInDriver(b) == SwapHeader(b, false)
  {
    var base := SwapWords(b, 4, 4);
    var n := UnionWords(Word(b, COMMAND));
    WordOfSwapWords(b, 4, 4, COMMAND);
    SwapWordsCommute(base, COMMAND, 1, UNION, n);
    SplitBase(b);
  }

  lemma {:induction false} SplitBase(b: seq<byte>)
    requires HEADER_SIZE <= |b|
    ensures SwapWords(SwapWords(b, 4, 4), 0, 1) == SwapWords(b, 0, 5)
  {
    var c := SwapWords(b, 4, 4);
    forall i | 0 <= i < |b|
      ensures SwapWords(c, 0, 1)[i] == SwapWords(b, 0, 5)[i]
    {
      if i < 4 {
        assert Mirror(0, i) < 4;
      } else if i < 20 {
        assert Mirror(4, i) == Mirror(0, i);
      }
    }
  }

  lemma {:induction false} SmallWord(b0: byte, b1: byte, b2: byte, b3: byte)
    requires 1 <= b0 + 0x100 * b1 + 0x1_0000 * b2 + 0x100_0000 * b3 <= 4
    ensures b3 + 0x100 * b2 + 0x1_0000 * b1 + 0x100_0000 * b0 > 4
  {
    assert b1 == 0 && b2 == 0 && b3 == 0;
  }

  lemma {:induction false} SmallFlips(b: seq<byte>)
    requires 4 <= |b| && 1 <= Word(b, 0) <= 4
    ensures Word([b[3], b[2], b[1], b[0]], 0) > 4
  {
    SmallWord(b[0], b[1], b[2], b[3]);
  }

  /** A known command does not look known in the other byte order. */
  lemma {:induction false} OneOrderOnly(b: seq<byte>)
    requires HEADER_SIZE <= |b|
    ensures UnionWords(Word(b, COMMAND)) == 0 || UnionWords(Word(SwapWords(b, 0, 5), COMMAND)) == 0
  {
    hide SwapWords, Word;
    WordOfSwapWords(b, 0, 5, COMMAND);
    if 1 <= Word(b, COMMAND) <= 4 {
      SmallFlips(b);
    }
  }

  /** Used on a header that arrives in network order, the driver's codec agrees with the
      forwarder's if and only if the command is known in neither byte order or every word of
      the variant reads the same in both. */
  lemma {:induction false} DriverDecodesIff(b: seq<byte>)
    requires HEADER_SIZE <= |b|
    ensures var n, m := UnionWords(Word(b, COMMAND)), UnionWords(Word(SwapWords(b, 0, 5), COMMAND));
      SwapHeaderInDriver(b) == SwapHeader(b, true)
      <==> forall i :: UNION <= i < UNION + 4 * n || UNION <= i < UNION + 4 * m ==> b[i] == b[Mirror(UNION, i)]
  {
    DriverEncodes(b);
    OneOrderOnly(b);
    var base := SwapWords(b, 0, 5);
    var n, m := UnionWords(Word(b, COMMAND)), UnionWords(Word(base, COMMAND));
    var k := if n == 0 then m else n;
    assert base == SwapWords(base, UNION, 0);
    assert SwapHeaderInDriver(b) == SwapHeader(b, true) <==> SwapWords(base, UNION, k) == base;
    SameIffMirrored(base, k);
    forall i | UNION <= i < UNION + 4 * k
      ensures base[i] == b[i] && base[Mirror(UNION, i)] == b[Mirror(UNION, i)]
    {
    }
  }

  lemma {:induction false} SameIffMirrored(b: seq<byte>, k: nat)
    requires UNION + 4 * k <= |b|
    ensures SwapWords(b, UNION, k) == b <==> forall i :: UNION <= i < UNION + 4 * k ==> b[i] == b[Mirror(UNION, i)]
  {
    var c := SwapWords(b, UNION, k);
    if c == b {
      forall i | UNION <= i < UNION + 4 * k
        ensures b[i] == b[Mirror(UNION, i)]
      {
        assert c[i] == b[i];
      }
    }
  }

  // ---------------------------------------------------------------------------
  // Whole messages
  // ---------------------------------------------------------------------------

  /** The packet count of a host-order header; both submit variants keep it in one place. */
  function Packets(b: seq<byte>): int
    requires HEADER_SIZE <= |b|
  {
    Signed(Word(b, N_PACKETS))
  }

  function Count(n: int): nat {
    if n < 0 then 0 else n
  }

  /** The message has room for its descriptors behind xferLen bytes of data. */
  predicate HoldsDescs(b: seq<byte>, xferLen: nat) {
    HEADER_SIZE <= |b| && HEADER_SIZE + xferLen + DESC_SIZE * Count(Packets(b)) <= |b|
  }

  /** The descriptors of a message swapped. */
  function SwapDescs(b: seq<byte>, xferLen: nat): (r: seq<byte>)
    requires HoldsDescs(b, xferLen)
    ensures |r| == |b|
  {
    SwapWords(b, HEADER_SIZE + xferLen, 4 * Count(Packets(b)))
  }

  /** From network to host order: header first, which tells the number of descriptors. */
  function Decode(b: seq<byte>, xferLen: nat): (r: seq<byte>)
    requires HEADER_SIZE <= |b| && HoldsDescs(SwapHeader(b, true), xferLen)
  {
    SwapDescs(SwapHeader(b, true), xferLen)
  }

  /** From host to network order: descriptors first, while their number can be read. */
  function Encode(b: seq<byte>, xferLen: nat): (r: seq<byte>)
    requires HoldsDescs(b, xferLen)
  {
    SwapHeader(SwapDescs(b, xferLen), false)
  }

  lemma {:induction false} DescsKeepPackets(b: seq<byte>, xferLen: nat)
    requires HoldsDescs(b, xferLen)
    ensures Packets(SwapDescs(b, xferLen)) == Packets(b)
    ensures SwapDescs(b, xferLen)[..HEADER_SIZE] == b[..HEADER_SIZE]
    ensures SwapDescs(SwapDescs(b, xferLen), xferLen) == b
  {
    WordOfSwapWords(b, HEADER_SIZE + xferLen, 4 * Count(Packets(b)), N_PACKETS);
    SwapWordsTwice(b, HEADER_SIZE + xferLen, 4 * Count(Packets(b)));
  }

  /** Decoding and encoding a whole message, with any command and any number of descriptors,
      is the identity. */
  lemma {:induction false} MessageRoundTrip(b: seq<byte>, xferLen: nat)
    requires HEADER_SIZE <= |b| && HoldsDescs(SwapHeader(b, true), xferLen)
    ensures var r := Decode(b, xferLen); HoldsDescs(r, xferLen) && Encode(r, xferLen) == b
  {
    DescsKeepPackets(SwapHeader(b, true), xferLen);
    HeaderRoundTrip(b, true);
  }

  /** Encoding and decoding likewise. */
  lemma {:induction false} HostRoundTrip(b: seq<byte>, xferLen: nat)
    requires HoldsDescs(b, xferLen)
    ensures var r := Encode(b, xferLen); HoldsDescs(SwapHeader(r, true), xferLen) && Decode(r, xferLen) == b
  {
    DescsKeepPackets(b, xferLen);
    HeaderRoundTrip(SwapDescs(b, xferLen), false);
  }

  // ---------------------------------------------------------------------------
  // The forwarder's code
  // ---------------------------------------------------------------------------

  /** Swaps five consecutive fields: the base header, or a submit variant of the union. */
  method SwapFive(a: array<byte>, o: nat)
    requires o + 20 <= a.Length
    modifies a
    ensures a[..] == SwapWords(old(a[..]), o, 5)
  {
    ghost var was := a[..];
    SwapWordAt(a, o);
    SwapWordAt(a, o + 4);
    SwapWordsExtend(was, o, 1);
    SwapWordAt(a, o + 8);
    SwapWordsExtend(was, o, 2);
    SwapWordAt(a, o + 12);
    SwapWordsExtend(was, o, 3);
    SwapWordAt(a, o + 16);
    SwapWordsExtend(was, o, 4);
  }

  method WordAt(a: array<byte>, o: nat) returns (v: u32)
    requires o + 4 <= a.Length
    ensures v == Word(a[..], o)
  {
    v := Word(a[..], o);
  }

  method SwapUsbipHeaderCmd(cmd: u32, a: array<byte>)
    requires HEADER_SIZE <= a.Length
    modifies a
    ensures a[..] == SwapWords(old(a[..]), UNION, UnionWords(cmd))
  {
    if cmd == CMD_SUBMIT || cmd == RET_SUBMIT {
      SwapFive(a, UNION);
    } else if cmd == CMD_UNLINK || cmd == RET_UNLINK {
      SwapWordAt(a, UNION);
    } else {
      assert SwapWords(a[..], UNION, 0) == a[..];
    }
  }

  method SwapUsbipHeaderEndian(a: array<byte>, fromSwapped: bool)
    requires HEADER_SIZE <= a.Length
    modifies a
    ensures a[..] == SwapHeader(old(a[..]), fromSwapped)
  {
    var cmd: u32;
    if fromSwapped {
      SwapFive(a, 0);
      cmd := WordAt(a, COMMAND);
    } else {
      cmd := WordAt(a, COMMAND);
      SwapFive(a, 0);
    }
    SwapUsbipHeaderCmd(cmd, a);
  }

  /** Swaps the fields of one descriptor in the forwarder's order. */
  method SwapDesc(a: array<byte>, o: nat)
    requires o + DESC_SIZE <= a.Length
    modifies a
    ensures a[..] == SwapWords(old(a[..]), o, 4)
  {
    ghost var was := a[..];
    SwapWordAt(a, o);
    SwapWordAt(a, o + 12);
    SwapWordAt(a, o + 4);
    SwapWordAt(a, o + 8);
    FieldOrder(was, o);
  }

  lemma {:induction false} SwapNone(b: seq<byte>, start: nat)
    requires start <= |b|
    ensures SwapWords(b, start, 0) == b
  {
  }

  /** Swaps num descriptors. */
  method SwapIsoDescsEndian(a: array<byte>, buf: nat, num: int)
    requires buf + DESC_SIZE * Count(num) <= a.Length
    modifies a
    ensures a[..] == SwapWords(old(a[..]), buf, 4 * Count(num))
  {
    hide SwapWords;
    ghost var was := a[..];
    var ipDesc, i := buf, 0;
    SwapNone(was, buf);
    while i < num
      invariant 0 <= i <= Count(num) && ipDesc == buf + DESC_SIZE * i
      invariant a[..] == SwapWords(was, buf, 4 * i)
    {
      SwapDesc(a, ipDesc);
      SwapDescExtend(was, buf, i);
      ipDesc := ipDesc + DESC_SIZE;
      i := i + 1;
    }
  }

  /** The order in which the fields of a descriptor are visited does not matter. */
  lemma {:induction false} FieldOrder(b: seq<byte>, o: nat)
    requires o + DESC_SIZE <= |b|
    ensures SwapWords(SwapWords(SwapWords(SwapWords(b, o, 1), o + 12, 1), o + 4, 1), o + 8, 1)
         == SwapWords(b, o, 4)
  {
    var c := SwapWords(b, o, 1);
    SwapWordsCommute(c, o + 4, 1, o + 12, 1);
    SwapWordsCommute(SwapWords(c, o + 4, 1), o + 8, 1, o + 12, 1);
    FieldsInRow(b, o);
  }

  lemma {:induction false} FieldsInRow(b: seq<byte>, o: nat)
    requires o + DESC_SIZE <= |b|
    ensures SwapWords(SwapWords(SwapWords(SwapWords(b, o, 1), o + 4, 1), o + 8, 1), o + 12, 1)
         == SwapWords(b, o, 4)
  {
    SwapWordsExtend(b, o, 1);
    SwapWordsExtend(b, o, 2);
    SwapWordsExtend(b, o, 3);
  }

  /** Swapping n descriptors and then the next one swaps n + 1 of them. */
  lemma {:induction false} SwapDescExtend(b: seq<byte>, start: nat, n: nat)
    requires start + DESC_SIZE * (n + 1) <= |b|
    ensures SwapWords(SwapWords(b, start, 4 * n), start + DESC_SIZE * n, 4) == SwapWords(b, start, 4 * (n + 1))
  {
    var c := SwapWords(b, start, 4 * n);
    FieldsInRow(c, start + DESC_SIZE * n);
    SwapWordsExtend(b, start, 4 * n);
    SwapWordsExtend(b, start, 4 * n + 1);
    SwapWordsExtend(b, start, 4 * n + 2);
    SwapWordsExtend(b, start, 4 * n + 3);
  }

  // ---------------------------------------------------------------------------
  // The driver's code
  // ---------------------------------------------------------------------------

  method SwapUsbipHeader(a: array<byte>)
    requires HEADER_SIZE <= a.Length
    modifies a
    ensures a[..] == SwapHeader(old(a[..]), false)
  {
    ghost var was := a[..];
    SwapWordAt(a, 4);
    SwapWordAt(a, 8);
    SwapWordsExtend(was, 4, 1);
    SwapWordAt(a, 12);
    SwapWordsExtend(was, 4, 2);
    SwapWordAt(a, 16);
    SwapWordsExtend(was, 4, 3);
    var cmd := WordAt(a, COMMAND);
    SwapUsbipHeaderCmd(cmd, a);
    SwapWordAt(a, COMMAND);
    DriverEncodes(was);
  }

  /** Swaps the fields of one descriptor in the driver's order. */
  method SwapDescInRow(a: array<byte>, o: nat)
    requires o + DESC_SIZE <= a.Length
    modifies a
    ensures a[..] == SwapWords(old(a[..]), o, 4)
  {
    ghost var was := a[..];
    SwapWordAt(a, o);
    SwapWordAt(a, o + 4);
    SwapWordAt(a, o + 8);
    SwapWordAt(a, o + 12);
    FieldsInRow(was, o);
  }

  /** The driver finds the descriptors behind actual_length bytes of data and visits their
      fields in another order than the forwarder; the result is the same. */
  method SwapUsbipIsoDescs(a: array<byte>)
    requires HEADER_SIZE <= a.Length && 0 <= Signed(Word(a[..], XFER_LEN))
    requires HoldsDescs(a[..], Signed(Word(a[..], XFER_LEN)))
    modifies a
    ensures a[..] == SwapDescs(old(a[..]), Signed(Word(old(a[..]), XFER_LEN)))
  {
    ghost var was := a[..];
    var nPkts := WordAt(a, N_PACKETS);
    var actualLength := WordAt(a, XFER_LEN);
    SwapRows(a, HEADER_SIZE + Signed(actualLength), Signed(nPkts));
  }

  method SwapRows(a: array<byte>, start: nat, nPkts: int)
    requires start + DESC_SIZE * Count(nPkts) <= a.Length
    modifies a
    ensures a[..] == SwapWords(old(a[..]), start, 4 * Count(nPkts))
  {
    hide SwapWords;
    ghost var was := a[..];
    var isoDesc, i := start, 0;
    SwapNone(was, start);
    while i < nPkts
      invariant 0 <= i <= Count(nPkts) && isoDesc == start + DESC_SIZE * i
      invariant a[..] == SwapWords(was, start, 4 * i)
    {
      SwapDescInRow(a, isoDesc);
      SwapDescExtend(was, start, i);
      isoDesc := isoDesc + DESC_SIZE;
      i := i + 1;
    }
  }
}
