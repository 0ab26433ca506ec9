/** The isochronous gather/scatter pipeline: the client's descriptors, the server's buffer
    with its in-place compaction, and the client's scatter. */
module IsoTransfer {
  import opened Bytes
  import opened IsoPackets

  // ---------------------------------------------------------------------------
  // Descriptors inside byte buffers
  // ---------------------------------------------------------------------------

  function DescAt(b: seq<byte>, o: nat): IsoDesc
    requires o + DESC_SIZE <= |b|
  {
    IsoDesc(Word(b, o), Word(b, o + 4), Word(b, o + 8), Word(b, o + 12))
  }

  function Descs(b: seq<byte>, base: nat, n: nat): (r: seq<IsoDesc>)
    requires base + DESC_SIZE * n <= |b|
    ensures |r| == n
  {
    seq(n, j requires 0 <= j < n => DescAt(b, base + DESC_SIZE * j))
  }

  /** A descriptor is its sixteen bytes, wherever they stand. */
  lemma {:induction false} DescSame(b: seq<byte>, o: nat, c: seq<byte>, q: nat)
    requires o + DESC_SIZE <= |b| && q + DESC_SIZE <= |c|
    requires b[o..o + DESC_SIZE] == c[q..q + DESC_SIZE]
    ensures DescAt(b, o) == DescAt(c, q)
  {
    WordOfSlice(b, o, o + DESC_SIZE, 0);
    WordOfSlice(b, o, o + DESC_SIZE, 4);
    WordOfSlice(b, o, o + DESC_SIZE, 8);
    WordOfSlice(b, o, o + DESC_SIZE, 12);
    WordOfSlice(c, q, q + DESC_SIZE, 0);
    WordOfSlice(c, q, q + DESC_SIZE, 4);
    WordOfSlice(c, q, q + DESC_SIZE, 8);
    WordOfSlice(c, q, q + DESC_SIZE, 12);
  }

  lemma {:induction false} SubSlice(b: seq<byte>, x: nat, y: nat, lo: nat, hi: nat)
    requires x <= y <= |b| && lo <= hi <= y - x
    ensures b[x..y][lo..hi] == b[x + lo..x + hi]
  {
    forall i | 0 <= i < hi - lo
      ensures b[x..y][lo..hi][i] == b[x + lo..x + hi][i]
    {
      assert b[x..y][lo + i] == b[x + lo + i];
    }
  }

  /** A row of descriptors is its bytes, wherever they stand. */
  lemma {:induction false} DescsSame(b: seq<byte>, x: nat, c: seq<byte>, y: nat, n: nat)
    requires x + DESC_SIZE * n <= |b| && y + DESC_SIZE * n <= |c|
    requires b[x..x + DESC_SIZE * n] == c[y..y + DESC_SIZE * n]
    ensures Descs(b, x, n) == Descs(c, y, n)
  {
    hide DescAt;
    forall i | 0 <= i < n
      ensures Descs(b, x, n)[i] == Descs(c, y, n)[i]
    {
      var k := DESC_SIZE * i;
      SubSlice(b, x, x + DESC_SIZE * n, k, k + DESC_SIZE);
      SubSlice(c, y, y + DESC_SIZE * n, k, k + DESC_SIZE);
      DescSame(b, x + k, c, y + k);
    }
  }

  /** Writing the offset, actual length and status of a descriptor keeps its length. */
  function PutResult(b: seq<byte>, o: nat, offset: u32, actual: u32, status: u32): (r: seq<byte>)
    requires o + DESC_SIZE <= |b|
    ensures |r| == |b|
  {
    PutWord(PutWord(PutWord(b, o, offset), o + 8, actual), o + 12, status)
  }

  /** The row of descriptors b[base..], seen through an update of one of them. */
  ghost predicate OneDescChanged(b: seq<byte>, c: seq<byte>, base: nat, n: nat, i: nat, d: IsoDesc)
    requires base + DESC_SIZE * n <= |b| && i < n
  {
    && |c| == |b| && Descs(c, base, n) == Descs(b, base, n)[i := d]
    && c[..base] == b[..base] && c[base + DESC_SIZE * n..] == b[base + DESC_SIZE * n..]
  }

  /** Bytes changed only inside descriptor i, which now reads d. */
  lemma {:induction false} OneDesc(b: seq<byte>, c: seq<byte>, base: nat, n: nat, i: nat, d: IsoDesc)
    requires base + DESC_SIZE * n <= |b| == |c| && i < n
    requires DescAt(c, base + DESC_SIZE * i) == d
    requires forall p :: 0 <= p < |b| && !(base + DESC_SIZE * i <= p < base + DESC_SIZE * (i + 1)) ==> c[p] == b[p]
    ensures OneDescChanged(b, c, base, n, i, d)
  {
    forall j | 0 <= j < n && j != i
      ensures Descs(c, base, n)[j] == Descs(b, base, n)[j]
    {
      DescSame(c, base + DESC_SIZE * j, b, base + DESC_SIZE * j);
    }
  }

  lemma {:induction false} PutResultDesc(b: seq<byte>, base: nat, n: nat, i: nat, offset: u32, actual: u32, status: u32)
    requires base + DESC_SIZE * n <= |b| && i < n
    ensures var d := Descs(b, base, n)[i];
            OneDescChanged(b, PutResult(b, base + DESC_SIZE * i, offset, actual, status), base, n, i,
                           IsoDesc(offset, d.length, actual, status))
  {
    var o := base + DESC_SIZE * i;
    var b1 := PutWord(b, o, offset);
    var b2 := PutWord(b1, o + 8, actual);
    var b3 := PutWord(b2, o + 12, status);
    WordOfPutWord(b, o, offset);
    WordOfPutWord(b1, o + 8, actual);
    WordOfPutWord(b2, o + 12, status);
    OneDesc(b, b3, base, n, i, IsoDesc(offset, Word(b, o + 4), actual, status));
  }

  lemma {:induction false} PutLengthDesc(b: seq<byte>, base: nat, n: nat, i: nat, length: u32)
    requires base + DESC_SIZE * n <= |b| && i < n
    ensures OneDescChanged(b, PutWord(b, base + DESC_SIZE * i + 4, length), base, n, i,
                           Descs(b, base, n)[i].(length := length))
  {
    var o := base + DESC_SIZE * i;
    WordOfPutWord(b, o + 4, length);
    OneDesc(b, PutWord(b, o + 4, length), base, n, i, DescAt(b, o).(length := length));
  }

  /** RtlCopyMemory from another buffer. */
  method CopyFrom(a: array<byte>, dst: nat, piece: seq<byte>)
    requires dst + |piece| <= a.Length
    modifies a
    ensures a[..] == Spliced(old(a[..]), dst, piece)
  {
    forall k | 0 <= k < |piece| {
      a[dst + k] := piece[k];
    }
  }

  /** One more byte copied; the byte read is still the original one. */
  lemma {:induction false} SplicedGrow(was: seq<byte>, dst: nat, src: nat, k: nat)
    requires dst <= src && src + k < |was|
    ensures Spliced(was, dst, was[src..src + k])[src + k] == was[src + k]
    ensures Spliced(was, dst, was[src..src + k])[dst + k := was[src + k]] == Spliced(was, dst, was[src..src + k + 1])
  {
  }

  /** RtlCopyMemory inside one buffer, copying forward: right whenever the destination does
      not lie behind the source. */
  method CopyForward(a: array<byte>, dst: nat, src: nat, len: nat)
    requires dst <= src && src + len <= a.Length
    modifies a
    ensures a[..] == Spliced(old(a[..]), dst, old(a[src..src + len]))
  {
    ghost var was := a[..];
    var k := 0;
    while k < len
      invariant 0 <= k <= len
      invariant a[..] == Spliced(was, dst, was[src..src + k])
    {
      SplicedGrow(was, dst, src, k);
      a[dst + k] := a[src + k];
      k := k + 1;
    }
  }

  // ---------------------------------------------------------------------------
  // Client: descriptors of a submit request
  // ---------------------------------------------------------------------------

  /** The first i descriptors are written; the length of the last of them is still open. */
  ghost predicate StoredUpTo(ds: seq<IsoDesc>, pk: seq<Packet>, total: u32, i: nat)
    requires i <= |pk| == |ds|
  {
    && (forall j :: 0 <= j < i ==> ds[j] == Expected(pk, total)[j].(length := ds[j].length))
    && (forall j :: 0 <= j < i - 1 ==> ds[j] == Expected(pk, total)[j])
  }

  /** The four writes of one round: b1 after the offset, b2 after the back-patched length,
      c after the zeroed result fields. */
  lemma {:induction false} StoreRound(b: seq<byte>, b1: seq<byte>, b2: seq<byte>, b3: seq<byte>, c: seq<byte>,
                                      base: nat, pk: seq<Packet>, total: u32, i: nat)
    requires base + DESC_SIZE * |pk| <= |b| && i < |pk|
    requires StoredUpTo(Descs(b, base, |pk|), pk, total, i)
    requires i > 0 ==> pk[i - 1].offset <= pk[i].offset
    requires var o := base + DESC_SIZE * i;
             && b1 == PutWord(b, o, pk[i].offset)
             && b2 == (if i > 0 then PutWord(b1, o - DESC_SIZE + 4, pk[i].offset - pk[i - 1].offset) else b1)
             && b3 == PutWord(b2, o + 8, 0)
             && c == PutWord(b3, o + 12, 0)
    ensures StoredUpTo(Descs(c, base, |pk|), pk, total, i + 1)
    ensures c[..base] == b[..base] && c[base + DESC_SIZE * |pk|..] == b[base + DESC_SIZE * |pk|..]
  {
    hide DescAt, PutWord, Descs, Expected, StoredUpTo;
    var n := |pk|;
    PutOffsetDesc(b, base, n, i, pk[i].offset);
    if i > 0 {
      PutLengthDesc(b1, base, n, i - 1, pk[i].offset - pk[i - 1].offset);
    }
    PutZeroesDesc(b2, b3, c, base, n, i);
    StoredStep(Descs(b, base, n), Descs(c, base, n), pk, total, i);
  }

  lemma {:induction false} PutOffsetDesc(b: seq<byte>, base: nat, n: nat, i: nat, offset: u32)
    requires base + DESC_SIZE * n <= |b| && i < n
    ensures OneDescChanged(b, PutWord(b, base + DESC_SIZE * i, offset), base, n, i,
                           Descs(b, base, n)[i].(offset := offset))
  {
    var o := base + DESC_SIZE * i;
    WordOfPutWord(b, o, offset);
    OneDesc(b, PutWord(b, o, offset), base, n, i, DescAt(b, o).(offset := offset));
  }

  lemma {:induction false} PutZeroesDesc(b: seq<byte>, b3: seq<byte>, c: seq<byte>, base: nat, n: nat, i: nat)
    requires base + DESC_SIZE * n <= |b| && i < n
    requires b3 == PutWord(b, base + DESC_SIZE * i + 8, 0) && c == PutWord(b3, base + DESC_SIZE * i + 12, 0)
    ensures OneDescChanged(b, c, base, n, i, Descs(b, base, n)[i].(actualLength := 0, status := 0))
  {
    var o := base + DESC_SIZE * i;
    WordOfPutWord(b, o + 8, 0);
    WordOfPutWord(b3, o + 12, 0);
    OneDesc(b, c, base, n, i, DescAt(b, o).(actualLength := 0, status := 0));
  }

  lemma {:induction false} StoredStep(ds: seq<IsoDesc>, es: seq<IsoDesc>, pk: seq<Packet>, total: u32, i: nat)
    requires |ds| == |pk| && i < |pk| && StoredUpTo(ds, pk, total, i)
    requires i > 0 ==> pk[i - 1].offset <= pk[i].offset
    requires var d := IsoDesc(pk[i].offset, ds[i].length, 0, 0);
             es == if i > 0 then ds[i - 1 := ds[i - 1].(length := pk[i].offset - pk[i - 1].offset)][i := d]
                   else ds[i := d]
    ensures StoredUpTo(es, pk, total, i + 1)
  {
    if i > 0 {
      assert Expected(pk, total)[i - 1].length == pk[i].offset - pk[i - 1].offset;
    }
  }

  lemma {:induction false} StoreLast(b: seq<byte>, c: seq<byte>, base: nat, pk: seq<Packet>, total: u32)
    requires pk != [] && base + DESC_SIZE * |pk| <= |b| && StoredUpTo(Descs(b, base, |pk|), pk, total, |pk|)
    requires c == PutWord(b, base + DESC_SIZE * (|pk| - 1) + 4, ExpectedLength(pk, total, |pk| - 1))
    ensures Descs(c, base, |pk|) == Expected(pk, total)
    ensures c[..base] == b[..base] && c[base + DESC_SIZE * |pk|..] == b[base + DESC_SIZE * |pk|..]
  {
    PutLengthDesc(b, base, |pk|, |pk| - 1, ExpectedLength(pk, total, |pk| - 1));
  }

  /** Writes the payload of an isochronous submit: the data of an OUT transfer, then one
      descriptor per packet, each length back-patched from the next offset. Offsets that go
      backwards stop it; it is only called with at least one packet. */
  method StoreIsoData(dst: array<byte>, at: nat, buf: seq<byte>, isIn: bool, pk: seq<Packet>, total: u32)
    returns (ok: bool, ghost base: nat)
    requires pk != [] && total <= |buf|
    requires at + (if isIn then 0 else total) + DESC_SIZE * |pk| <= dst.Length
    modifies dst
    ensures base == at + if isIn then 0 else total
    ensures ok <==> Ascending(pk)
    ensures dst[..at] == old(dst[..at])
    ensures !isIn ==> dst[at..at + total] == buf[..total]
    ensures ok ==> Descs(dst[..], base, |pk|) == Expected(pk, total)
    ensures dst[base + DESC_SIZE * |pk|..] == old(dst[base + DESC_SIZE * |pk|..])
  {
    hide Descs, Expected, PutWord, StoredUpTo, ExpectedLength;
    var isoDesc := at;
    if !isIn {
      CopyFrom(dst, at, buf[..total]);
      isoDesc := at + total;
    }
    base := isoDesc;
    ghost var start := dst[..];
    assert start[base + DESC_SIZE * |pk|..] == old(dst[base + DESC_SIZE * |pk|..]);
    var offset: u32 := 0;
    var i := 0;
    StoredNone(Descs(start, base, |pk|), pk, total);
    while i < |pk|
      invariant 0 <= i <= |pk| && isoDesc == base + DESC_SIZE * i
      invariant offset == if i == 0 then 0 else pk[i - 1].offset
      invariant forall j :: 0 < j < i ==> pk[j - 1].offset <= pk[j].offset
      invariant StoredUpTo(Descs(dst[..], base, |pk|), pk, total, i)
      invariant dst[..base] == start[..base] && dst[base + DESC_SIZE * |pk|..] == start[base + DESC_SIZE * |pk|..]
    {
      if pk[i].offset < offset {
        ok := false;
        return;
      }
      StoreDesc(dst, isoDesc, base, pk, total, i, offset);
      offset := pk[i].offset;
      isoDesc := isoDesc + DESC_SIZE;
      i := i + 1;
    }
    ghost var b0 := dst[..];
    PutWordAt(dst, isoDesc - DESC_SIZE + 4, (total - offset) % 0x1_0000_0000);
    LastLength(pk, total);
    StoreLast(b0, dst[..], base, pk, total);
    ok := true;
  }

  /** One round: descriptor i, and the length of the one before it. */
  method StoreDesc(dst: array<byte>, isoDesc: nat, ghost base: nat, pk: seq<Packet>, total: u32, i: nat, offset: u32)
    requires i < |pk| && isoDesc == base + DESC_SIZE * i && base + DESC_SIZE * |pk| <= dst.Length
    requires i > 0 ==> offset == pk[i - 1].offset <= pk[i].offset
    requires StoredUpTo(Descs(dst[..], base, |pk|), pk, total, i)
    modifies dst
    ensures StoredUpTo(Descs(dst[..], base, |pk|), pk, total, i + 1)
    ensures dst[..base] == old(dst[..base]) && dst[base + DESC_SIZE * |pk|..] == old(dst[base + DESC_SIZE * |pk|..])
  {
    hide Descs, Expected, PutWord, StoredUpTo, ExpectedLength;
    ghost var b0 := dst[..];
    PutWordAt(dst, isoDesc, pk[i].offset);
    ghost var b1 := dst[..];
    if i > 0 {
      PutWordAt(dst, isoDesc - DESC_SIZE + 4, pk[i].offset - offset);
    }
    ghost var b2 := dst[..];
    PutWordAt(dst, isoDesc + 8, 0);
    ghost var b3 := dst[..];
    PutWordAt(dst, isoDesc + 12, 0);
    StoreRound(b0, b1, b2, b3, dst[..], base, pk, total, i);
  }

  lemma {:induction false} StoredNone(ds: seq<IsoDesc>, pk: seq<Packet>, total: u32)
    requires |ds| == |pk|
    ensures StoredUpTo(ds, pk, total, 0)
  {
  }

  lemma {:induction false} LastLength(pk: seq<Packet>, total: u32)
    requires pk != []
    ensures ExpectedLength(pk, total, |pk| - 1) == (total - pk[|pk| - 1].offset) % 0x1_0000_0000
  {
  }

  // ---------------------------------------------------------------------------
  // Server: the transfer buffer, compaction, and the reply
  // ---------------------------------------------------------------------------

  lemma {:induction false} LengthField(b: seq<byte>, o: nat)
    requires o + DESC_SIZE <= |b|
    ensures DescAt(b, o).length == Word(b, o + 4)
  {
  }

  /** Adds up the announced lengths as a 32-bit unsigned sum. */
  method GetIsoDescsLen(payload: seq<byte>, base: nat, nPkts: nat) returns (len: u32)
    requires base + DESC_SIZE * nPkts <= |payload|
    ensures len == SumLengths(Descs(payload, base, nPkts), nPkts) % 0x1_0000_0000
  {
    hide DescAt;
    ghost var ds := Descs(payload, base, nPkts);
    len := 0;
    var i := 0;
    while i < nPkts
      invariant 0 <= i <= nPkts
      invariant len == SumLengths(ds, i) % 0x1_0000_0000
    {
      LengthField(payload, base + DESC_SIZE * i);
      len := (len + Word(payload, base + DESC_SIZE * i + 4)) % 0x1_0000_0000;
      i := i + 1;
    }
  }

  /** Adds up the packets' actual lengths as a 32-bit unsigned sum. */
  method GetUsbdIsoDescsLen(pk: seq<Packet>) returns (len: u32)
    ensures len == TotalLength(pk, |pk|) % 0x1_0000_0000
  {
    len := 0;
    var i := 0;
    while i < |pk|
      invariant 0 <= i <= |pk|
      invariant len == TotalLength(pk, i) % 0x1_0000_0000
    {
      len := (len + pk[i].length) % 0x1_0000_0000;
      i := i + 1;
    }
  }

  /** The server's buffer for an IN request: room for the data, the request's descriptors
      behind it; and the offsets handed to the USB stack. */
  method ProcessIsoTransfer(payload: seq<byte>, nPkts: nat) returns (data: array<byte>, datalen: u32, offsets: seq<u32>)
    requires DESC_SIZE * nPkts <= |payload|
    ensures fresh(data) && datalen == SumLengths(Descs(payload, 0, nPkts), nPkts) % 0x1_0000_0000
    ensures data.Length == datalen + DESC_SIZE * nPkts
    ensures Descs(data[..], datalen, nPkts) == Descs(payload, 0, nPkts)
    ensures |offsets| == nPkts && forall i :: 0 <= i < nPkts ==> offsets[i] == Descs(payload, 0, nPkts)[i].offset
  {
    datalen := GetIsoDescsLen(payload, 0, nPkts);
    data := new byte[datalen + DESC_SIZE * nPkts];
    CopyFrom(data, datalen, payload[..DESC_SIZE * nPkts]);
    assert data[datalen..datalen + DESC_SIZE * nPkts] == payload[0..DESC_SIZE * nPkts];
    DescsSame(data[..], datalen, payload, 0, nPkts);
    offsets := seq(nPkts, i requires 0 <= i < nPkts => Word(payload, DESC_SIZE * i));
  }

  /** Moves the packets' actual bytes together at the front of the buffer, in place. */
  method CompactUsbdIsoData(data: array<byte>, pk: seq<Packet>)
    requires Placed(pk, data.Length)
    modifies data
    ensures TotalLength(pk, |pk|) <= data.Length
    ensures data[..TotalLength(pk, |pk|)] == Packed(old(data[..]), pk, |pk|)
    ensures data[TotalLength(pk, |pk|)..] == old(data[TotalLength(pk, |pk|)..])
  {
    hide Packed, TotalLength, Placed, Spliced;
    ghost var was := data[..];
    PlacedFits(pk, data.Length);
    PackedNone(was, pk);
    var dst := 0;
    var i := 0;
    while i < |pk|
      invariant 0 <= i <= |pk|
      invariant dst == TotalLength(pk, i) <= data.Length
      invariant data[..dst] == Packed(was, pk, i) && data[dst..] == was[dst..]
    {
      CompactRound(was, data[..], pk, i);
      if dst != pk[i].offset {
        CopyForward(data, dst, pk[i].offset, pk[i].length);
      }
      dst := dst + pk[i].length;
      i := i + 1;
    }
  }

  lemma {:induction false} PlacedFits(pk: seq<Packet>, limit: nat)
    requires Placed(pk, limit)
    ensures Fits(pk, limit)
  {
  }

  lemma {:induction false} PackedNone(b: seq<byte>, pk: seq<Packet>)
    requires Fits(pk, |b|)
    ensures Packed(b, pk, 0) == [] && TotalLength(pk, 0) == 0
  {
  }

  /** One round: the packet about to be copied is still the device's, and what is moved
      behind the packed prefix extends it. */
  lemma {:induction false} CompactRound(was: seq<byte>, b: seq<byte>, pk: seq<Packet>, i: nat)
    requires Placed(pk, |b|) && |was| == |b| && i < |pk| && TotalLength(pk, i) <= |b|
    requires b[..TotalLength(pk, i)] == Packed(was, pk, i) && b[TotalLength(pk, i)..] == was[TotalLength(pk, i)..]
    ensures var t, q := TotalLength(pk, i), pk[i];
            && t <= q.offset && q.offset + q.length <= |b| && TotalLength(pk, i + 1) == t + q.length
            && var c := Spliced(b, t, b[q.offset..q.offset + q.length]);
               && c[..t + q.length] == Packed(was, pk, i + 1) && c[t + q.length..] == was[t + q.length..]
               && (t == q.offset ==> c == b)
  {
    hide Spliced, Packed, TotalLength;
    PlacedBounds(pk, |b|, i);
    PackedNext(was, pk, i);
    MovedForward(was, b, TotalLength(pk, i), pk[i].offset, pk[i].length);
  }

  lemma {:induction false} PlacedBounds(pk: seq<Packet>, limit: nat, i: nat)
    requires Placed(pk, limit) && i < |pk|
    ensures TotalLength(pk, i) <= pk[i].offset && pk[i].offset + pk[i].length <= limit
  {
    TotalBelowOffset(pk, limit, i);
  }

  lemma {:induction false} PackedNext(b: seq<byte>, pk: seq<Packet>, i: nat)
    requires Fits(pk, |b|) && i < |pk|
    ensures TotalLength(pk, i + 1) == TotalLength(pk, i) + pk[i].length
    ensures Packed(b, pk, i + 1) == Packed(b, pk, i) + b[pk[i].offset..pk[i].offset + pk[i].length]
  {
  }

  lemma {:induction false} MovedForward(was: seq<byte>, b: seq<byte>, t: nat, o: nat, len: nat)
    requires t <= o && o + len <= |b| == |was| && b[t..] == was[t..]
    ensures var c := Spliced(b, t, b[o..o + len]);
            && c[..t + len] == b[..t] + was[o..o + len] && c[t + len..] == was[t + len..] && (t == o ==> c == b)
  {
    hide Spliced;
    SliceOfTail(b, was, t, o, o + len);
    SplicedParts(b, t, b[o..o + len]);
    SliceOfTail(b, was, t, t + len, |b|);
    assert b[t + len..|b|] == b[t + len..] && was[t + len..|was|] == was[t + len..];
  }

  lemma {:induction false} SplicedParts(b: seq<byte>, t: nat, piece: seq<byte>)
    requires t + |piece| <= |b|
    ensures var c := Spliced(b, t, piece);
            && c[..t + |piece|] == b[..t] + piece && c[t + |piece|..] == b[t + |piece|..]
            && (piece == b[t..t + |piece|] ==> c == b)
  {
    assert b == b[..t] + b[t..t + |piece|] + b[t + |piece|..];
  }

  lemma {:induction false} SliceOfTail(b: seq<byte>, c: seq<byte>, t: nat, lo: nat, hi: nat)
    requires t <= lo <= hi <= |b| == |c| && b[t..] == c[t..]
    ensures b[lo..hi] == c[lo..hi]
  {
    SubSlice(b, t, |b|, lo - t, hi - t);
    SubSlice(c, t, |c|, lo - t, hi - t);
  }

  /** What USBD reports, written over the request's descriptors; the length field stays. */
  function Results(ds: seq<IsoDesc>, pk: seq<Packet>, toUsbipStatus: u32 -> u32): (r: seq<IsoDesc>)
    requires |ds| == |pk|
    ensures |r| == |pk|
  {
    seq(|pk|, i requires 0 <= i < |pk| =>
      IsoDesc(pk[i].offset, ds[i].length, pk[i].length, toUsbipStatus(pk[i].status)))
  }

  /** Overwrites the descriptors at `base` with results, in place. */
  method ToIsoDescs(data: array<byte>, base: nat, pk: seq<Packet>, toUsbipStatus: u32 -> u32)
    requires base + DESC_SIZE * |pk| <= data.Length
    modifies data
    ensures Descs(data[..], base, |pk|) == Results(Descs(old(data[..]), base, |pk|), pk, toUsbipStatus)
    ensures data[..base] == old(data[..base]) && data[base + DESC_SIZE * |pk|..] == old(data[base + DESC_SIZE * |pk|..])
  {
    hide PutWord, PutResult, DescAt, Results, Descs;
    ghost var was := data[..];
    ghost var ds := Descs(was, base, |pk|);
    ghost var rs := Results(ds, pk, toUsbipStatus);
    var i := 0;
    assert rs[..0] + ds[0..] == ds;
    while i < |pk|
      invariant 0 <= i <= |pk|
      invariant Descs(data[..], base, |pk|) == rs[..i] + ds[i..]
      invariant data[..base] == was[..base] && data[base + DESC_SIZE * |pk|..] == was[base + DESC_SIZE * |pk|..]
    {
      ghost var b := data[..];
      PutResultDesc(b, base, |pk|, i, pk[i].offset, pk[i].length, toUsbipStatus(pk[i].status));
      WriteResult(data, base + DESC_SIZE * i, pk[i].offset, pk[i].length, toUsbipStatus(pk[i].status));
      ResultRound(ds, pk, toUsbipStatus, i);
      i := i + 1;
    }
    assert rs[..|pk|] + ds[|pk|..] == rs;
  }

  lemma {:induction false} ResultRound(ds: seq<IsoDesc>, pk: seq<Packet>, toUsbipStatus: u32 -> u32, i: nat)
    requires i < |pk| == |ds|
    ensures var rs := Results(ds, pk, toUsbipStatus);
            var d := IsoDesc(pk[i].offset, (rs[..i] + ds[i..])[i].length, pk[i].length, toUsbipStatus(pk[i].status));
            (rs[..i] + ds[i..])[i := d] == rs[..i + 1] + ds[i + 1..]
  {
  }

  method WriteResult(data: array<byte>, o: nat, offset: u32, actual: u32, status: u32)
    requires o + DESC_SIZE <= data.Length
    modifies data
    ensures data[..] == PutResult(old(data[..]), o, offset, actual, status)
  {
    PutWordAt(data, o, offset);
    PutWordAt(data, o + 8, actual);
    PutWordAt(data, o + 12, status);
  }

  /** Completion of an isochronous IN transfer on the server. data holds the device's bytes
      in its first dataLen bytes and the request's descriptors behind them; pk holds what
      USBD reported. Compaction and the descriptors' move happen only when the packets do
      not fill the buffer. Returns the reply's actual_length and data_len. */
  method DoneIsoTransfer(data: array<byte>, dataLen: nat, pk: seq<Packet>, toUsbipStatus: u32 -> u32)
    returns (actualLen: nat, replyLen: nat)
    requires dataLen < 0x1_0000_0000 && data.Length == dataLen + DESC_SIZE * |pk| && Placed(pk, dataLen)
    modifies data
    ensures actualLen == TotalLength(pk, |pk|) <= dataLen && replyLen == actualLen + DESC_SIZE * |pk|
    ensures data[..actualLen] == Packed(old(data[..]), pk, |pk|)
    ensures Descs(data[..], actualLen, |pk|) == Results(Descs(old(data[..]), dataLen, |pk|), pk, toUsbipStatus)
  {
    hide Packed, Descs, Results, Spliced;
    ghost var was := data[..];
    TotalBelowOffset(pk, dataLen, |pk|);
    actualLen := GetUsbdIsoDescsLen(pk);
    if actualLen < dataLen {
      CompactUsbdIsoData(data, pk);
      ghost var b := data[..];
      CopyForward(data, actualLen, dataLen, DESC_SIZE * |pk|);
      DescsMoved(was, b, data[..], actualLen, dataLen, |pk|);
    } else {
      FullIsPacked(was, pk, dataLen, |pk|);
    }
    ghost var packed := data[..];
    assert packed[..actualLen] == Packed(was, pk, |pk|);
    ToIsoDescs(data, actualLen, pk, toUsbipStatus);
    replyLen := actualLen + DESC_SIZE * |pk|;
  }

  /** The descriptors survive compaction and read the same after their move. */
  lemma {:induction false} DescsMoved(was: seq<byte>, b: seq<byte>, c: seq<byte>, to: nat, from: nat, n: nat)
    requires to <= from && from + DESC_SIZE * n == |was| == |b| && b[to..] == was[to..]
    requires c == Spliced(b, to, b[from..from + DESC_SIZE * n])
    ensures Descs(c, to, n) == Descs(was, from, n) && c[..to] == b[..to]
  {
    assert c[to..to + DESC_SIZE * n] == b[from..from + DESC_SIZE * n];
    assert b[from..from + DESC_SIZE * n] == b[to..][from - to..];
    assert was[from..from + DESC_SIZE * n] == was[to..][from - to..];
    DescsSame(c, to, was, from, n);
  }

  // ---------------------------------------------------------------------------
  // Client: the response
  // ---------------------------------------------------------------------------

  /** The client's packets with the lengths and statuses of the response. */
  function Saved(pk: seq<Packet>, ds: seq<IsoDesc>, toUsbdStatus: u32 -> u32): (r: seq<Packet>)
    requires |ds| == |pk|
    ensures |r| == |pk|
  {
    seq(|pk|, i requires 0 <= i < |pk| => Packet(pk[i].offset, ds[i].actualLength, toUsbdStatus(ds[i].status)))
  }

  /** Takes over lengths and statuses; a response offset behind the packet's own is refused. */
  method SaveIsoDesc(packets: array<Packet>, payload: seq<byte>, base: nat, toUsbdStatus: u32 -> u32) returns (ok: bool)
    requires base + DESC_SIZE * packets.Length <= |payload|
    modifies packets
    ensures ok <==> forall i :: 0 <= i < packets.Length ==>
                      Descs(payload, base, packets.Length)[i].offset <= old(packets[i]).offset
    ensures ok ==> packets[..] == Saved(old(packets[..]), Descs(payload, base, packets.Length), toUsbdStatus)
  {
    ghost var was := packets[..];
    ghost var ds := Descs(payload, base, packets.Length);
    var i := 0;
    while i < packets.Length
      invariant 0 <= i <= packets.Length
      invariant forall j :: 0 <= j < i ==>
                  ds[j].offset <= was[j].offset && packets[j] == Saved(was, ds, toUsbdStatus)[j]
      invariant forall j :: i <= j < packets.Length ==> packets[j] == was[j]
    {
      if Word(payload, base + DESC_SIZE * i) > packets[i].offset {
        assert ds[i].offset > was[i].offset;
        return false;
      }
      packets[i] := packets[i].(length := Word(payload, base + DESC_SIZE * i + 8),
                                status := toUsbdStatus(Word(payload, base + DESC_SIZE * i + 12)));
      i := i + 1;
    }
    ok := true;
  }

  /** Spreads the packed bytes over the packets' offsets in dest. */
  method FetchIsoData(dest: array<byte>, src: seq<byte>, pk: seq<Packet>) returns (offset: nat)
    requires forall i :: 0 <= i < |pk| ==> pk[i].offset + pk[i].length < 0x1_0000_0000
    modifies dest
    ensures Fetched(dest[..], offset) == Fetch(old(dest[..]), pk, 0, src, 0)
  {
    hide Fetch, Spliced;
    offset := 0;
    var i := 0;
    while i < |pk|
      invariant 0 <= i <= |pk| && offset <= |src|
      invariant Fetch(dest[..], pk, i, src, offset) == Fetch(old(dest[..]), pk, 0, src, 0)
    {
      FetchRound(dest[..], pk, i, src, offset);
      if pk[i].length != 0 {
        if pk[i].offset + pk[i].length > dest.Length {
          return;
        }
        if offset + pk[i].length > |src| {
          return;
        }
        CopyFrom(dest, pk[i].offset, src[offset..offset + pk[i].length]);
        offset := offset + pk[i].length;
      }
      i := i + 1;
    }
    FetchRound(dest[..], pk, |pk|, src, offset);
  }

  lemma {:induction false} FetchRound(dest: seq<byte>, pk: seq<Packet>, i: nat, src: seq<byte>, offset: nat)
    requires i <= |pk| && offset <= |src|
    ensures Fetch(dest, pk, i, src, offset)
         == if i == |pk| then Fetched(dest, offset)
            else if pk[i].length == 0 then Fetch(dest, pk, i + 1, src, offset)
            else if pk[i].offset + pk[i].length > |dest| || offset + pk[i].length > |src| then Fetched(dest, offset)
            else
              var next := offset + pk[i].length;
              Fetch(Spliced(dest, pk[i].offset, src[offset..next]), pk, i + 1, src, next)
  {
  }

  /** The client side of an IN response whose payload is `payload` and whose header says
      actual_length == actualLen. `used` is how much of the data was spread. */
  method FetchUrbrIso(packets: array<Packet>, dest: array<byte>, payload: seq<byte>, actualLen: nat,
                      toUsbdStatus: u32 -> u32) returns (ok: bool, used: nat)
    requires actualLen + DESC_SIZE * packets.Length <= |payload|
    requires forall i :: 0 <= i < packets.Length ==>
               packets[i].offset + Descs(payload, actualLen, packets.Length)[i].actualLength < 0x1_0000_0000
    modifies packets, dest
    ensures ok <==> forall i :: 0 <= i < packets.Length ==>
                      Descs(payload, actualLen, packets.Length)[i].offset <= old(packets[i]).offset
    ensures ok ==> packets[..] == Saved(old(packets[..]), Descs(payload, actualLen, packets.Length), toUsbdStatus)
    ensures ok ==> Fetched(dest[..], used) == Fetch(old(dest[..]), packets[..], 0, payload[..actualLen], 0)
    ensures !ok ==> dest[..] == old(dest[..])
  {
    used := 0;
    ok := SaveIsoDesc(packets, payload, actualLen, toUsbdStatus);
    if ok {
      used := FetchIsoData(dest, payload[..actualLen], packets[..]);
    }
  }

  // ---------------------------------------------------------------------------
  // End to end
  // ---------------------------------------------------------------------------

  function Reported(offsets: seq<u32>, lengths: seq<u32>, statuses: seq<u32>): (pk: seq<Packet>)
    requires |offsets| == |lengths| == |statuses|
    ensures |pk| == |offsets|
  {
    seq(|offsets|, i requires 0 <= i < |offsets| => Packet(offsets[i], lengths[i], statuses[i]))
  }

  /** A whole isochronous IN transfer. The client's packet offsets ascend from 0 to at most
      the length of its buffer; the device fills the server's data area with `device` and
      reports `lengths`, none longer than its packet was announced. Every packet's bytes
      arrive at the packet's own offset, every other byte of the client's buffer is left
      alone, no bounds check stops the copying, and all received data is used. */
  method IsoInTransfer(packets: array<Packet>, dest: array<byte>, device: seq<byte>, lengths: seq<u32>,
                       statuses: seq<u32>, toUsbipStatus: u32 -> u32, toUsbdStatus: u32 -> u32)
    returns (stored: bool, ok: bool, actualLen: nat, used: nat)
    requires 0 < packets.Length == |lengths| == |statuses| && dest.Length < 0x1_0000_0000
    requires Ascending(packets[..]) && packets[0].offset == 0 && packets[packets.Length - 1].offset <= dest.Length
    requires |device| == dest.Length
    requires forall i :: 0 <= i < packets.Length ==> lengths[i] <= ExpectedLength(packets[..], dest.Length, i)
    modifies packets, dest
    ensures stored && ok && used == actualLen
    ensures forall i :: 0 <= i < packets.Length ==>
              packets[i] == Packet(old(packets[i]).offset, lengths[i], toUsbdStatus(toUsbipStatus(statuses[i])))
    ensures actualLen == TotalLength(packets[..], packets.Length)
    ensures forall p :: 0 <= p < dest.Length ==>
              dest[p] == if Owned(packets[..], 0, p) then device[p] else old(dest[p])
  {
    hide Descs, Expected, Results, Saved, Packed, Fetch, Owned, Placed;
    hide TotalLength, SumLengths, Reported, ExpectedLength;
    ghost var pk := packets[..];
    var payload := new byte[DESC_SIZE * packets.Length];
    ghost var base;
    stored, base := StoreIsoData(payload, 0, dest[..], true, packets[..], dest.Length);
    var reply;
    ghost var reported;
    actualLen, reply, reported := ServeIsoIn(payload[..], packets.Length, device, lengths, statuses, toUsbipStatus, pk);
    ResponseOf(pk, dest.Length, reported, lengths, statuses, toUsbipStatus, toUsbdStatus);
    ghost var was := dest[..];
    ok, used := FetchUrbrIso(packets, dest, reply, actualLen, toUsbdStatus);
    ArrivedIntact(was, device, reported, packets[..], reply[..actualLen]);
  }

  /** The server's part: the buffer, the device's work, and the reply's payload. */
  method ServeIsoIn(payload: seq<byte>, n: nat, device: seq<byte>, lengths: seq<u32>, statuses: seq<u32>,
                    toUsbipStatus: u32 -> u32, ghost pk: seq<Packet>)
    returns (actualLen: nat, reply: seq<byte>, ghost reported: seq<Packet>)
    requires 0 < n == |pk| == |lengths| == |statuses| && |device| < 0x1_0000_0000 && |payload| == DESC_SIZE * n
    requires Ascending(pk) && pk[0].offset == 0 && pk[n - 1].offset <= |device|
    requires Descs(payload, 0, n) == Expected(pk, |device|)
    requires forall i :: 0 <= i < n ==> lengths[i] <= ExpectedLength(pk, |device|, i)
    ensures reported == Reported(Offsets(pk), lengths, statuses) && Fits(reported, |device|)
    ensures actualLen == TotalLength(reported, n) && |reply| == actualLen + DESC_SIZE * n
    ensures reply[..actualLen] == Packed(device, reported, n)
    ensures Descs(reply, actualLen, n) == Results(Expected(pk, |device|), reported, toUsbipStatus)
  {
    hide Descs, Results, Packed, TotalLength, SumLengths, Reported, ExpectedLength;
    LengthsTelescope(pk, |device|);
    var data, datalen, offsets := ProcessIsoTransfer(payload, n);
    assert offsets == Offsets(pk);
    DeviceFills(data, device, n);
    var sent := Reported(offsets, lengths, statuses);
    reported := sent;
    ReportedLayout(offsets, lengths, statuses);
    ReportedPlaced(pk, |device|, sent);
    ghost var filled := data[..];
    var replyLen;
    actualLen, replyLen := DoneIsoTransfer(data, datalen, sent, toUsbipStatus);
    reply := data[..replyLen];
    assert reply[actualLen..actualLen + DESC_SIZE * n] == data[..][actualLen..actualLen + DESC_SIZE * n];
    DescsSame(data[..], actualLen, reply, actualLen, n);
    PackedPrefix(filled, device, sent);
  }

  function Offsets(pk: seq<Packet>): (r: seq<u32>)
    ensures |r| == |pk| && forall i :: 0 <= i < |r| ==> r[i] == pk[i].offset
  {
    seq(|pk|, i requires 0 <= i < |pk| => pk[i].offset)
  }

  lemma {:induction false} ReportedLayout(offsets: seq<u32>, lengths: seq<u32>, statuses: seq<u32>)
    requires |offsets| == |lengths| == |statuses|
    ensures forall i :: 0 <= i < |offsets| ==>
              Reported(offsets, lengths, statuses)[i] == Packet(offsets[i], lengths[i], statuses[i])
  {
  }

  lemma {:induction false} PackedPrefix(b: seq<byte>, device: seq<byte>, pk: seq<Packet>)
    requires |device| <= |b| && b[..|device|] == device && Fits(pk, |device|)
    ensures Packed(b, pk, |pk|) == Packed(device, pk, |pk|)
  {
    forall i | 0 <= i < |pk|
      ensures Piece(b, pk[i]) == Piece(device, pk[i])
    {
      SubSlice(b, 0, |device|, pk[i].offset, pk[i].offset + pk[i].length);
    }
    PackedSame(b, device, pk, pk, |pk|);
  }

  /** What the client makes of the server's results. */
  lemma {:induction false} ResponseOf(pk: seq<Packet>, total: u32, reported: seq<Packet>, lengths: seq<u32>,
                                      statuses: seq<u32>, toUsbipStatus: u32 -> u32, toUsbdStatus: u32 -> u32)
    requires |lengths| == |statuses| == |pk|
    requires reported == Reported(Offsets(pk), lengths, statuses) && Fits(reported, total)
    ensures var rs := Results(Expected(pk, total), reported, toUsbipStatus);
            var saved := Saved(pk, rs, toUsbdStatus);
            forall i :: 0 <= i < |pk| ==>
              && rs[i].offset == pk[i].offset && pk[i].offset + rs[i].actualLength <= total
              && saved[i] == Packet(pk[i].offset, lengths[i], toUsbdStatus(toUsbipStatus(statuses[i])))
              && reported[i].offset == pk[i].offset && reported[i].length == lengths[i]
  {
  }

  /** The USB stack writes the data area of the server's buffer. */
  method DeviceFills(data: array<byte>, device: seq<byte>, n: nat)
    requires |device| + DESC_SIZE * n == data.Length
    modifies data
    ensures data[..|device|] == device
    ensures Descs(data[..], |device|, n) == Descs(old(data[..]), |device|, n)
  {
    ghost var was := data[..];
    CopyFrom(data, 0, device);
    assert data[|device|..|device| + DESC_SIZE * n] == was[|device|..|device| + DESC_SIZE * n];
    DescsSame(data[..], |device|, was, |device|, n);
  }

  /** Short packets at the client's offsets are placed in the server's data area. */
  lemma {:induction false} ReportedPlaced(pk: seq<Packet>, total: u32, reported: seq<Packet>)
    requires pk != [] && |reported| == |pk| && Ascending(pk) && pk[|pk| - 1].offset <= total
    requires forall i :: 0 <= i < |pk| ==>
               reported[i].offset == pk[i].offset && reported[i].length <= ExpectedLength(pk, total, i)
    ensures Placed(reported, total)
  {
    hide ExpectedLength, Ascending;
    forall i | 0 <= i < |pk|
      ensures reported[i].offset + reported[i].length <= (if i + 1 < |pk| then pk[i + 1].offset else total) <= total
    {
      LengthIsGap(pk, total, i);
      if i + 1 < |pk| {
        AscendingPair(pk, i + 1, |pk| - 1);
      }
    }
    forall i, j | 0 <= i < j < |pk|
      ensures reported[i].offset + reported[i].length <= reported[j].offset
    {
      LengthIsGap(pk, total, i);
      AscendingPair(pk, i + 1, j);
    }
  }

  /** The client's packets have the reported offsets and lengths, so spreading what was
      packed from the device's area gives the device's bytes back. */
  lemma {:induction false} ArrivedIntact(dest: seq<byte>, device: seq<byte>, reported: seq<Packet>,
                                         saved: seq<Packet>, src: seq<byte>)
    requires |device| == |dest| && Fits(reported, |dest|) && src == Packed(device, reported, |reported|)
    requires |saved| == |reported|
    requires forall i :: 0 <= i < |saved| ==>
               saved[i].offset == reported[i].offset && saved[i].length == reported[i].length
    ensures TotalLength(saved, |saved|) == |src|
    ensures var r := Fetch(dest, saved, 0, src, 0);
            && r.used == |src|
            && forall p :: 0 <= p < |dest| ==> r.dest[p] == if Owned(saved, 0, p) then device[p] else dest[p]
  {
    PackedSame(device, device, reported, saved, |saved|);
    FetchOfPacked(dest, device, saved, 0);
  }
}
