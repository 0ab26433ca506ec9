/** Isochronous packet layouts: what the transfers must preserve, on values.

    `Packet` is a USBD packet descriptor, `IsoDesc` the 16-byte descriptor on the wire. */
module IsoPackets {
  import opened Bytes

  datatype Packet = Packet(offset: u32, length: u32, status: u32)
  datatype IsoDesc = IsoDesc(offset: u32, length: u32, actualLength: u32, status: u32)

  // ---------------------------------------------------------------------------
  // Lengths derived from offsets
  // ---------------------------------------------------------------------------

  ghost predicate Ascending(pk: seq<Packet>) {
    forall i :: 0 < i < |pk| ==> pk[i - 1].offset <= pk[i].offset
  }

  /** The length the client announces for packet i: up to the next offset, or up to the end
      of the transfer buffer; a 32-bit subtraction. */
  function ExpectedLength(pk: seq<Packet>, total: u32, i: nat): u32
    requires i < |pk|
  {
    var next: int := if i + 1 < |pk| then pk[i + 1].offset else total;
    (next - pk[i].offset) % 0x1_0000_0000
  }

  function Expected(pk: seq<Packet>, total: u32): (r: seq<IsoDesc>)
    ensures |r| == |pk|
  {
    seq(|pk|, i requires 0 <= i < |pk| => IsoDesc(pk[i].offset, ExpectedLength(pk, total, i), 0, 0))
  }

  /** Sum of the first n announced lengths. */
  function SumLengths(d: seq<IsoDesc>, n: nat): nat
    requires n <= |d|
  {
    if n == 0 then 0 else SumLengths(d, n - 1) + d[n - 1].length
  }

  lemma {:induction false} AscendingPair(pk: seq<Packet>, i: nat, j: nat)
    requires Ascending(pk) && i <= j < |pk|
    ensures pk[i].offset <= pk[j].offset
    decreases j
  {
    if i < j {
      AscendingPair(pk, i, j - 1);
    }
  }

  lemma {:induction false} LengthIsGap(pk: seq<Packet>, total: u32, i: nat)
    requires Ascending(pk) && i < |pk| && pk[|pk| - 1].offset <= total
    ensures pk[i].offset + ExpectedLength(pk, total, i) == if i + 1 < |pk| then pk[i + 1].offset else total
  {
    if i + 1 < |pk| {
      assert pk[i + 1 - 1].offset <= pk[i + 1].offset;
    }
  }

  lemma {:induction false} SumOfGaps(pk: seq<Packet>, total: u32, n: nat)
    requires Ascending(pk) && 0 < n <= |pk| && pk[|pk| - 1].offset <= total
    ensures SumLengths(Expected(pk, total), n) == (if n < |pk| then pk[n].offset else total) - pk[0].offset
  {
    LengthIsGap(pk, total, n - 1);
    if n > 1 {
      SumOfGaps(pk, total, n - 1);
    }
  }

  /** The announced lengths telescope: each offset plus its length is the next offset, and
      their sum is the transfer length minus the first offset. */
  lemma {:induction false} LengthsTelescope(pk: seq<Packet>, total: u32)
    requires pk != [] && Ascending(pk) && pk[|pk| - 1].offset <= total
    ensures forall i :: 0 <= i < |pk| ==>
              pk[i].offset + Expected(pk, total)[i].length == if i + 1 < |pk| then pk[i + 1].offset else total
    ensures SumLengths(Expected(pk, total), |pk|) == total - pk[0].offset
  {
    forall i | 0 <= i < |pk|
      ensures pk[i].offset + Expected(pk, total)[i].length == if i + 1 < |pk| then pk[i + 1].offset else total
    {
      LengthIsGap(pk, total, i);
    }
    SumOfGaps(pk, total, |pk|);
  }

  /** Every packet lies inside the first `limit` bytes. */
  ghost predicate Fits(pk: seq<Packet>, limit: nat) {
    forall i :: 0 <= i < |pk| ==> pk[i].offset + pk[i].length <= limit
  }

  /** Packets follow each other without overlap inside the first `limit` bytes. */
  ghost predicate Placed(pk: seq<Packet>, limit: nat) {
    && Fits(pk, limit)
    && (forall i, j :: 0 <= i < j < |pk| ==> pk[i].offset + pk[i].length <= pk[j].offset)
  }

  /** The packets with the lengths the client announces for them. */
  function Announced(pk: seq<Packet>, total: u32): (r: seq<Packet>)
    ensures |r| == |pk|
  {
    seq(|pk|, i requires 0 <= i < |pk| => pk[i].(length := ExpectedLength(pk, total, i)))
  }

  /** The server's buffer, sized by the sum of the lengths but addressed by the client's
      offsets, holds every packet apart from the others exactly when the first offset is 0. */
  lemma {:induction false} ServerBufferFits(pk: seq<Packet>, total: u32)
    requires pk != [] && Ascending(pk) && pk[|pk| - 1].offset <= total
    ensures pk[0].offset == 0 <==> Placed(Announced(pk, total), SumLengths(Expected(pk, total), |pk|))
  {
    SumOfGaps(pk, total, |pk|);
    var q, last := Announced(pk, total), |pk| - 1;
    LengthIsGap(pk, total, last);
    assert q[last].offset + q[last].length == total;
    if pk[0].offset == 0 {
      forall i, j | 0 <= i <= j < |pk|
        ensures q[i].offset + q[i].length <= if i < j then q[j].offset else total
      {
        LengthIsGap(pk, total, i);
        if i + 1 < |pk| {
          AscendingPair(pk, i + 1, if i < j then j else last);
        }
      }
    }
  }

  // ---------------------------------------------------------------------------
  // Packed and scattered buffers
  // ---------------------------------------------------------------------------

  /** Total length of the first n packets. */
  function TotalLength(pk: seq<Packet>, n: nat): nat
    requires n <= |pk|
  {
    if n == 0 then 0 else TotalLength(pk, n - 1) + pk[n - 1].length
  }

  /** The bytes of one packet in a buffer. */
  function Piece(b: seq<byte>, p: Packet): (r: seq<byte>)
    requires p.offset + p.length <= |b|
    ensures |r| == p.length
    ensures forall k :: 0 <= k < |r| ==> r[k] == b[p.offset + k]
  {
    b[p.offset..p.offset + p.length]
  }

  /** The bytes of the first n packets, one after the other. */
  function Packed(b: seq<byte>, pk: seq<Packet>, n: nat): (r: seq<byte>)
    requires Fits(pk, |b|) && n <= |pk|
    ensures |r| == TotalLength(pk, n)
  {
    if n == 0 then [] else Packed(b, pk, n - 1) + Piece(b, pk[n - 1])
  }

  /** Packets packed from the front never reach the offset of the packet copied next. */
  lemma {:induction false} TotalBelowOffset(pk: seq<Packet>, limit: nat, n: nat)
    requires Placed(pk, limit) && n <= |pk|
    ensures TotalLength(pk, n) <= if n < |pk| then pk[n].offset else limit
  {
    if n > 0 {
      TotalBelowOffset(pk, limit, n - 1);
    }
  }

  /** Packets that fill the buffer completely are packed already. */
  lemma {:induction false} FullIsPacked(b: seq<byte>, pk: seq<Packet>, limit: nat, n: nat)
    requires Placed(pk, limit) && limit <= |b| && n <= |pk|
    requires TotalLength(pk, n) == if n < |pk| then pk[n].offset else limit
    ensures Packed(b, pk, n) == b[..TotalLength(pk, n)]
  {
    if n > 0 {
      TotalBelowOffset(pk, limit, n - 1);
      assert pk[n - 1].offset + pk[n - 1].length <= if n < |pk| then pk[n].offset else limit;
      FullIsPacked(b, pk, limit, n - 1);
      SliceJoin(b, pk[n - 1].offset, TotalLength(pk, n));
    }
  }

  lemma {:induction false} SliceJoin(b: seq<byte>, lo: nat, hi: nat)
    requires lo <= hi <= |b|
    ensures b[..lo] + b[lo..hi] == b[..hi]
  {
  }

  /** Packed bytes depend only on the packets' own bytes, offsets and lengths. */
  lemma {:induction false} PackedSame(b: seq<byte>, c: seq<byte>, pk: seq<Packet>, qk: seq<Packet>, n: nat)
    requires Fits(pk, |b|) && Fits(qk, |c|) && n <= |pk| == |qk|
    requires forall i :: 0 <= i < n ==> Piece(b, pk[i]) == Piece(c, qk[i])
    ensures Packed(b, pk, n) == Packed(c, qk, n)
  {
    if n > 0 {
      PackedSame(b, c, pk, qk, n - 1);
    }
  }

  /** A received buffer and how much of the packed source has been used. */
  datatype Fetched = Fetched(dest: seq<byte>, used: nat)

  /** Spreading a packed source over the offsets of packets i, i + 1, .... A packet that does
      not fit the destination or exceeds what is left of the source stops the copying; an
      empty packet is passed over. */
  function Fetch(dest: seq<byte>, pk: seq<Packet>, i: nat, src: seq<byte>, used: nat): (r: Fetched)
    requires i <= |pk| && used <= |src|
    ensures |r.dest| == |dest| && used <= r.used <= |src|
    decreases |pk| - i
  {
    if i == |pk| then Fetched(dest, used)
    else if pk[i].length == 0 then Fetch(dest, pk, i + 1, src, used)
    else if pk[i].offset + pk[i].length > |dest| || used + pk[i].length > |src| then Fetched(dest, used)
    else
      Fetch(Spliced(dest, pk[i].offset, src[used..used + pk[i].length]), pk, i + 1, src, used + pk[i].length)
  }

  /** dest with `piece` written at offset o. */
  function Spliced(dest: seq<byte>, o: nat, piece: seq<byte>): (r: seq<byte>)
    requires o + |piece| <= |dest|
    ensures |r| == |dest|
    ensures forall p :: 0 <= p < |dest| ==> r[p] == if o <= p < o + |piece| then piece[p - o] else dest[p]
  {
    dest[..o] + piece + dest[o + |piece|..]
  }

  ghost predicate Covers(q: Packet, p: int) {
    q.offset <= p < q.offset + q.length
  }

  /** One of the packets from i on owns byte p. */
  ghost predicate Owned(pk: seq<Packet>, i: nat, p: int) {
    exists k :: i <= k < |pk| && Covers(pk[k], p)
  }

  /** Packet i's bytes stand in the packed sequence behind those of its predecessors. */
  lemma {:induction false} PackedSplit(b: seq<byte>, pk: seq<Packet>, n: nat, i: nat)
    requires Fits(pk, |b|) && i < n <= |pk|
    ensures var t := TotalLength(pk, i);
            && t + pk[i].length <= TotalLength(pk, n)
            && Packed(b, pk, n)[t..t + pk[i].length] == Piece(b, pk[i])
    decreases n
  {
    var t := TotalLength(pk, i);
    var front := Packed(b, pk, n - 1);
    if i < n - 1 {
      PackedSplit(b, pk, n - 1, i);
      SliceOfFront(front, Piece(b, pk[n - 1]), t, t + pk[i].length);
    } else {
      assert |front| == t;
    }
  }

  lemma {:induction false} SliceOfFront(front: seq<byte>, rest: seq<byte>, lo: nat, hi: nat)
    requires lo <= hi <= |front|
    ensures (front + rest)[lo..hi] == front[lo..hi]
  {
  }

  /** The end-to-end law: gathering the packets of a buffer and spreading them over the same
      layout reproduces every packet at its offset, leaves every other byte alone, is never
      stopped, and uses up the source. The first i packets are already spread. */
  lemma {:induction false} FetchOfPacked(dest: seq<byte>, b: seq<byte>, pk: seq<Packet>, i: nat)
    requires i <= |pk| && Fits(pk, |dest|) && |b| >= |dest|
    ensures var src := Packed(b, pk, |pk|);
            && TotalLength(pk, i) <= |src|
            && var r := Fetch(dest, pk, i, src, TotalLength(pk, i));
               && r.used == |src|
               && forall p :: 0 <= p < |dest| ==> r.dest[p] == if Owned(pk, i, p) then b[p] else dest[p]
    decreases |pk| - i
  {
    hide Packed, Piece, Spliced, Owned, Fetch;
    if i == |pk| {
      NoneOwned(pk);
      FetchNone(dest, pk, Packed(b, pk, |pk|), TotalLength(pk, i));
    } else {
      var src, t, q := Packed(b, pk, |pk|), TotalLength(pk, i), pk[i];
      PackedSplit(b, pk, |pk|, i);
      var next := if q.length == 0 then dest else Spliced(dest, q.offset, src[t..t + q.length]);
      assert TotalLength(pk, i + 1) == t + q.length;
      FetchOfPacked(next, b, pk, i + 1);
      FetchStep(dest, next, pk, i, src, t);
      PieceSpread(dest, next, b, pk, i);
    }
  }

  lemma {:induction false} FetchNone(dest: seq<byte>, pk: seq<Packet>, src: seq<byte>, used: nat)
    requires used <= |src|
    ensures Fetch(dest, pk, |pk|, src, used) == Fetched(dest, used)
  {
  }

  /** A packet that fits is copied, or passed over if it is empty. */
  lemma {:induction false} FetchStep(dest: seq<byte>, next: seq<byte>, pk: seq<Packet>, i: nat, src: seq<byte>, t: nat)
    requires i < |pk| && pk[i].offset + pk[i].length <= |dest| && t + pk[i].length <= |src|
    requires next == if pk[i].length == 0 then dest else Spliced(dest, pk[i].offset, src[t..t + pk[i].length])
    ensures Fetch(dest, pk, i, src, t) == Fetch(next, pk, i + 1, src, t + pk[i].length)
  {
    hide Spliced;
  }

  /** Writing packet i's bytes in place is one step of "owned bytes come from b". */
  lemma {:induction false} PieceSpread(dest: seq<byte>, next: seq<byte>, b: seq<byte>, pk: seq<Packet>, i: nat)
    requires i < |pk| && pk[i].offset + pk[i].length <= |dest| == |next| <= |b|
    requires next == if pk[i].length == 0 then dest else Spliced(dest, pk[i].offset, Piece(b, pk[i]))
    ensures forall p :: 0 <= p < |dest| ==>
              (if Owned(pk, i + 1, p) then b[p] else next[p]) == (if Owned(pk, i, p) then b[p] else dest[p])
  {
    forall p | 0 <= p < |dest|
      ensures (if Owned(pk, i + 1, p) then b[p] else next[p]) == (if Owned(pk, i, p) then b[p] else dest[p])
    {
      OwnedSplit(pk, i, p);
      if Covers(pk[i], p) {
        assert Piece(b, pk[i])[p - pk[i].offset] == b[pk[i].offset + (p - pk[i].offset)];
      }
    }
  }

  lemma {:induction false} NoneOwned(pk: seq<Packet>)
    ensures forall p :: !Owned(pk, |pk|, p)
  {
  }

  lemma {:induction false} OwnedSplit(pk: seq<Packet>, i: nat, p: int)
    requires i < |pk|
    ensures Owned(pk, i, p) <==> Covers(pk[i], p) || Owned(pk, i + 1, p)
  {
  }
}
