/** The forwarder's direct-mapped cache of request directions. Replies need not carry their
    direction, but the length of a reply depends on it. */
module HdrsCache {
  import opened Bytes
  import opened PduCodec

  const SIZE := 1024

  datatype Slot = Slot(seqnum: u32, direction: u32)

  type Slots = s: seq<Slot> | |s| == SIZE witness seq(SIZE, _ => Slot(0, 0))

  function Index(seqnum: u32): (i: nat)
    ensures i < SIZE
  {
    seqnum % SIZE
  }

  function Inserted(s: Slots, seqnum: u32, direction: u32): Slots {
    s[Index(seqnum) := Slot(seqnum, direction)]
  }

  predicate Hit(s: Slots, seqnum: u32) {
    s[Index(seqnum)].seqnum == seqnum
  }

  /** The direction of a reply: the cached one, else the one its header carries. */
  function Lookup(s: Slots, seqnum: u32, direction: u32): u32 {
    if Hit(s, seqnum) then s[Index(seqnum)].direction else direction
  }

  // ---------------------------------------------------------------------------
  // Consecutively numbered requests
  // ---------------------------------------------------------------------------

  /** A request of a connection; unlink requests take a number but are not cached. */
  datatype Request = Request(unlink: bool, direction: u32)

  /** The wrapping number of the k-th request. */
  function Number(first: u32, k: nat): u32 {
    (first + k) % 0x1_0000_0000
  }

  function InsertedAll(s: Slots, first: u32, reqs: seq<Request>): Slots
    decreases |reqs|
  {
    if reqs == [] then s
    else
      var k := |reqs| - 1;
      var t := InsertedAll(s, first, reqs[..k]);
      if reqs[k].unlink then t else Inserted(t, Number(first, k), reqs[k].direction)
  }

  /** The numbering wraps at a multiple of the cache size, so slots go round and round. */
  lemma {:induction false} IndexOfNumber(first: u32, k: nat)
    ensures Index(Number(first, k)) == (first + k) % SIZE
  {
    var n: int := first + k;
    var q := n / 0x1_0000_0000;
    assert n % 0x1_0000_0000 == n - SIZE * (0x40_0000 * q);
    ModShift(n, 0x40_0000 * q);
  }

  lemma {:induction false} ModShift(n: int, q: int)
    ensures (n - SIZE * q) % SIZE == n % SIZE
  {
    var r, d := n % SIZE, n / SIZE;
    assert n - SIZE * q == SIZE * (d - q) + r;
    ModUnique(d - q, r);
  }

  lemma {:induction false} ModUnique(d: int, r: int)
    requires 0 <= r < SIZE
    ensures (SIZE * d + r) % SIZE == r
  {
  }

  lemma {:induction false} SlotsApart(first: u32, j: nat, k: nat)
    ensures (first + j) % SIZE == (first + k) % SIZE <==> (j - k) % SIZE == 0
  {
    var x, y := (first + j) / SIZE, (first + k) / SIZE;
    var p, q := (first + j) % SIZE, (first + k) % SIZE;
    assert j - k == SIZE * (x - y) + (p - q);
    if p >= q {
      ModUnique(x - y, p - q);
    } else {
      assert j - k == SIZE * (x - y - 1) + (p - q + SIZE);
      ModUnique(x - y - 1, p - q + SIZE);
    }
  }

  lemma {:induction false} NumbersDistinct(first: u32, j: nat, k: nat)
    requires k < j < k + 0x1_0000_0000
    ensures Number(first, j) != Number(first, k)
  {
  }

  /** Request j takes the slot of request k. */
  predicate Evicts(reqs: seq<Request>, j: nat, k: nat) {
    k < j < |reqs| && (j - k) % SIZE == 0 && !reqs[j].unlink
  }

  /** What the slot of the k-th request holds as long as no later one took it. */
  lemma {:induction false} KeptUntilEvicted(s: Slots, first: u32, reqs: seq<Request>, k: nat)
    requires k < |reqs| && !reqs[k].unlink
    requires forall j :: !Evicts(reqs, j, k)
    ensures InsertedAll(s, first, reqs)[Index(Number(first, k))] == Slot(Number(first, k), reqs[k].direction)
    decreases |reqs|
  {
    var n := |reqs| - 1;
    var t := InsertedAll(s, first, reqs[..n]);
    if k < n {
      forall j: nat
        ensures !Evicts(reqs[..n], j, k)
      {
        assert !Evicts(reqs, j, k);
      }
      KeptUntilEvicted(s, first, reqs[..n], k);
      assert !Evicts(reqs, n, k);
      IndexOfNumber(first, k);
      IndexOfNumber(first, n);
      SlotsApart(first, n, k);
    }
  }

  /** Once a later request took the slot, it holds another number. */
  lemma {:induction false} GoneOnceEvicted(s: Slots, first: u32, reqs: seq<Request>, j: nat, k: nat)
    requires Evicts(reqs, j, k) && |reqs| <= k + 0x1_0000_0000
    ensures InsertedAll(s, first, reqs)[Index(Number(first, k))].seqnum != Number(first, k)
    decreases |reqs|
  {
    var n := |reqs| - 1;
    IndexOfNumber(first, k);
    IndexOfNumber(first, n);
    SlotsApart(first, n, k);
    NumbersDistinct(first, n, k);
    if j < n {
      assert Evicts(reqs[..n], j, k);
      GoneOnceEvicted(s, first, reqs[..n], j, k);
    }
  }

  /** A reply finds the direction of its request if and only if no later request that is a
      multiple of the cache size behind took the slot, whatever the cache held before and
      wherever the numbering wraps. */
  lemma {:induction false} HitIffNotEvicted(s: Slots, first: u32, reqs: seq<Request>, k: nat, direction: u32)
    requires k < |reqs| <= k + 0x1_0000_0000 && !reqs[k].unlink
    ensures var t := InsertedAll(s, first, reqs);
      && (Hit(t, Number(first, k)) <==> forall j :: !Evicts(reqs, j, k))
      && Lookup(t, Number(first, k), direction)
         == if forall j :: !Evicts(reqs, j, k) then reqs[k].direction else direction
  {
    if j :| Evicts(reqs, j, k) {
      GoneOnceEvicted(s, first, reqs, j, k);
    } else {
      KeptUntilEvicted(s, first, reqs, k);
    }
  }

  /** In particular each of the last 1024 requests is found. */
  lemma {:induction false} RecentFound(s: Slots, first: u32, reqs: seq<Request>, k: nat, direction: u32)
    requires k < |reqs| <= k + SIZE && !reqs[k].unlink
    ensures Lookup(InsertedAll(s, first, reqs), Number(first, k), direction) == reqs[k].direction
  {
    forall j: nat
      ensures !Evicts(reqs, j, k)
    {
      if k < j < |reqs| {
        assert 0 < j - k < SIZE;
      }
    }
    HitIffNotEvicted(s, first, reqs, k, direction);
  }

  // ---------------------------------------------------------------------------
  // The forwarder's code
  // ---------------------------------------------------------------------------

  /** Writing a word back where it was read changes nothing. */
  lemma {:induction false} PutWordSame(b: seq<byte>, o: nat)
    requires o + 4 <= |b|
    ensures PutWord(b, o, Word(b, o)) == b
  {
    WordBytesOfWord(b[o], b[o + 1], b[o + 2], b[o + 3]);
    assert WordBytes(Word(b, o)) == b[o..o + 4];
  }

  lemma {:induction false} WordBytesOfWord(b0: byte, b1: byte, b2: byte, b3: byte)
    ensures var v := b0 + 0x100 * b1 + 0x1_0000 * b2 + 0x100_0000 * b3;
      && v % 0x100 == b0 && v / 0x100 % 0x100 == b1
      && v / 0x1_0000 % 0x100 == b2 && v / 0x100_0000 == b3 && b3 % 0x100 == b3
  {
    var v := b0 + 0x100 * b1 + 0x1_0000 * b2 + 0x100_0000 * b3;
    assert v / 0x100 == b1 + 0x100 * b2 + 0x1_0000 * b3;
    assert v / 0x1_0000 == b2 + 0x100 * b3;
    assert v / 0x100_0000 == b3;
  }

  class Cache {
    const slots: array<Slot>

    constructor ()
      ensures fresh(slots) && Valid()
    {
      slots := new Slot[SIZE](_ => Slot(0, 0));
    }

    predicate Valid() {
      slots.Length == SIZE
    }

    ghost function Contents(): Slots
      requires Valid()
      reads slots
    {
      slots[..]
    }

    method Insert(hdr: array<byte>)
      requires Valid() && HEADER_SIZE <= hdr.Length
      modifies slots
      ensures Contents() == Inserted(old(Contents()), Word(hdr[..], SEQNUM), Word(hdr[..], DIRECTION))
    {
      var seqnum := WordAt(hdr, SEQNUM);
      var direction := WordAt(hdr, DIRECTION);
      slots[Index(seqnum)] := Slot(seqnum, direction);
    }

    /** The direction of a reply, restored in its header. */
    method Direction(hdr: array<byte>) returns (d: u32)
      requires Valid() && HEADER_SIZE <= hdr.Length
      modifies hdr
      ensures d == Lookup(Contents(), Word(old(hdr[..]), SEQNUM), Word(old(hdr[..]), DIRECTION))
      ensures hdr[..] == PutWord(old(hdr[..]), DIRECTION, d)
    {
      var seqnum := WordAt(hdr, SEQNUM);
      var idx := Index(seqnum);
      if seqnum == slots[idx].seqnum {
        d := slots[idx].direction;
        PutWordAt(hdr, DIRECTION, d);
      } else {
        d := WordAt(hdr, DIRECTION);
        PutWordSame(hdr[..], DIRECTION);
      }
    }
  }
}
