/** Bytes, 32-bit words in host (little-endian) order, and byte-swapping of words.

    Every USB/IP header and isochronous descriptor is a row of 32-bit words, so both
    codecs of the repository come down to reversing words inside a byte buffer. */
module Bytes {
  type byte = x: int | 0 <= x < 256
  type u32 = x: int | 0 <= x < 0x1_0000_0000

  // The sizes of a USB/IP header and of an isochronous packet descriptor.
  const HEADER_SIZE := 48
  const DESC_SIZE := 16

  /** The word stored at b[o..o+4], read the way a little-endian host reads it. */
  function Word(b: seq<byte>, o: nat): u32
    requires o + 4 <= |b|
  {
    var b0: int, b1: int, b2: int, b3: int := b[o], b[o + 1], b[o + 2], b[o + 3];
    b0 + 0x100 * b1 + 0x1_0000 * b2 + 0x100_0000 * b3
  }

  /** The four bytes a little-endian host stores for v. */
  function WordBytes(v: u32): (r: seq<byte>)
    ensures |r| == 4
  {
    [v % 0x100, v / 0x100 % 0x100, v / 0x1_0000 % 0x100, v / 0x100_0000]
  }

  /** b with the word at o replaced by v. */
  function PutWord(b: seq<byte>, o: nat, v: u32): (r: seq<byte>)
    requires o + 4 <= |b|
    ensures |r| == |b|
  {
    b[..o] + WordBytes(v) + b[o + 4..]
  }

  /** Storing a word and reading it back gives the word. */
  lemma {:induction false} WordOfWordBytes(v: u32)
    ensures Word(WordBytes(v), 0) == v
  {
    var h := v / 0x100;
    assert v == v % 0x100 + 0x100 * h;
    assert h == v / 0x100 % 0x100 + 0x100 * (h / 0x100);
    assert h / 0x100 == v / 0x1_0000;
    assert v / 0x1_0000 / 0x100 == v / 0x100_0000;
  }

  lemma {:induction false} WordOfPutWord(b: seq<byte>, o: nat, v: u32)
    requires o + 4 <= |b|
    ensures Word(PutWord(b, o, v), o) == v
    ensures forall i :: 0 <= i < |b| && !(o <= i < o + 4) ==> PutWord(b, o, v)[i] == b[i]
  {
    WordOfWordBytes(v);
    var r := PutWord(b, o, v);
    assert r[o] == WordBytes(v)[0] && r[o + 1] == WordBytes(v)[1];
    assert r[o + 2] == WordBytes(v)[2] && r[o + 3] == WordBytes(v)[3];
  }

  /** Storing a word leaves the words beside it alone. */
  lemma {:induction false} PutWordOther(b: seq<byte>, o: nat, v: u32, p: nat)
    requires o + 4 <= |b| && p + 4 <= |b| && (o + 4 <= p || p + 4 <= o)
    ensures Word(PutWord(b, o, v), p) == Word(b, p)
  {
    WordOfPutWord(b, o, v);
  }

  /** A word depends only on its four bytes. */
  lemma {:induction false} WordOfSlice(b: seq<byte>, lo: nat, hi: nat, o: nat)
    requires lo + o + 4 <= hi <= |b|
    ensures Word(b[lo..hi], o) == Word(b, lo + o)
  {
    var c := b[lo..hi];
    assert c[o] == b[lo + o] && c[o + 1] == b[lo + o + 1];
    assert c[o + 2] == b[lo + o + 2] && c[o + 3] == b[lo + o + 3];
  }

  /** Where index i of the words starting at `start` goes when each word is reversed. */
  function Mirror(start: nat, i: nat): (m: nat)
    requires start <= i
    ensures start <= m && (m - start) / 4 == (i - start) / 4
  {
    start + (i - start) / 4 * 4 + 3 - (i - start) % 4
  }

  /** Byte j of word q goes where byte 3 - j is. */
  lemma {:induction false} MirrorInWord(start: nat, q: nat, j: nat)
    requires j < 4
    ensures Mirror(start, start + 4 * q + j) == start + 4 * q + 3 - j
  {
    assert (4 * q + j) / 4 == q && (4 * q + j) % 4 == j;
  }

  /** Words go nowhere else. */
  lemma {:induction false} MirrorStays(start: nat, n: nat, i: nat)
    requires start <= i < start + 4 * n
    ensures start <= Mirror(start, i) < start + 4 * n
  {
    assert (i - start) / 4 < n;
  }

  /** b with the n words starting at `start` byte-swapped (htonl or ntohl on each). */
  function SwapWords(b: seq<byte>, start: nat, n: nat): (r: seq<byte>)
    requires start + 4 * n <= |b|
    ensures |r| == |b|
  {
    seq(|b|, i requires 0 <= i < |b| =>
      if start <= i < start + 4 * n then b[Mirror(start, i)] else b[i])
  }

  lemma {:induction false} SwapWordsTwice(b: seq<byte>, start: nat, n: nat)
    requires start + 4 * n <= |b|
    ensures SwapWords(SwapWords(b, start, n), start, n) == b
  {
    var c := SwapWords(b, start, n);
    forall i | start <= i < start + 4 * n
      ensures SwapWords(c, start, n)[i] == b[i]
    {
      var m := Mirror(start, i);
      assert m < start + 4 * n && Mirror(start, m) == i;
      assert c[m] == b[i];
    }
  }

  /** Swapping n words and then one of the words behind them swaps n + 1 words. */
  lemma {:induction false} SwapWordsExtend(b: seq<byte>, start: nat, n: nat)
    requires start + 4 * n + 4 <= |b|
    ensures SwapWords(SwapWords(b, start, n), start + 4 * n, 1) == SwapWords(b, start, n + 1)
  {
    var c := SwapWords(b, start, n);
    var o := start + 4 * n;
    forall i | 0 <= i < |b|
      ensures SwapWords(c, o, 1)[i] == SwapWords(b, start, n + 1)[i]
    {
      if o <= i < o + 4 {
        assert Mirror(o, i) == Mirror(start, i);
        assert o <= Mirror(o, i) < o + 4;
      }
    }
  }

  /** Swapping words at the front of a buffer is swapping them in the front part. */
  lemma {:induction false} SwapWordsPrefix(b: seq<byte>, start: nat, n: nat, cut: nat)
    requires start + 4 * n <= cut <= |b|
    ensures SwapWords(b, start, n) == SwapWords(b[..cut], start, n) + b[cut..]
  {
    hide Mirror;
    forall i: nat | i < |b|
      ensures SwapWords(b, start, n)[i] == (SwapWords(b[..cut], start, n) + b[cut..])[i]
    {
      if start <= i < start + 4 * n {
        MirrorStays(start, n, i);
      }
    }
  }

  /** Swaps of disjoint rows of words commute. */
  lemma {:induction false} SwapWordsCommute(b: seq<byte>, s1: nat, n1: nat, s2: nat, n2: nat)
    requires s1 + 4 * n1 <= s2 && s2 + 4 * n2 <= |b|
    ensures SwapWords(SwapWords(b, s1, n1), s2, n2) == SwapWords(SwapWords(b, s2, n2), s1, n1)
  {
    var c, d := SwapWords(b, s1, n1), SwapWords(b, s2, n2);
    forall i | 0 <= i < |b|
      ensures SwapWords(c, s2, n2)[i] == SwapWords(d, s1, n1)[i]
    {
      if s1 <= i < s1 + 4 * n1 {
        assert s1 <= Mirror(s1, i) < s1 + 4 * n1;
      } else if s2 <= i < s2 + 4 * n2 {
        assert s2 <= Mirror(s2, i) < s2 + 4 * n2;
      }
    }
  }

  /** Swapping a word reverses its significance; swapping other words leaves it alone. */
  lemma {:induction false} WordOfSwapWords(b: seq<byte>, start: nat, n: nat, o: nat)
    requires start + 4 * n <= |b| && o + 4 <= |b|
    ensures o + 4 <= start || start + 4 * n <= o ==> Word(SwapWords(b, start, n), o) == Word(b, o)
    ensures start <= o && o + 4 <= start + 4 * n && (o - start) % 4 == 0 ==>
              Word(SwapWords(b, start, n), o) == Word([b[o + 3], b[o + 2], b[o + 1], b[o]], 0)
  {
    hide Mirror;
    if start <= o && o + 4 <= start + 4 * n && (o - start) % 4 == 0 {
      var q := (o - start) / 4;
      assert o == start + 4 * q;
      MirrorInWord(start, q, 0);
      MirrorInWord(start, q, 1);
      MirrorInWord(start, q, 2);
      MirrorInWord(start, q, 3);
    }
  }

  /** Byte-swaps one 32-bit field of a buffer in place. */
  method SwapWordAt(a: array<byte>, o: nat)
    requires o + 4 <= a.Length
    modifies a
    ensures a[..] == SwapWords(old(a[..]), o, 1)
  {
    a[o], a[o + 1], a[o + 2], a[o + 3] := a[o + 3], a[o + 2], a[o + 1], a[o];
    ghost var was := old(a[..]);
    forall i | 0 <= i < a.Length
      ensures a[i] == SwapWords(was, o, 1)[i]
    {
      if o <= i < o + 4 {
        assert Mirror(o, i) == 2 * o + 3 - i;
      }
    }
  }

  /** Stores a word in place. */
  method PutWordAt(a: array<byte>, o: nat, v: u32)
    requires o + 4 <= a.Length
    modifies a
    ensures a[..] == PutWord(old(a[..]), o, v)
  {
    var w := WordBytes(v);
    a[o], a[o + 1], a[o + 2], a[o + 3] := w[0], w[1], w[2], w[3];
  }
}
