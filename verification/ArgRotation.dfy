/** Exchanging two adjacent blocks of an argument vector by rotation cycles.

    `PermuteArgs` moves every element once, along gcd-many cycles of equal length.
    The number theory says why that is right: the cycles of the step "advance by the
    length of the second block, modulo the length of both" are the residue classes
    modulo the gcd, each visited completely before it closes. */
module ArgRotation {

  /** The exchange the cycles must achieve: the second block, then the first. */
  function Exchange<T>(s: seq<T>, start: nat, mid: nat, end: nat): (r: seq<T>)
    requires start <= mid <= end <= |s|
    ensures |r| == |s|
  {
    s[..start] + s[mid..end] + s[start..mid] + s[end..]
  }

  // ---------------------------------------------------------------------------
  // The gcd loop
  // ---------------------------------------------------------------------------

  /** g divides both numbers and is an integer combination of them, so every common
      divisor divides it. */
  ghost predicate IsGcd(g: int, a: int, b: int) {
    0 < g && a % g == 0 && b % g == 0 && exists x: int, y: int :: g == Combine(a, b, x, y)
  }

  ghost function Combine(a: int, b: int, x: int, y: int): int {
    a * x + b * y
  }

  /** Remainder steps only replace numbers by combinations of the originals. */
  lemma {:induction false} CombineRemainder(a: int, b: int, u: int, v: int, x1: int, y1: int, x2: int, y2: int)
    requires 0 < v && u == Combine(a, b, x1, y1) && v == Combine(a, b, x2, y2)
    ensures u % v == Combine(a, b, x1 - u / v * x2, y1 - u / v * y2)
  {
    var q := u / v;
    calc {
      u % v;
      u - q * v;
      (a * x1 + b * y1) - q * (a * x2 + b * y2);
      a * (x1 - q * x2) + b * (y1 - q * y2);
    }
  }

  lemma {:induction false} DivisorOfSum(g: int, u: int, v: int)
    requires 0 < g && 0 < v && v % g == 0 && (u % v) % g == 0
    ensures u % g == 0
  {
    var k, l := v / g, u % v / g;
    assert u == u / v * v + u % v;
    assert u == g * (u / v * k + l);
    MultipleMod(g, u / v * k + l);
  }

  /** A nonzero multiple of g is at least g away from zero. */
  lemma {:induction false} MultipleIsFar(g: nat, k: int)
    ensures k >= 1 ==> g * k >= g
    ensures k <= -1 ==> g * k <= -(g as int)
    ensures k == 0 ==> g * k == 0
  {
  }

  lemma {:induction false} MultipleMod(g: nat, k: int)
    requires 0 < g
    ensures (g * k) % g == 0 && (g * k) / g == k
  {
    ResidueShift(g, k, 0);
  }

  lemma {:induction false} ResidueShift(g: nat, t: int, i: nat)
    requires i < g
    ensures (g * t + i) % g == i && (g * t + i) / g == t
  {
    var v := g * t + i;
    assert g * (t - v / g) == v % g - i;
    MultipleIsFar(g, t - v / g);
  }

  /** If every common divisor of (b, c) divides both of (a, b) for c == a % b, the loop's
      last divisor divides the originals; `Common` carries that through the loop. */
  ghost predicate Common(d: int, a: int, b: int) {
    0 < d && a % d == 0 && b % d == 0
  }

  method Gcd(a: nat, b: nat) returns (g: nat)
    requires 0 < b
    ensures IsGcd(g, a, b)
  {
    var u, v := a, b;
    var c := u % v;
    ghost var x1, y1, x2, y2 := 1, 0, 0, 1;
    while c != 0
      invariant 0 < v && c == u % v
      invariant u == Combine(a, b, x1, y1) && v == Combine(a, b, x2, y2)
      invariant forall d :: Common(d, u, v) ==> Common(d, a, b)
      decreases c
    {
      CombineRemainder(a, b, u, v, x1, y1, x2, y2);
      x1, y1, x2, y2 := x2, y2, x1 - u / v * x2, y1 - u / v * y2;
      forall d | Common(d, v, c)
        ensures Common(d, u, v)
      {
        DivisorOfSum(d, u, v);
      }
      u := v;
      v := c;
      c := u % v;
    }
    assert Common(v, u, v);
    return v;
  }

  lemma {:induction false} CommonFactor(d: nat, a: int, b: int, x: int, y: int) returns (q: int)
    requires 0 < d && a % d == 0 && b % d == 0
    ensures Combine(a, b, x, y) == d * q
  {
    q := a / d * x + b / d * y;
    Factored(d, a / d, x);
    Factored(d, b / d, y);
    Factors(d, a / d * x, b / d * y);
  }

  lemma {:induction false} Factored(d: int, k: int, x: int)
    ensures (d * k) * x == d * (k * x)
  {
  }

  lemma {:induction false} Factors(d: int, p: int, q: int)
    ensures d * p + d * q == d * (p + q)
  {
  }

  /** The defining property of a greatest common divisor, from `IsGcd`. */
  lemma {:induction false} GcdIsGreatest(g: int, a: int, b: int, d: nat)
    requires IsGcd(g, a, b) && 0 < d && a % d == 0 && b % d == 0
    ensures g % d == 0 && d <= g
  {
    hide Combine;
    var x, y :| g == Combine(a, b, x, y);
    var q := CommonFactor(d, a, b, x, y);
    MultipleMod(d, q);
    MultipleIsFar(d, q);
  }

  // ---------------------------------------------------------------------------
  // The cycles
  // ---------------------------------------------------------------------------

  /** One move inside blocks of lengths n and m, on offsets from the first block's start. */
  function Next(n: nat, m: nat, r: nat): (p: nat)
    requires r < n + m
    ensures p < n + m
  {
    if r >= n then r - n else r + m
  }

  /** Where the cycle that starts at offset n + i stands after k moves. */
  function Pos(n: nat, m: nat, i: nat, k: nat): (p: nat)
    requires i < m
    ensures p < n + m
  {
    if k == 0 then n + i else Next(n, m, Pos(n, m, i, k - 1))
  }

  /** After k moves the cycle stands at n + i + k * m, up to a multiple of n + m. */
  lemma {:induction false} PosForm(n: nat, m: nat, i: nat, k: nat) returns (q: int)
    requires i < m
    ensures Pos(n, m, i, k) == n + i + k * m - q * (n + m)
  {
    if k == 0 {
      q := 0;
    } else {
      q := PosForm(n, m, i, k - 1);
      assert (k - 1) * m + m == k * m;
      if Pos(n, m, i, k - 1) >= n {
        assert (q + 1) * (n + m) == q * (n + m) + (n + m);
        q := q + 1;
      }
    }
  }

  /** Two offsets that differ by a multiple of the total length are the same offset. */
  lemma {:induction false} SameOffset(total: nat, p: nat, r: nat, e: int)
    requires p < total && r < total && p - r == e * total
    ensures p == r
  {
    MultipleIsFar(total, e);
  }

  /** Moving z times advances by the gcd, up to multiples of n + m. */
  lemma {:induction false} BezoutStep(n: nat, m: nat, g: nat, x: int, y: int)
    requires g == Combine(n, m, x, y)
    ensures (y - x) * m == g - x * (n + m)
  {
    assert n * x + m * y == x * (n + m) + (y - x) * m;
  }

  lemma {:induction false} SameResidue(g: nat, p: nat, c: nat)
    requires 0 < g && c % g == 0
    ensures (p + c) % g == p % g
    ensures c <= p ==> (p - c) % g == p % g
  {
    var v := MultipleOf(g, c);
    var u, i := DivMod(p, g);
    SumResidue(g, u, v, i);
  }

  lemma {:induction false} MultipleOf(g: nat, c: nat) returns (v: int)
    requires 0 < g && c % g == 0
    ensures c == v * g
  {
    v := c / g;
  }

  lemma {:induction false} Gather(g: int, u: int, v: int)
    ensures u * g == g * u && u * g + v * g == g * (u + v) && u * g - v * g == g * (u - v)
  {
  }

  lemma {:induction false} SumResidue(g: nat, u: int, v: int, i: nat)
    requires i < g
    ensures (u * g + i) % g == i
    ensures (u * g + i + v * g) % g == i
    ensures (u * g + i - v * g) % g == i
  {
    Gather(g, u, v);
    ResidueShift(g, u, i);
    ResidueShift(g, u + v, i);
    ResidueShift(g, u - v, i);
  }

  /** A cycle stays inside its residue class. */
  lemma {:induction false} PosResidue(n: nat, m: nat, g: nat, i: nat, k: nat)
    requires 0 < m && 0 < g && n % g == 0 && m % g == 0 && i < g && i < m
    ensures Pos(n, m, i, k) % g == i
  {
    if k == 0 {
      ResidueShift(g, 0, i);
      SameResidue(g, i, n);
    } else {
      PosResidue(n, m, g, i, k - 1);
      var p := Pos(n, m, i, k - 1);
      SameResidue(g, p, if p >= n then n else m);
    }
  }

  /** The gcd is at most the second block's length, so every cycle starts in that block,
      and the cycle length divides the total exactly. */
  lemma {:induction false} GcdBound(n: nat, m: nat, g: nat)
    requires 0 < m && IsGcd(g, n, m)
    ensures g <= m && (n + m) % g == 0 && 0 < (n + m) / g && g * ((n + m) / g) == n + m
    ensures (n + m) / g * m == m / g * (n + m)
  {
    var k, l := n / g, m / g;
    assert m == g * l && n == g * k;
    MultipleIsFar(g, l);
    assert n + m == g * (k + l);
    MultipleMod(g, k + l);
    assert (k + l) * (g * l) == l * (g * (k + l));
  }

  /** d moves advance by a multiple e of the total only if (total / g) divides d:
      multiply by Bezout's coefficient z. */
  lemma {:induction false} WholeTurns(g: int, total: int, m: int, z: int, x: int, d: int, e: int)
    requires z * m == g - x * total && d * m == e * total
    ensures d * g == (e * z + d * x) * total
  {
    calc {
      d * g;
      d * (z * m + x * total);
      d * (z * m) + d * (x * total);
      { assert d * (z * m) == (d * m) * z; }
      (e * total) * z + d * (x * total);
      { assert (e * total) * z == (e * z) * total; }
      { assert d * (x * total) == (d * x) * total; }
      (e * z) * total + (d * x) * total;
      (e * z + d * x) * total;
    }
  }

  lemma {:induction false} CancelFactor(a: int, b: int, g: nat)
    requires 0 < g && a * g == b * g
    ensures a == b
  {
    assert g * (a - b) == 0;
    MultipleIsFar(g, a - b);
  }

  /** A number of moves short of the cycle length is no whole number of turns. */
  lemma {:induction false} NoWholeTurns(g: nat, len: nat, total: nat, m: int, z: int, x: int, d: int, e: int)
    requires 0 < g && total == g * len && z * m == g - x * total && 0 < d < len
    ensures d * m != e * total
  {
    if d * m == e * total {
      WholeTurns(g, total, m, z, x, d, e);
      var w := e * z + d * x;
      assert w * (g * len) == (w * len) * g;
      CancelFactor(d, w * len, g);
      MultipleIsFar(len, w);
      assert false;
    }
  }

  /** Before a cycle closes it never meets an offset twice. */
  lemma {:induction false} PosDistinct(n: nat, m: nat, g: nat, i: nat, j: nat, k: nat)
    requires 0 < m && IsGcd(g, n, m) && i < m && j < k < (n + m) / g
    ensures Pos(n, m, i, j) != Pos(n, m, i, k)
  {
    GcdBound(n, m, g);
    var qj := PosForm(n, m, i, j);
    var qk := PosForm(n, m, i, k);
    var x, y :| g == Combine(n, m, x, y);
    BezoutStep(n, m, g, x, y);
    NoWholeTurns(g, (n + m) / g, n + m, m, y - x, x, k - j, qk - qj);
    Distribute(k, j, m);
    Distribute(qk, qj, n + m);
  }

  lemma {:induction false} Distribute(a: int, b: int, c: int)
    ensures (a - b) * c == a * c - b * c
  {
  }

  /** After (n + m) / g moves the cycle is back at its start. */
  lemma {:induction false} PosCloses(n: nat, m: nat, g: nat, i: nat)
    requires 0 < m && IsGcd(g, n, m) && i < m
    ensures Pos(n, m, i, (n + m) / g) == n + i
  {
    GcdBound(n, m, g);
    PosAfterTurns(n, m, i, (n + m) / g, m / g);
  }

  lemma {:induction false} PosAfterTurns(n: nat, m: nat, i: nat, len: nat, turns: int)
    requires i < m && len * m == turns * (n + m)
    ensures Pos(n, m, i, len) == n + i
  {
    var q := PosForm(n, m, i, len);
    Distribute(turns, q, n + m);
    SameOffset(n + m, Pos(n, m, i, len), n + i, turns - q);
  }

  /** Every offset of a residue class is met by the cycle of that class. */
  lemma {:induction false} PosCovers(n: nat, m: nat, g: nat, r: nat) returns (k: nat)
    requires 0 < m && IsGcd(g, n, m) && r < n + m
    ensures r % g < g <= m && k < (n + m) / g && Pos(n, m, r % g, k) == r
  {
    GcdBound(n, m, g);
    var x, y :| g == Combine(n, m, x, y);
    BezoutStep(n, m, g, x, y);
    var rg, i := DivMod(r, g);
    ResidueShift(g, rg, i);
    var ng, zero := DivMod(n, g);
    ResidueShift(g, ng, zero);
    k := CoveringIndex(n, m, g, i, y - x, x, (n + m) / g, ng, m / g, rg);
  }

  lemma {:induction false} DivMod(v: int, len: nat) returns (u: int, k: nat)
    requires 0 < len
    ensures v == u * len + k && k < len
  {
    u, k := v / len, v % len;
  }

  lemma {:induction false} CoveringIndex(n: nat, m: nat, g: nat, i: nat, z: int, x: int, len: nat, ng: int, mg: int,
                                         rg: int)
    returns (k: nat)
    requires i < g <= m && n == g * ng && 0 <= g * rg + i < n + m && 0 < len
    requires z * m == g - x * (n + m) && len * m == mg * (n + m)
    ensures k < len && Pos(n, m, i, k) == g * rg + i
  {
    var t := rg - ng;
    var u;
    u, k := DivMod(t * z, len);
    var q := PosForm(n, m, i, k);
    var w := t * x + u * mg;
    CoveringMoves(g, n + m, m, z, x, t, u, len, k, mg);
    Distribute(rg, ng, g);
    assert (q + w) * (n + m) == q * (n + m) + w * (n + m);
    SameOffset(n + m, g * rg + i, Pos(n, m, i, k), q + w);
  }

  lemma {:induction false} CoveringMoves(g: int, total: int, m: int, z: int, x: int, t: int, u: int, len: int, k: int,
                                         mg: int)
    requires z * m == g - x * total && len * m == mg * total && t * z == u * len + k
    ensures k * m == t * g - (t * x + u * mg) * total
  {
    calc {
      k * m;
      (t * z - u * len) * m;
      (t * z) * m - (u * len) * m;
      { assert (t * z) * m == t * (z * m); }
      { assert (u * len) * m == u * (len * m); }
      t * (g - x * total) - u * (mg * total);
      { assert t * (g - x * total) == t * g - t * (x * total); }
      { assert t * (x * total) == (t * x) * total; }
      { assert u * (mg * total) == (u * mg) * total; }
      t * g - ((t * x) * total + (u * mg) * total);
      { assert (t * x) * total + (u * mg) * total == (t * x + u * mg) * total; }
      t * g - (t * x + u * mg) * total;
    }
  }

  /** A closed tour of distinct offsets that starts at offset n + i and follows `Next`. */
  ghost predicate IsTour(n: nat, m: nat, i: nat, tour: seq<nat>) {
    && 0 < |tour| && tour[0] == n + i
    && (forall k :: 0 <= k < |tour| ==> tour[k] < n + m)
    && (forall k :: 0 <= k < |tour| ==> Next(n, m, tour[k]) == tour[if k + 1 < |tour| then k + 1 else 0])
    && (forall j, k :: 0 <= j < k < |tour| ==> tour[j] != tour[k])
  }

  /** The tour with index i, of length len, meets exactly the offsets whose home is i. */
  ghost predicate TourCovers(n: nat, m: nat, i: nat, len: nat, tour: seq<nat>, home: seq<nat>) {
    && |tour| == len && |home| == n + m && IsTour(n, m, i, tour)
    && (forall k :: 0 <= k < len ==> home[tour[k]] == i)
    && (forall r :: 0 <= r < n + m && home[r] == i ==> r in tour)
  }

  /** Which of the g tours meets each offset. */
  function Homes(total: nat, g: nat): (h: seq<nat>)
    requires 0 < g
    ensures |h| == total && forall r :: 0 <= r < total ==> h[r] < g
  {
    seq(total, r requires 0 <= r < total => r % g)
  }

  /** The gcd-many cycles of equal length are disjoint and cover both blocks. */
  lemma {:induction false} GcdToursCover(n: nat, m: nat, g: nat, i: nat) returns (tour: seq<nat>)
    requires 0 < m && IsGcd(g, n, m) && i < g
    ensures TourCovers(n, m, i, (n + m) / g, tour, Homes(n + m, g))
  {
    GcdBound(n, m, g);
    var len, home := (n + m) / g, Homes(n + m, g);
    tour := seq(len, k requires 0 <= k < len => Pos(n, m, i, k));
    TourOfClass(n, m, g, i, tour);
    forall k | 0 <= k < len
      ensures home[tour[k]] == i
    {
      PosResidue(n, m, g, i, k);
    }
    forall r | 0 <= r < n + m && home[r] == i
      ensures r in tour
    {
      var k := PosCovers(n, m, g, r);
      assert tour[k] == r;
    }
  }

  lemma {:induction false} TourOfClass(n: nat, m: nat, g: nat, i: nat, tour: seq<nat>)
    requires 0 < m && IsGcd(g, n, m) && i < g <= m
    requires |tour| == (n + m) / g && forall k :: 0 <= k < |tour| ==> tour[k] == Pos(n, m, i, k)
    ensures IsTour(n, m, i, tour)
  {
    GcdBound(n, m, g);
    forall j, k | 0 <= j < k < |tour|
      ensures tour[j] != tour[k]
    {
      PosDistinct(n, m, g, i, j, k);
    }
    PosCloses(n, m, g, i);
    forall k | 0 <= k < |tour|
      ensures Next(n, m, tour[k]) == tour[if k + 1 < |tour| then k + 1 else 0]
    {
      assert Pos(n, m, i, k + 1) == Next(n, m, Pos(n, m, i, k));
    }
  }

  // ---------------------------------------------------------------------------
  // The loops
  // ---------------------------------------------------------------------------

  /** The element that belongs at offset r of the two blocks (lengths n and m). */
  function Landing<T>(orig: seq<T>, start: nat, n: nat, m: nat, r: nat): T
    requires start + n + m <= |orig| && r < n + m
  {
    if r < m then orig[start + n + r] else orig[start + r - m]
  }

  /** The first `done` tours hold the elements that belong there, the other tours and
      everything outside the blocks the original ones. */
  ghost predicate ToursDone<T>(a: seq<T>, orig: seq<T>, start: nat, n: nat, m: nat, home: seq<nat>, done: nat)
    requires start + n + m <= |orig| == |a| && |home| == n + m
  {
    && (forall r :: 0 <= r < n + m ==>
          a[start + r] == if home[r] < done then Landing(orig, start, n, m, r) else orig[start + r])
    && (forall p :: 0 <= p < |a| && !(start <= p < start + n + m) ==> a[p] == orig[p])
  }

  /** After j moves along a tour: the first j offsets met are settled, the tour's first
      place holds the element in transit. */
  ghost predicate TourDone<T>(a: seq<T>, orig: seq<T>, start: nat, n: nat, m: nat, tour: seq<nat>, j: nat)
    requires start + n + m <= |orig| == |a| && 0 < |tour| && j <= |tour|
    requires forall k :: 0 <= k < |tour| ==> tour[k] < n + m
  {
    && (forall k :: 0 < k < |tour| ==>
          a[start + tour[k]] == if k <= j then Landing(orig, start, n, m, tour[k]) else orig[start + tour[k]])
    && a[start + tour[0]] == if j < |tour| then orig[start + tour[j]] else Landing(orig, start, n, m, tour[0])
  }

  /** Only places on the tour differ. */
  ghost predicate OnlyTourChanged<T>(a: seq<T>, b: seq<T>, start: nat, tour: seq<nat>) {
    |a| == |b| && forall p :: 0 <= p < |a| && (p < start || p - start !in tour) ==> b[p] == a[p]
  }

  /** One swap of the inner loop: the element in transit lands, the next one is picked up. */
  lemma {:induction false} TourMove<T>(a: seq<T>, b: seq<T>, orig: seq<T>, start: nat, n: nat, m: nat, i: nat,
                                       tour: seq<nat>, j: nat)
    requires start + n + m <= |orig| == |a| && j < |tour| && IsTour(n, m, i, tour)
    requires TourDone(a, orig, start, n, m, tour, j)
    requires var pos, cstart := start + Next(n, m, tour[j]), start + tour[0];
             b == a[pos := a[cstart]][cstart := a[pos]]
    ensures TourDone(b, orig, start, n, m, tour, j + 1)
  {
    var to := Next(n, m, tour[j]);
    assert Landing(orig, start, n, m, to) == orig[start + tour[j]];
    assert to == tour[if j + 1 < |tour| then j + 1 else 0] && start + to < |a|;
    forall k | 0 < k < |tour|
      ensures b[start + tour[k]] == if k <= j + 1 then Landing(orig, start, n, m, tour[k]) else orig[start + tour[k]]
    {
      assert tour[k] != tour[0] && (k != j + 1 ==> tour[k] != to);
    }
  }

  lemma {:induction false} TourMoveFrame<T>(orig: seq<T>, a: seq<T>, b: seq<T>, start: nat, n: nat, m: nat, i: nat,
                                            tour: seq<nat>, j: nat)
    requires start + n + m <= |a| == |orig| && j < |tour| && IsTour(n, m, i, tour)
    requires OnlyTourChanged(orig, a, start, tour)
    requires var pos, cstart := start + Next(n, m, tour[j]), start + tour[0];
             b == a[pos := a[cstart]][cstart := a[pos]]
    ensures OnlyTourChanged(orig, b, start, tour)
  {
    assert tour[if j + 1 < |tour| then j + 1 else 0] in tour && tour[0] in tour;
  }

  lemma {:induction false} NoTourDone<T>(orig: seq<T>, start: nat, n: nat, m: nat, home: seq<nat>)
    requires start + n + m <= |orig| && |home| == n + m
    ensures ToursDone(orig, orig, start, n, m, home, 0)
  {
  }

  /** A tour not yet begun is a tour with no move made. */
  lemma {:induction false} TourBegins<T>(a: seq<T>, orig: seq<T>, start: nat, n: nat, m: nat, i: nat, len: nat,
                                         tour: seq<nat>, home: seq<nat>)
    requires start + n + m <= |orig| == |a| && TourCovers(n, m, i, len, tour, home)
    requires ToursDone(a, orig, start, n, m, home, i)
    ensures TourDone(a, orig, start, n, m, tour, 0)
  {
  }

  /** A completed tour settles its places and disturbs no other. */
  lemma {:induction false} TourEnds<T>(a: seq<T>, b: seq<T>, orig: seq<T>, start: nat, n: nat, m: nat, i: nat,
                                       len: nat, tour: seq<nat>, home: seq<nat>)
    requires start + n + m <= |orig| == |a| == |b| && TourCovers(n, m, i, len, tour, home)
    requires ToursDone(a, orig, start, n, m, home, i) && TourDone(b, orig, start, n, m, tour, len)
    requires OnlyTourChanged(a, b, start, tour)
    ensures ToursDone(b, orig, start, n, m, home, i + 1)
  {
    forall r | 0 <= r < n + m
      ensures b[start + r] == if home[r] < i + 1 then Landing(orig, start, n, m, r) else orig[start + r]
    {
      if home[r] == i {
        assert r in tour;
      } else {
        assert r !in tour;
        assert b[start + r] == a[start + r];
      }
    }
  }

  /** All tours done is the exchange done. */
  lemma {:induction false} AllToursDone<T>(a: seq<T>, orig: seq<T>, start: nat, n: nat, m: nat, g: nat)
    requires start + n + m <= |orig| == |a| && 0 < g && ToursDone(a, orig, start, n, m, Homes(n + m, g), g)
    ensures a == Exchange(orig, start, start + n, start + n + m)
  {
    forall p | 0 <= p < |a|
      ensures a[p] == Exchange(orig, start, start + n, start + n + m)[p]
    {
      if start <= p < start + n + m {
        assert a[start + (p - start)] == Landing(orig, start, n, m, p - start);
      }
    }
  }

  /** What the inner loop needs to know of its tour. */
  lemma {:induction false} TourStep(n: nat, m: nat, i: nat, tour: seq<nat>, j: nat)
    requires IsTour(n, m, i, tour) && j < |tour|
    ensures tour[j] < n + m && Next(n, m, tour[j]) == tour[if j + 1 < |tour| then j + 1 else 0] < n + m
  {
  }

  lemma {:induction false} TourStarts(n: nat, m: nat, i: nat, tour: seq<nat>)
    requires IsTour(n, m, i, tour)
    ensures 0 < |tour| && tour[0] == n + i && forall k :: 0 <= k < |tour| ==> tour[k] < n + m
  {
  }

  lemma {:induction false} NothingChanged<T>(a: seq<T>, start: nat, tour: seq<nat>)
    ensures OnlyTourChanged(a, a, start, tour)
  {
  }

  /** The inner loop: one cycle, started at panonoptEnd + i. */
  method RotateCycle<T>(panonoptStart: nat, panonoptEnd: nat, optEnd: nat, nargv: array<T>, i: nat, cyclelen: nat,
                        ghost orig: seq<T>, ghost tour: seq<nat>)
    requires panonoptStart < panonoptEnd < optEnd <= nargv.Length == |orig|
    requires cyclelen == |tour| && IsTour(panonoptEnd - panonoptStart, optEnd - panonoptEnd, i, tour)
    requires TourDone(nargv[..], orig, panonoptStart, panonoptEnd - panonoptStart, optEnd - panonoptEnd, tour, 0)
    modifies nargv
    ensures TourDone(nargv[..], orig, panonoptStart, panonoptEnd - panonoptStart, optEnd - panonoptEnd, tour, cyclelen)
    ensures OnlyTourChanged(old(nargv[..]), nargv[..], panonoptStart, tour)
  {
    hide IsTour, TourDone, OnlyTourChanged, Landing;
    var nnonopts := panonoptEnd - panonoptStart;
    var nopts := optEnd - panonoptEnd;
    var cstart := panonoptEnd + i;
    var pos := cstart;
    var j := 0;
    TourStarts(nnonopts, nopts, i, tour);
    NothingChanged(nargv[..], panonoptStart, tour);
    while j < cyclelen
      invariant 0 <= j <= cyclelen
      invariant pos == panonoptStart + tour[if j < cyclelen then j else 0]
      invariant TourDone(nargv[..], orig, panonoptStart, nnonopts, nopts, tour, j)
      invariant OnlyTourChanged(old(nargv[..]), nargv[..], panonoptStart, tour)
    {
      ghost var was := nargv[..];
      TourStep(nnonopts, nopts, i, tour, j);
      if pos >= panonoptEnd {
        pos := pos - nnonopts;
      } else {
        pos := pos + nopts;
      }
      var swap := nargv[pos];
      nargv[pos] := nargv[cstart];
      nargv[cstart] := swap;
      assert nargv[..] == was[pos := was[cstart]][cstart := was[pos]];
      TourMove(was, nargv[..], orig, panonoptStart, nnonopts, nopts, i, tour, j);
      TourMoveFrame(old(nargv[..]), was, nargv[..], panonoptStart, nnonopts, nopts, i, tour, j);
      j := j + 1;
    }
  }

  /** Exchanges the block from panonoptStart to panonoptEnd with the block from there to
      optEnd, in place, and touches nothing else. The callers pass two non-empty blocks. */
  method PermuteArgs<T>(panonoptStart: nat, panonoptEnd: nat, optEnd: nat, nargv: array<T>)
    requires panonoptStart < panonoptEnd < optEnd <= nargv.Length
    modifies nargv
    ensures nargv[..] == Exchange(old(nargv[..]), panonoptStart, panonoptEnd, optEnd)
  {
    hide ToursDone, TourDone, OnlyTourChanged, IsTour, Exchange, IsGcd, Homes;
    ghost var orig := nargv[..];
    var nnonopts := panonoptEnd - panonoptStart;
    var nopts := optEnd - panonoptEnd;
    var ncycle := Gcd(nnonopts, nopts);
    GcdBound(nnonopts, nopts, ncycle);
    ghost var home := Homes(nnonopts + nopts, ncycle);
    var cyclelen := (optEnd - panonoptStart) / ncycle;
    assert optEnd - panonoptStart == nnonopts + nopts;
    NoTourDone(orig, panonoptStart, nnonopts, nopts, home);

    var i := 0;
    while i < ncycle
      invariant 0 <= i <= ncycle
      invariant ToursDone(nargv[..], orig, panonoptStart, nnonopts, nopts, home, i)
    {
      ghost var before := nargv[..];
      ghost var tour := GcdToursCover(nnonopts, nopts, ncycle, i);
      TourBegins(before, orig, panonoptStart, nnonopts, nopts, i, cyclelen, tour, home);
      RotateCycle(panonoptStart, panonoptEnd, optEnd, nargv, i, cyclelen, orig, tour);
      TourEnds(before, nargv[..], orig, panonoptStart, nnonopts, nopts, i, cyclelen, tour, home);
      i := i + 1;
    }
    AllToursDone(nargv[..], orig, panonoptStart, nnonopts, nopts, ncycle);
  }
}
