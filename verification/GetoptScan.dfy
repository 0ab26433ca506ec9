/** The argument scan of `getopt_long` in permuting mode.

    Arguments are abstracted to what the scan does with them. The index arithmetic on
    optind, nonopt_start and nonopt_end is the program's own. */
module GetoptScan {
  import opened ArgRotation
  import opened Options

  /** An argument: `more` letters follow the first one in a cluster of short options (0 for
      a long option); `takesNext` says that the last letter wants the next argument. */
  datatype Arg =
    | NonOption(text: string)
    | DashDash
    | Option(text: string, more: nat, takesNext: bool)

  /** What one call returns: -1, or one option letter with `left` letters of its argument
      still to come and the option's own argument, if it wanted and found one. */
  datatype Returned = Finished | Letter(arg: Arg, left: nat, optarg: Option<Arg>)

  // ---------------------------------------------------------------------------
  // Specification on the original vector
  // ---------------------------------------------------------------------------

  /** Options with their arguments, skipped non-options, and the rest behind "--". */
  datatype Parts = Parts(options: seq<Arg>, nonopts: seq<Arg>, rest: seq<Arg>)

  /** How many arguments the option at the head of s consumes. */
  function Consumed(s: seq<Arg>): (k: nat)
    requires s != []
    ensures 1 <= k <= |s|
  {
    if s[0].Option? && s[0].takesNext && |s| > 1 then 2 else 1
  }

  function OptionArg(s: seq<Arg>): Option<Arg>
    requires s != []
  {
    if Consumed(s) == 2 then Some(s[1]) else None
  }

  /** The stable partition of an argument vector. */
  function Partition(s: seq<Arg>): Parts {
    if s == [] then Parts([], [], [])
    else match s[0]
      case NonOption(_) => var p := Partition(s[1..]); p.(nonopts := [s[0]] + p.nonopts)
      case DashDash => Parts([s[0]], [], s[1..])
      case Option(_, _, _) =>
        var p := Partition(s[Consumed(s)..]);
        p.(options := s[..Consumed(s)] + p.options)
  }

  /** The letters of one argument, the last of which carries the option's argument. */
  function LettersOf(arg: Arg, more: nat, optarg: Option<Arg>): (r: seq<Returned>)
    ensures |r| == more + 1
  {
    if more == 0 then [Letter(arg, 0, optarg)]
    else [Letter(arg, more, None)] + LettersOf(arg, more - 1, optarg)
  }

  /** Everything the calls return before -1, in order. */
  function AllLetters(s: seq<Arg>): seq<Returned> {
    if s == [] then []
    else match s[0]
      case NonOption(_) => AllLetters(s[1..])
      case DashDash => []
      case Option(_, more, _) => LettersOf(s[0], more, OptionArg(s)) + AllLetters(s[Consumed(s)..])
  }

  /** picked is s at the given strictly increasing positions below `limit`. */
  ghost predicate PickedInOrder(picked: seq<Arg>, s: seq<Arg>, at: seq<nat>, limit: nat)
    requires limit <= |s|
  {
    && |picked| == |at|
    && (forall k :: 0 <= k < |at| ==> at[k] < limit && picked[k] == s[at[k]])
    && (forall j, k :: 0 <= j < k < |at| ==> at[j] < at[k])
  }

  /** A stable partition: the scanned arguments split into two subsequences that share no
      position and leave none out, and the rest is the untouched tail. */
  ghost predicate StablePartition(s: seq<Arg>, p: Parts, optionsAt: seq<nat>, nonoptsAt: seq<nat>) {
    && |p.options| + |p.nonopts| + |p.rest| == |s| && p.rest == s[|s| - |p.rest|..]
    && PickedInOrder(p.options, s, optionsAt, |s| - |p.rest|)
    && PickedInOrder(p.nonopts, s, nonoptsAt, |s| - |p.rest|)
    && Apart(optionsAt, nonoptsAt)
  }

  function ShiftBy(at: seq<nat>, k: nat): (r: seq<nat>)
    ensures |r| == |at| && forall i :: 0 <= i < |r| ==> r[i] == at[i] + k
  {
    seq(|at|, i requires 0 <= i < |at| => at[i] + k)
  }

  lemma {:induction false} ShiftMembers(at: seq<nat>, k: nat)
    ensures forall i: nat :: i in ShiftBy(at, k) <==> i >= k && i - k in at
  {
    forall i: nat
      ensures i in ShiftBy(at, k) <==> i >= k && i - k in at
    {
      if i >= k && i - k in at {
        var j :| 0 <= j < |at| && at[j] == i - k;
        assert ShiftBy(at, k)[j] == i;
      }
    }
  }

  /** Positions in s[k..] are positions in s moved by k. */
  lemma {:induction false} PickedShifted(picked: seq<Arg>, s: seq<Arg>, at: seq<nat>, k: nat, limit: nat)
    requires k <= limit <= |s| && PickedInOrder(picked, s[k..], at, limit - k)
    ensures PickedInOrder(picked, s, ShiftBy(at, k), limit)
  {
  }

  function FirstPositions(k: nat): (r: seq<nat>)
    ensures |r| == k && forall i :: 0 <= i < k ==> r[i] == i
  {
    seq(k, i requires 0 <= i < k => i)
  }

  /** The head s[..k] goes in front of what is picked behind it. */
  lemma {:induction false} PickedPrefixed(picked: seq<Arg>, s: seq<Arg>, at: seq<nat>, k: nat, limit: nat)
    requires k <= limit <= |s| && PickedInOrder(picked, s[k..], at, limit - k)
    ensures PickedInOrder(s[..k] + picked, s, FirstPositions(k) + ShiftBy(at, k), limit)
  {
    PickedShifted(picked, s, at, k, limit);
    var r := FirstPositions(k) + ShiftBy(at, k);
    forall i | 0 <= i < |r|
      ensures r[i] < limit && (s[..k] + picked)[i] == s[r[i]]
    {
      if i >= k {
        assert r[i] == ShiftBy(at, k)[i - k];
      }
    }
  }

  ghost predicate Apart(xs: seq<nat>, ys: seq<nat>) {
    forall i :: i in xs ==> i !in ys
  }

  lemma {:induction false} ShiftedApart(xs: seq<nat>, ys: seq<nat>, k: nat)
    requires Apart(xs, ys)
    ensures Apart(FirstPositions(k) + ShiftBy(xs, k), ShiftBy(ys, k))
    ensures Apart(ShiftBy(xs, k), FirstPositions(k) + ShiftBy(ys, k))
  {
    ShiftMembers(xs, k);
    ShiftMembers(ys, k);
  }

  /** What the scan skips are non-options. */
  lemma {:induction false} PartitionSkipsNonOptions(s: seq<Arg>)
    ensures forall a :: a in Partition(s).nonopts ==> a.NonOption?
  {
    if s != [] {
      PartitionSkipsNonOptions(s[if s[0].Option? then Consumed(s) else 1..]);
    }
  }

  /** Putting the scanned head on either side keeps the partition stable. */
  lemma {:induction false} StableWithHead(s: seq<Arg>, k: nat, q: Parts, o: seq<nat>, n: seq<nat>)
    requires k <= |s| && StablePartition(s[k..], q, o, n)
    ensures StablePartition(s, q.(options := s[..k] + q.options), FirstPositions(k) + ShiftBy(o, k), ShiftBy(n, k))
    ensures StablePartition(s, q.(nonopts := s[..k] + q.nonopts), ShiftBy(o, k), FirstPositions(k) + ShiftBy(n, k))
  {
    var limit := |s| - |q.rest|;
    assert s[k..][|s[k..]| - |q.rest|..] == s[limit..];
    ShiftedApart(o, n, k);
    PickedShifted(q.options, s, o, k, limit);
    PickedShifted(q.nonopts, s, n, k, limit);
    PickedPrefixed(q.options, s, o, k, limit);
    PickedPrefixed(q.nonopts, s, n, k, limit);
  }

  /** The scan's result is a stable partition. */
  lemma {:induction false} PartitionIsStable(s: seq<Arg>) returns (optionsAt: seq<nat>, nonoptsAt: seq<nat>)
    ensures StablePartition(s, Partition(s), optionsAt, nonoptsAt)
  {
    if s == [] {
      optionsAt, nonoptsAt := [], [];
    } else if s[0].DashDash? {
      optionsAt, nonoptsAt := [0], [];
    } else {
      var k := if s[0].Option? then Consumed(s) else 1;
      var o, n := PartitionIsStable(s[k..]);
      StableWithHead(s, k, Partition(s[k..]), o, n);
      if s[0].Option? {
        optionsAt, nonoptsAt := FirstPositions(k) + ShiftBy(o, k), ShiftBy(n, k);
      } else {
        assert s[..1] == [s[0]];
        optionsAt, nonoptsAt := ShiftBy(o, k), FirstPositions(k) + ShiftBy(n, k);
      }
    }
  }

  // ---------------------------------------------------------------------------
  // The same by positions
  // ---------------------------------------------------------------------------

  /** Argument i belongs to the one in front of it: that is an option which wants an argument, and
      no argument of another option itself. */
  predicate IsArgument(s: seq<Arg>, i: nat)
    requires i < |s|
  {
    0 < i && s[i - 1].Option? && s[i - 1].takesNext && !IsArgument(s, i - 1)
  }

  /** Argument i is a "--" that no option takes as its argument. */
  predicate IsEnd(s: seq<Arg>, i: nat)
    requires i < |s|
  {
    s[i].DashDash? && !IsArgument(s, i)
  }

  /** The first n arguments are scanned: the last of them ends the options, or there is no more. */
  predicate ScansTo(s: seq<Arg>, n: nat) {
    n <= |s| && (forall i: nat | i < n - 1 :: !IsEnd(s, i)) && (n == |s| || (0 < n && IsEnd(s, n - 1)))
  }

  /** Options and their arguments go in front, and the "--"; so non-options stay behind. */
  predicate GoesInFront(s: seq<Arg>, i: nat)
    requires i < |s|
  {
    !s[i].NonOption? || IsArgument(s, i)
  }

  /** Those of the first n arguments that go in front, or those that do not, in order. */
  function Arranged(s: seq<Arg>, n: nat, inFront: bool): seq<Arg>
    requires n <= |s|
  {
    if n == 0 then []
    else Arranged(s, n - 1, inFront) + if GoesInFront(s, n - 1) == inFront then [s[n - 1]] else []
  }

  /** The letters of argument i, if it is an option: its own in order, with the argument behind it
      on the last one if and only if the option wants one and there is one. */
  function LettersAt(s: seq<Arg>, i: nat): seq<Returned>
    requires i < |s|
  {
    if !s[i].Option? || IsArgument(s, i) then []
    else
      var more := s[i].more;
      seq(more + 1, j requires 0 <= j <= more =>
        Letter(s[i], more - j, if j == more && s[i].takesNext && i + 1 < |s| then Some(s[i + 1]) else None))
  }

  /** The letters of the first n arguments, in order. */
  function LettersUpTo(s: seq<Arg>, n: nat): seq<Returned>
    requires n <= |s|
  {
    if n == 0 then [] else LettersUpTo(s, n - 1) + LettersAt(s, n - 1)
  }

  /** Cutting off what the first argument consumes is following the positions. */
  lemma {:induction false} PartitionByPosition(s: seq<Arg>, i: nat) returns (n: nat)
    requires i <= |s| && (i < |s| ==> !IsArgument(s, i)) && forall j: nat | j < i :: !IsEnd(s, j)
    ensures i <= n && ScansTo(s, n)
    ensures Arranged(s, n, true) == Arranged(s, i, true) + Partition(s[i..]).options
    ensures Arranged(s, n, false) == Arranged(s, i, false) + Partition(s[i..]).nonopts
    ensures s[n..] == Partition(s[i..]).rest
    ensures LettersUpTo(s, n) == LettersUpTo(s, i) + AllLetters(s[i..])
    decreases |s| - i
  {
    hide Arranged, LettersUpTo, Partition, AllLetters, LettersOf, OptionArg, Consumed, IsArgument;
    if i == |s| || s[i].DashDash? {
      n := if i == |s| then i else i + 1;
      EndOfScan(s, i);
    } else {
      var k := Consumed(s[i..]);
      ArrangedStep(s, i, k);
      LettersStep(s, i, k);
      n := PartitionByPosition(s, i + k);
    }
  }

  /** The partition and the letters are those that the positions tell. */
  lemma {:induction false} ScanByPosition(s: seq<Arg>) returns (n: nat)
    ensures ScansTo(s, n) && LettersUpTo(s, n) == AllLetters(s)
    ensures Partition(s) == Parts(Arranged(s, n, true), Arranged(s, n, false), s[n..])
  {
    n := PartitionByPosition(s, 0);
    assert s[0..] == s;
  }

  /** "--" goes in front and nothing behind it is scanned. */
  lemma {:induction false} EndOfScan(s: seq<Arg>, i: nat)
    requires i <= |s| && (i < |s| ==> s[i].DashDash? && !IsArgument(s, i))
    ensures var n := if i == |s| then i else i + 1;
      && Arranged(s, n, true) == Arranged(s, i, true) + Partition(s[i..]).options
      && Arranged(s, n, false) == Arranged(s, i, false) + Partition(s[i..]).nonopts
      && s[n..] == Partition(s[i..]).rest && LettersUpTo(s, n) == LettersUpTo(s, i) + AllLetters(s[i..])
  {
    if i < |s| {
      TailStep(s, i, 1);
    }
  }

  /** The argument at i, in its own right, and the k - 1 arguments it consumes. */
  predicate IsGroup(s: seq<Arg>, i: nat, k: nat) {
    i < |s| && !IsArgument(s, i) && !s[i].DashDash? && k == Consumed(s[i..])
  }

  lemma {:induction false} GroupEnds(s: seq<Arg>, i: nat, k: nat)
    requires IsGroup(s, i, k)
    ensures i + k <= |s| && (i + k < |s| ==> !IsArgument(s, i + k)) && forall j: nat | i <= j < i + k :: !IsEnd(s, j)
    ensures if k == 2 then s[i].Option? && IsArgument(s, i + 1) else k == 1
  {
  }

  lemma {:induction false} Joined<T>(a: seq<T>, b: seq<T>, c: seq<T>)
    ensures a + (b + c) == (a + b) + c
  {
  }

  lemma {:induction false} ArrangedStep(s: seq<Arg>, i: nat, k: nat)
    requires IsGroup(s, i, k)
    ensures i + k <= |s| && (i + k < |s| ==> !IsArgument(s, i + k)) && forall j: nat | i <= j < i + k :: !IsEnd(s, j)
    ensures var p, q := Partition(s[i..]), Partition(s[i + k..]);
      && Arranged(s, i, true) + p.options == Arranged(s, i + k, true) + q.options
      && Arranged(s, i, false) + p.nonopts == Arranged(s, i + k, false) + q.nonopts
      && p.rest == q.rest
  {
    hide Partition, Consumed;
    GroupEnds(s, i, k);
    TailStep(s, i, k);
    PartitionHead(s[i..]);
    var q := Partition(s[i + k..]);
    ArrangedGroup(s, i, k);
    Joined(Arranged(s, i, true), s[i..i + k], q.options);
    Joined(Arranged(s, i, false), s[i..i + k], q.nonopts);
  }

  lemma {:induction false} ArrangedGroup(s: seq<Arg>, i: nat, k: nat)
    requires IsGroup(s, i, k)
    ensures i + k <= |s|
    ensures Arranged(s, i + k, s[i].Option?) == Arranged(s, i, s[i].Option?) + s[i..i + k]
    ensures Arranged(s, i + k, !s[i].Option?) == Arranged(s, i, !s[i].Option?)
  {
    hide Consumed, IsArgument;
    GroupEnds(s, i, k);
    assert s[i..i + 1] == [s[i]];
    if k == 2 {
      assert s[i..i + 2] == [s[i]] + [s[i + 1]];
    }
  }

  lemma {:induction false} LettersStep(s: seq<Arg>, i: nat, k: nat)
    requires IsGroup(s, i, k)
    ensures i + k <= |s| && LettersUpTo(s, i) + AllLetters(s[i..]) == LettersUpTo(s, i + k) + AllLetters(s[i + k..])
  {
    hide IsArgument, Consumed, OptionArg, LettersOf;
    GroupEnds(s, i, k);
    TailStep(s, i, k);
    LettersGroup(s, i, k);
    Joined(LettersUpTo(s, i), LettersAt(s, i), AllLetters(s[i + k..]));
    if s[i].Option? {
      LettersOfOption(s, i, s[i].more);
      assert LettersAt(s, i)[0..] == LettersAt(s, i);
    } else {
      NonOptionAlone(s[i..]);
      assert LettersAt(s, i) + AllLetters(s[i + 1..]) == AllLetters(s[i + 1..]);
    }
  }

  lemma {:induction false} NonOptionAlone(s: seq<Arg>)
    requires s != [] && s[0].NonOption?
    ensures Consumed(s) == 1
  {
  }

  lemma {:induction false} LettersGroup(s: seq<Arg>, i: nat, k: nat)
    requires IsGroup(s, i, k)
    ensures i + k <= |s| && LettersUpTo(s, i + k) == LettersUpTo(s, i) + LettersAt(s, i)
  {
    hide Consumed, IsArgument;
    GroupEnds(s, i, k);
    if k == 2 {
      assert LettersAt(s, i + 1) == [];
      assert LettersUpTo(s, i + 1) + [] == LettersUpTo(s, i + 1);
    }
  }

  lemma {:induction false} LettersOfOption(s: seq<Arg>, i: nat, more: nat)
    requires i < |s| && s[i].Option? && !IsArgument(s, i) && more <= s[i].more
    ensures LettersOf(s[i], more, OptionArg(s[i..])) == LettersAt(s, i)[s[i].more - more..]
  {
    var at := s[i].more - more;
    assert LettersAt(s, i)[at..] == [LettersAt(s, i)[at]] + LettersAt(s, i)[at + 1..];
    if more > 0 {
      LettersOfOption(s, i, more - 1);
    }
  }

  /** An argument of an option goes right behind it. */
  lemma {:induction false} ArgumentFollows(s: seq<Arg>, i: nat, n: nat)
    requires i < n <= |s| && IsArgument(s, i)
    ensures Arranged(s, i - 1, true) + [s[i - 1], s[i]] <= Arranged(s, n, true)
    decreases n
  {
    if n == i + 1 {
      assert Arranged(s, n, true) == Arranged(s, i - 1, true) + [s[i - 1]] + [s[i]];
    } else {
      ArgumentFollows(s, i, n - 1);
    }
  }

  // ---------------------------------------------------------------------------
  // The scanner's state
  // ---------------------------------------------------------------------------

  /** The scanned part of the vector: options in front of the skipped non-options, the
      non-options, options found behind them. */
  datatype Blocks = Blocks(before: seq<Arg>, skipped: seq<Arg>, behind: seq<Arg>) {
    function Size(): nat { |before| + |skipped| + |behind| }
  }

  /** The vector is the untouched front, the three blocks, and the unscanned tail. */
  ghost predicate Layout(argv: seq<Arg>, orig: seq<Arg>, first: nat, b: Blocks) {
    && first + b.Size() <= |orig|
    && argv == (orig[..first] + b.before) + b.skipped + b.behind + orig[first + b.Size()..]
  }

  /** optind, nonopt_start and nonopt_end describe the blocks. */
  ghost predicate Indices(optind: int, nonoptStart: int, nonoptEnd: int, first: nat, b: Blocks) {
    && optind == first + b.Size()
    && (if b.skipped == [] then nonoptStart == -1 && nonoptEnd == -1 && b.behind == []
        else nonoptStart == first + |b.before|
             && (if nonoptEnd == -1 then b.behind == [] else nonoptEnd == nonoptStart + |b.skipped|))
  }

  /** The blocks hold what the partition of the whole vector needs of the scanned part. */
  ghost predicate Scanned(orig: seq<Arg>, first: nat, b: Blocks)
    requires first + b.Size() <= |orig|
  {
    Partition(orig[first..]) == Join(b.before + b.behind, b.skipped, Partition(orig[first + b.Size()..]))
  }

  ghost function Join(options: seq<Arg>, nonopts: seq<Arg>, p: Parts): Parts {
    Parts(options + p.options, nonopts + p.nonopts, p.rest)
  }

  lemma {:induction false} TailStep<T>(s: seq<T>, k: nat, c: nat)
    requires k + c <= |s|
    ensures s[k..][c..] == s[k + c..] && s[k..][..c] == s[k..k + c]
  {
  }

  /** Exchanging the middle blocks of a + b + c + d. */
  lemma {:induction false} ExchangeMiddle(a: seq<Arg>, b: seq<Arg>, c: seq<Arg>, d: seq<Arg>)
    ensures Exchange(a + b + c + d, |a|, |a| + |b|, |a| + |b| + |c|) == a + c + b + d
  {
    var s := a + b + c + d;
    assert s[..|a|] == a && s[|a| + |b|..|a| + |b| + |c|] == c;
    assert s[|a|..|a| + |b|] == b && s[|a| + |b| + |c|..] == d;
  }

  /** After the exchange all options are in front of the skipped arguments. */
  lemma {:induction false} LayoutExchanged(argv: seq<Arg>, orig: seq<Arg>, first: nat, b: Blocks)
    requires Layout(argv, orig, first, b)
    ensures |argv| == |orig|
    ensures var start := first + |b.before|;
            Layout(Exchange(argv, start, start + |b.skipped|, first + b.Size()), orig, first,
                   Blocks(b.before + b.behind, b.skipped, []))
  {
    hide Exchange;
    var front, rest := orig[..first] + b.before, orig[first + b.Size()..];
    ExchangeMiddle(front, b.skipped, b.behind, rest);
    Regroup(orig[..first], b.before, b.behind, b.skipped, rest);
  }

  lemma {:induction false} Regroup(f: seq<Arg>, a: seq<Arg>, c: seq<Arg>, b: seq<Arg>, d: seq<Arg>)
    ensures f + a + c + b + d == f + (a + c) + b + [] + d
  {
    assert f + a + c == f + (a + c);
    assert f + (a + c) + b == f + (a + c) + b + [];
  }

  /** The next k unscanned arguments join the last block. */
  lemma {:induction false} LayoutAppend(argv: seq<Arg>, orig: seq<Arg>, first: nat, b: Blocks, k: nat)
    requires Layout(argv, orig, first, b) && first + b.Size() + k <= |orig|
    ensures Layout(argv, orig, first, b.(behind := b.behind + orig[first + b.Size()..first + b.Size() + k]))
  {
    var at := first + b.Size();
    var head, rest := orig[at..at + k], orig[at + k..];
    assert orig[at..] == head + rest;
    var front := orig[..first] + b.before + b.skipped;
    assert front + b.behind + (head + rest) == front + (b.behind + head) + rest;
  }

  lemma {:induction false} LayoutHead(argv: seq<Arg>, orig: seq<Arg>, first: nat, b: Blocks)
    requires Layout(argv, orig, first, b)
    ensures |argv| == |orig|
    ensures first + b.Size() < |orig| ==> argv[first + b.Size()] == orig[first + b.Size()]
  {
    var front := orig[..first] + b.before + b.skipped + b.behind;
    assert |front| == first + b.Size();
    if first + b.Size() < |orig| {
      assert (front + orig[|front|..])[|front|] == orig[|front|];
    }
  }

  /** Where a block ends and the next begins is a matter of naming. */
  lemma {:induction false} LayoutRename(argv: seq<Arg>, orig: seq<Arg>, first: nat, before: seq<Arg>,
                                        skipped: seq<Arg>, head: seq<Arg>)
    requires Layout(argv, orig, first, Blocks(before, skipped, head))
    ensures Layout(argv, orig, first, Blocks(before, skipped + head, []))
    ensures skipped == [] ==> Layout(argv, orig, first, Blocks(before + head, [], []))
  {
    var front, rest := orig[..first] + before, orig[first + |before| + |skipped| + |head|..];
    assert front + skipped + head == front + (skipped + head) + [];
    if skipped == [] {
      assert front + [] + head == orig[..first] + (before + head) + [] + [];
    }
  }

  lemma {:induction false} JoinHead(options: seq<Arg>, nonopts: seq<Arg>, head: seq<Arg>, p: Parts)
    ensures Join(options, nonopts, p.(options := head + p.options)) == Join(options + head, nonopts, p)
    ensures Join(options, nonopts, p.(nonopts := head + p.nonopts)) == Join(options, nonopts + head, p)
  {
    assert options + (head + p.options) == options + head + p.options;
    assert nonopts + (head + p.nonopts) == nonopts + head + p.nonopts;
  }

  /** What the partition makes of the first argument. */
  lemma {:induction false} PartitionHead(s: seq<Arg>)
    requires s != [] && !s[0].DashDash?
    ensures var k := if s[0].Option? then Consumed(s) else 1;
      var q := Partition(s[k..]);
      Partition(s) == if s[0].Option? then q.(options := s[..k] + q.options) else q.(nonopts := s[..k] + q.nonopts)
  {
    assert s[..1] == [s[0]];
  }

  /** What skipping a non-option does to the partition. */
  lemma {:induction false} ScannedNonOption(orig: seq<Arg>, first: nat, b: Blocks)
    requires first + b.Size() < |orig| && Scanned(orig, first, b)
    requires orig[first + b.Size()].NonOption? && b.behind == []
    ensures var at := first + b.Size(); Scanned(orig, first, b.(skipped := b.skipped + orig[at..at + 1]))
  {
    hide Partition, Join;
    var at := first + b.Size();
    PartitionHead(orig[at..]);
    TailStep(orig, at, 1);
    JoinHead(b.before + b.behind, b.skipped, orig[at..at + 1], Partition(orig[at + 1..]));
  }

  /** What consuming an option and its argument does to the partition. */
  lemma {:induction false} ScannedOption(orig: seq<Arg>, first: nat, b: Blocks)
    requires first + b.Size() < |orig| && Scanned(orig, first, b) && orig[first + b.Size()].Option?
    ensures var at := first + b.Size();
            Scanned(orig, first, b.(behind := b.behind + orig[at..at + Consumed(orig[at..])]))
  {
    hide Partition, Join, Consumed;
    var at := first + b.Size();
    var k := Consumed(orig[at..]);
    PartitionHead(orig[at..]);
    TailStep(orig, at, k);
    JoinHead(b.before + b.behind, b.skipped, orig[at..at + k], Partition(orig[at + k..]));
    assert b.before + b.behind + orig[at..at + k] == b.before + (b.behind + orig[at..at + k]);
  }

  lemma {:induction false} ScannedRename(orig: seq<Arg>, first: nat, before: seq<Arg>, behind: seq<Arg>)
    requires first + |before| + |behind| <= |orig| && Scanned(orig, first, Blocks(before, [], behind))
    ensures Scanned(orig, first, Blocks(before + behind, [], []))
  {
    assert before + behind == before + behind + [];
  }

  lemma {:induction false} ScannedExchanged(orig: seq<Arg>, first: nat, b: Blocks)
    requires first + b.Size() <= |orig| && Scanned(orig, first, b)
    ensures Scanned(orig, first, Blocks(b.before + b.behind, b.skipped, []))
  {
    assert b.before + b.behind == b.before + b.behind + [];
  }

  /** The blocks after the non-option at optind is skipped. */
  function Skip(b: Blocks, head: seq<Arg>): Blocks {
    b.(skipped := b.skipped + head)
  }

  lemma {:induction false} SkipKeepsState(argv: seq<Arg>, orig: seq<Arg>, first: nat, b: Blocks, optind: nat,
                                          start: int)
    requires Layout(argv, orig, first, b) && Scanned(orig, first, b) && Indices(optind, start, -1, first, b)
    requires optind < |orig| && orig[optind].NonOption?
    ensures var c := Skip(b, orig[optind..optind + 1]);
            && Layout(argv, orig, first, c) && Scanned(orig, first, c)
            && Indices(optind + 1, if start == -1 then optind else start, -1, first, c)
  {
    hide Layout, Scanned;
    var head := orig[optind..optind + 1];
    LayoutAppend(argv, orig, first, b, 1);
    assert [] + head == head;
    LayoutRename(argv, orig, first, b.before, b.skipped, head);
    ScannedNonOption(orig, first, b);
  }

  /** The blocks after an option and its argument are consumed. */
  function Take(b: Blocks, taken: seq<Arg>): Blocks {
    if b.skipped == [] then b.(before := b.before + taken) else b.(behind := b.behind + taken)
  }

  lemma {:induction false} TakeKeepsState(argv: seq<Arg>, orig: seq<Arg>, first: nat, b: Blocks, optind: nat,
                                          start: int, end: int, k: nat)
    requires Layout(argv, orig, first, b) && Scanned(orig, first, b) && Indices(optind, start, end, first, b)
    requires start != -1 ==> end != -1
    requires optind < |orig| && orig[optind].Option? && k == Consumed(orig[optind..])
    ensures var c := Take(b, orig[optind..optind + k]);
            && Layout(argv, orig, first, c) && Scanned(orig, first, c)
            && Indices(optind + k, start, end, first, c) && (end != -1 ==> c.behind != [])
  {
    hide Layout, Scanned;
    var taken := orig[optind..optind + k];
    LayoutAppend(argv, orig, first, b, k);
    ScannedOption(orig, first, b);
    if b.skipped == [] {
      assert [] + taken == taken;
      LayoutRename(argv, orig, first, b.before, [], taken);
      ScannedRename(orig, first, b.before, taken);
    }
  }

  /** The final vector when "--" stands at the scanning pointer. */
  lemma {:induction false} FinalDashDash(argv: seq<Arg>, orig: seq<Arg>, first: nat, b: Blocks, options: seq<Arg>)
    requires first + b.Size() < |orig| && Scanned(orig, first, b) && orig[first + b.Size()].DashDash?
    requires options == b.before + (b.behind + [DashDash])
    requires Layout(argv, orig, first, Blocks(options, b.skipped, []))
    ensures IsPermuted(argv, first + |options|, orig, first)
  {
    var at := first + b.Size();
    var tail := orig[at..];
    TailStep(orig, at, 1);
    assert options == b.before + b.behind + [DashDash];
    assert Partition(tail) == Parts([tail[0]], [], tail[1..]);
    assert b.skipped + [] == b.skipped;
    assert orig[..first] + options + b.skipped + [] == orig[..first] + options + b.skipped;
  }

  /** No letters are left behind "--". */
  lemma {:induction false} NothingRemains(orig: seq<Arg>, optind: nat)
    requires optind < |orig| && orig[optind].DashDash?
    ensures Remaining(orig, optind, 0) == [] && orig[optind..optind + 1] == [DashDash]
  {
    assert orig[optind..][0] == orig[optind];
  }

  /** The final vector when everything is scanned. */
  lemma {:induction false} FinalAtEnd(argv: seq<Arg>, orig: seq<Arg>, first: nat, b: Blocks)
    requires first + b.Size() == |orig| && Scanned(orig, first, b) && b.behind == []
    requires Layout(argv, orig, first, b)
    ensures IsPermuted(argv, first + |b.before|, orig, first)
  {
    assert orig[|orig|..] == [];
    assert b.before + [] + [] == b.before && b.skipped + [] == b.skipped;
    assert orig[..first] + b.before + b.skipped + [] == orig[..first] + b.before + b.skipped;
  }

  /** What the whole scan promises: options with their arguments, then the skipped
      non-options, then the rest, and optind at the first non-option. */
  ghost predicate IsPermuted(argv: seq<Arg>, optind: int, orig: seq<Arg>, first: nat) {
    first <= |orig|
    && var p := Partition(orig[first..]);
    argv == orig[..first] + p.options + p.nonopts + p.rest && optind == first + |p.options|
  }

  // ---------------------------------------------------------------------------
  // The scanner
  // ---------------------------------------------------------------------------

  class Getopt {
    var optind: nat
    var nonoptStart: int
    var nonoptEnd: int
    /** Letters of nargv[optind] not returned yet (what `place` points at). */
    var place: nat
    const nargv: array<Arg>

    ghost const orig: seq<Arg>
    ghost const first: nat
    ghost var blocks: Blocks
    ghost var returned: seq<Returned>

    ghost predicate Valid()
      reads this, nargv
    {
      && |orig| == nargv.Length && optind <= |orig|
      && Layout(nargv[..], orig, first, blocks)
      && Indices(optind, nonoptStart, nonoptEnd, first, blocks)
      && Scanned(orig, first, blocks)
      && (place == 0 ==> (nonoptEnd != -1 ==> blocks.behind != []))
      && (place > 0 ==> optind < |orig| && orig[optind].Option? && place <= orig[optind].more
                        && (nonoptStart != -1 ==> nonoptEnd != -1))
      && AllLetters(orig[first..]) == returned + Remaining(orig, optind, place)
    }

    constructor (nargv: array<Arg>, optind: nat)
      requires optind <= nargv.Length
      ensures Valid() && this.nargv == nargv && orig == nargv[..] && first == optind && returned == []
    {
      this.nargv := nargv;
      this.optind := optind;
      nonoptStart, nonoptEnd, place := -1, -1, 0;
      orig, first := nargv[..], optind;
      blocks, returned := Blocks([], [], []), [];
      new;
      assert orig[..first] + [] + [] + [] == orig[..first];
      assert [] + AllLetters(orig[first..]) == AllLetters(orig[first..]);
    }

    /** nargv, optind and the letters returned are as the whole scan promises. */
    ghost predicate Done()
      reads this, nargv
    {
      && IsPermuted(nargv[..], optind, orig, first)
      && returned == AllLetters(orig[first..])
      && nonoptStart == -1 && nonoptEnd == -1 && place == 0
    }

    /** Moves the options found behind the skipped block in front of it. */
    method MoveOptionsForward()
      requires Valid() && place == 0 && nonoptEnd != -1
      modifies this, nargv
      ensures Valid() && place == 0 && nonoptEnd == -1 && nonoptStart != -1
      ensures optind == old(optind) && returned == old(returned)
    {
      hide Layout, Scanned, Exchange, AllLetters, Remaining, Partition, Join, Consumed, OptionArg;
      LayoutExchanged(nargv[..], orig, first, blocks);
      ScannedExchanged(orig, first, blocks);
      PermuteArgs(nonoptStart, nonoptEnd, optind, nargv);
      nonoptStart := optind - (nonoptEnd - nonoptStart);
      nonoptEnd := -1;
      blocks := Blocks(blocks.before + blocks.behind, blocks.skipped, []);
    }

    /** The scanning pointer stands at a non-option: skip it, first moving the options found
        since the last skipped block in front of that block. */
    method SkipNonOption()
      requires Valid() && place == 0 && optind < nargv.Length && nargv[optind].NonOption?
      modifies this, nargv
      ensures Valid() && place == 0 && optind == old(optind) + 1 && returned == old(returned)
    {
      hide Layout, Scanned, Exchange, AllLetters, Remaining, Partition, Join, Consumed, OptionArg;
      LayoutHead(nargv[..], orig, first, blocks);
      if nonoptStart == -1 {
        nonoptStart := optind;
      } else if nonoptEnd != -1 {
        MoveOptionsForward();
      }
      SkipKeepsState(nargv[..], orig, first, blocks, optind, if blocks.skipped == [] then -1 else nonoptStart);
      RemainingSkip(orig, optind);
      blocks := Skip(blocks, orig[optind..optind + 1]);
      optind := optind + 1;
    }

    /** End of the argument vector. */
    method FinishAtEnd()
      requires Valid() && place == 0 && optind == nargv.Length
      modifies this, nargv
      ensures Done() && returned == old(returned)
    {
      hide Layout, Scanned, Exchange, IsPermuted, Partition, Join, Consumed, OptionArg;
      assert orig[optind..] == [];
      assert returned + [] == returned;
      if nonoptEnd != -1 {
        LayoutExchanged(nargv[..], orig, first, blocks);
        ScannedExchanged(orig, first, blocks);
        PermuteArgs(nonoptStart, nonoptEnd, optind, nargv);
        optind := optind - (nonoptEnd - nonoptStart);
        blocks := Blocks(blocks.before + blocks.behind, blocks.skipped, []);
      } else if nonoptStart != -1 {
        optind := nonoptStart;
      }
      nonoptStart, nonoptEnd := -1, -1;
      FinalAtEnd(nargv[..], orig, first, blocks);
    }

    /** The scanning pointer stands at "--": it ends the options. */
    method FinishAtDashDash()
      requires Valid() && place == 0 && optind < nargv.Length && nargv[optind].DashDash?
      modifies this, nargv
      ensures Done() && returned == old(returned)
    {
      hide Layout, Scanned, Exchange, IsPermuted, Partition, Join, Consumed, OptionArg, AllLetters, Remaining;
      LayoutHead(nargv[..], orig, first, blocks);
      NothingRemains(orig, optind);
      assert returned + [] == returned;
      if nonoptStart != -1 && nonoptEnd == -1 {
        nonoptEnd := optind;
      }
      LayoutAppend(nargv[..], orig, first, blocks, 1);
      ghost var b := blocks.(behind := blocks.behind + [DashDash]);
      optind := optind + 1;
      if nonoptEnd != -1 {
        LayoutExchanged(nargv[..], orig, first, b);
        PermuteArgs(nonoptStart, nonoptEnd, optind, nargv);
        optind := optind - (nonoptEnd - nonoptStart);
      } else {
        LayoutRename(nargv[..], orig, first, b.before, [], b.behind);
      }
      nonoptStart, nonoptEnd := -1, -1;
      FinalDashDash(nargv[..], orig, first, blocks, b.before + b.behind);
    }

    /** The scanning pointer stands at an option: start on its letters. */
    method StartOption()
      requires Valid() && place == 0 && optind < nargv.Length && nargv[optind].Option?
      modifies this
      ensures optind == old(optind) && optind < |orig| && orig[optind].Option?
      ensures place == orig[optind].more + 1 && returned == old(returned)
      ensures InOption()
    {
      hide Layout, Scanned, Exchange, Partition, Join, Consumed, OptionArg;
      LayoutHead(nargv[..], orig, first, blocks);
      RemainingStart(orig, optind);
      if nonoptStart != -1 && nonoptEnd == -1 {
        nonoptEnd := optind;
      }
      place := nargv[optind].more + 1;
    }

    /** Valid, with at least one letter of nargv[optind] still to be returned. */
    ghost predicate InOption()
      reads this, nargv
    {
      && |orig| == nargv.Length && optind < |orig| && optind == first + blocks.Size()
      && Layout(nargv[..], orig, first, blocks)
      && Indices(optind, nonoptStart, nonoptEnd, first, blocks)
      && Scanned(orig, first, blocks)
      && orig[optind].Option? && 0 < place <= orig[optind].more + 1
      && (nonoptStart != -1 ==> nonoptEnd != -1)
      && AllLetters(orig[first..]) == returned + Remaining(orig, optind, place)
    }

    /** Returns the next letter; behind the last one, moves on to the next argument. */
    method TakeLetter() returns (r: Returned)
      requires InOption()
      modifies this
      ensures Valid() && r.Letter? && returned == old(returned) + [r]
      ensures var takes := old(place) == 1 && orig[old(optind)].takesNext && old(optind) + 1 < |orig|;
        && r.arg == orig[old(optind)] && r.left == place == old(place) - 1
        && r.optarg == (if takes then Some(orig[old(optind) + 1]) else None)
        && optind == old(optind) + (if old(place) > 1 then 0 else if takes then 2 else 1)
    {
      hide Layout, Scanned, Exchange, Partition, Join, AllLetters, Indices, Remaining, Skip, Take;
      LayoutHead(nargv[..], orig, first, blocks);
      if optind + 1 < nargv.Length {
        LayoutAt(nargv[..], orig, first, blocks, optind + 1);
      }
      RemainingLetter(orig, optind, place);
      if place > 1 {
        place := place - 1;
        r := Letter(nargv[optind], place, None);
      } else {
        TakeKeepsState(nargv[..], orig, first, blocks, optind, nonoptStart, nonoptEnd, Consumed(orig[optind..]));
        blocks := Take(blocks, orig[optind..optind + Consumed(orig[optind..])]);
        place := 0;
        var option := nargv[optind];
        optind := optind + 1;
        if !option.takesNext || optind >= nargv.Length {
          r := Letter(option, 0, None);
        } else {
          r := Letter(option, 0, Some(nargv[optind]));
          optind := optind + 1;
        }
      }
      returned := returned + [r];
    }

    /** One call of getopt_long. */
    method GetoptInternal() returns (r: Returned)
      requires Valid()
      modifies this, nargv
      ensures r.Letter? ==> Valid() && returned == old(returned) + [r]
      ensures r.Finished? ==> Done() && returned == old(returned)
    {
      if place == 0 {
        while optind < nargv.Length && nargv[optind].NonOption?
          invariant Valid() && place == 0 && returned == old(returned)
          decreases nargv.Length - optind
        {
          SkipNonOption();
        }
        if optind >= nargv.Length {
          FinishAtEnd();
          return Finished;
        }
        if nargv[optind].DashDash? {
          FinishAtDashDash();
          return Finished;
        }
        StartOption();
      }
      r := TakeLetter();
    }
  }

  /** A whole run: calls until -1 is returned. By positions, up to n arguments are scanned: what
      goes in front stands in front, in order, then what does not, and the letters returned are
      those of the options, each with its own argument. */
  method ParseAll(nargv: array<Arg>, optind: nat) returns (letters: seq<Returned>, newOptind: nat, ghost n: nat)
    requires optind <= nargv.Length
    modifies nargv
    ensures var s := old(nargv[..])[optind..];
            && ScansTo(s, n) && letters == LettersUpTo(s, n)
            && nargv[..] == old(nargv[..])[..optind] + Arranged(s, n, true) + Arranged(s, n, false) + s[n..]
            && newOptind == optind + |Arranged(s, n, true)|
    ensures letters == AllLetters(old(nargv[..])[optind..])
    ensures var p := Partition(old(nargv[..])[optind..]);
            && nargv[..] == old(nargv[..])[..optind] + p.options + p.nonopts + p.rest
            && newOptind == optind + |p.options|
  {
    hide Partition, AllLetters, Arranged, LettersUpTo, ScansTo;
    var g := new Getopt(nargv, optind);
    letters := [];
    var r := g.GetoptInternal();
    while r.Letter?
      invariant g.nargv == nargv && g.orig == old(nargv[..]) && g.first == optind && fresh(g)
      invariant r.Letter? ==> g.Valid() && g.returned == letters + [r]
      invariant r.Finished? ==> g.Done() && g.returned == letters
      invariant |letters| <= |AllLetters(g.orig[g.first..])|
      decreases |AllLetters(g.orig[g.first..])| - |letters|, r.Letter?
    {
      letters := letters + [r];
      r := g.GetoptInternal();
    }
    newOptind := g.optind;
    n := ScanByPosition(old(nargv[..])[optind..]);
  }

  /** The letters the remaining calls will return. */
  function Remaining(orig: seq<Arg>, optind: nat, place: nat): seq<Returned>
    requires optind <= |orig|
    requires place > 0 ==> optind < |orig|
  {
    if place > 0 then
      LettersOf(orig[optind], place - 1, OptionArg(orig[optind..]))
      + AllLetters(orig[optind + Consumed(orig[optind..])..])
    else AllLetters(orig[optind..])
  }

  lemma {:induction false} RemainingSkip(orig: seq<Arg>, optind: nat)
    requires optind < |orig| && orig[optind].NonOption?
    ensures Remaining(orig, optind, 0) == Remaining(orig, optind + 1, 0)
  {
    TailStep(orig, optind, 1);
  }

  lemma {:induction false} RemainingStart(orig: seq<Arg>, optind: nat)
    requires optind < |orig| && orig[optind].Option?
    ensures Remaining(orig, optind, 0) == Remaining(orig, optind, orig[optind].more + 1)
  {
    TailStep(orig, optind, Consumed(orig[optind..]));
  }

  /** Taking one letter off the remaining ones. */
  lemma {:induction false} RemainingLetter(orig: seq<Arg>, optind: nat, place: nat)
    requires optind < |orig| && orig[optind].Option? && 0 < place <= orig[optind].more + 1
    ensures place > 1 ==>
              Remaining(orig, optind, place)
              == [Letter(orig[optind], place - 1, None)] + Remaining(orig, optind, place - 1)
    ensures place == 1 ==>
              var k := Consumed(orig[optind..]);
              Remaining(orig, optind, 1)
              == [Letter(orig[optind], 0, OptionArg(orig[optind..]))] + Remaining(orig, optind + k, 0)
  {
    TailStep(orig, optind, Consumed(orig[optind..]));
  }

  lemma {:induction false} LayoutAt(argv: seq<Arg>, orig: seq<Arg>, first: nat, b: Blocks, p: nat)
    requires Layout(argv, orig, first, b) && first + b.Size() <= p < |orig|
    ensures |argv| == |orig| && argv[p] == orig[p]
  {
    var front := orig[..first] + b.before + b.skipped + b.behind;
    assert |front| == first + b.Size();
    assert (front + orig[|front|..])[p] == orig[p];
  }
}
