/** The virtual hub's list of devices, its counters, and the report of bus relations built from
    them. */
module VirtualHub {
  /** A device object, by identity. */
  type DevObj = nat

  /** A device of the hub, as the report sees it. */
  datatype Child = Child(self: DevObj, plugged: bool)

  // ---------------------------------------------------------------------------
  // The report
  // ---------------------------------------------------------------------------

  /** The position of the first device with this object, or the length. */
  function Managed(cs: seq<Child>, o: DevObj): (i: nat)
    ensures i <= |cs|
    ensures forall j :: 0 <= j < i ==> cs[j].self != o
    ensures i < |cs| ==> cs[i].self == o
  {
    if cs == [] then 0
    else if cs[0].self == o then 0
    else 1 + Managed(cs[1..], o)
  }

  /** An object reported before stays unless it is a device that was unplugged. */
  predicate Stays(cs: seq<Child>, o: DevObj) {
    var i := Managed(cs, o);
    i == |cs| || cs[i].plugged
  }

  /** The first n old entries that stay, and those that do not. */
  function Kept(cs: seq<Child>, olds: seq<DevObj>, n: nat): (r: seq<DevObj>)
    requires n <= |olds|
    ensures |r| <= n
  {
    if n == 0 then []
    else Kept(cs, olds, n - 1) + if Stays(cs, olds[n - 1]) then [olds[n - 1]] else []
  }

  function Dropped(cs: seq<Child>, olds: seq<DevObj>, n: nat): (r: seq<DevObj>)
    requires n <= |olds|
  {
    if n == 0 then []
    else Dropped(cs, olds, n - 1) + if Stays(cs, olds[n - 1]) then [] else [olds[n - 1]]
  }

  /** What the first n devices add to the entries kept. */
  function Added(cs: seq<Child>, kept: seq<DevObj>, n: nat): (r: seq<DevObj>)
    requires n <= |cs|
    ensures |r| <= CountPlugged(cs, n)
  {
    if n == 0 then []
    else
      var r := Added(cs, kept, n - 1);
      var c := cs[n - 1];
      if c.self in kept + r || !c.plugged then r else r + [c.self]
  }

  function CountPlugged(cs: seq<Child>, n: nat): nat
    requires n <= |cs|
  {
    if n == 0 then 0 else CountPlugged(cs, n - 1) + if cs[n - 1].plugged then 1 else 0
  }

  function Report(cs: seq<Child>, olds: seq<DevObj>): (r: seq<DevObj>)
    ensures |r| <= |olds| + CountPlugged(cs, |cs|)
  {
    var kept := Kept(cs, olds, |olds|);
    kept + Added(cs, kept, |cs|)
  }

  predicate DistinctObjects(cs: seq<Child>) {
    forall i, j :: 0 <= i < j < |cs| ==> cs[i].self != cs[j].self
  }

  predicate IsPlugged(cs: seq<Child>, o: DevObj) {
    exists i :: 0 <= i < |cs| && cs[i].self == o && cs[i].plugged
  }

  predicate IsManaged(cs: seq<Child>, o: DevObj) {
    exists i :: 0 <= i < |cs| && cs[i].self == o
  }

  predicate NoDuplicates(os: seq<DevObj>) {
    forall i, j :: 0 <= i < j < |os| ==> os[i] != os[j]
  }

  lemma {:induction false} StaysIff(cs: seq<Child>, o: DevObj)
    requires DistinctObjects(cs)
    ensures Stays(cs, o) <==> !IsManaged(cs, o) || IsPlugged(cs, o)
  {
    var i := Managed(cs, o);
    if j :| 0 <= j < |cs| && cs[j].self == o {
      assert j == i;
    }
  }

  lemma {:induction false} KeptContents(cs: seq<Child>, olds: seq<DevObj>, n: nat, o: DevObj)
    requires n <= |olds| && DistinctObjects(cs)
    ensures o in Kept(cs, olds, n) <==> o in olds[..n] && (!IsManaged(cs, o) || IsPlugged(cs, o))
  {
    hide IsManaged, IsPlugged, DistinctObjects;
    if n > 0 {
      KeptContents(cs, olds, n - 1, o);
      StaysIff(cs, o);
      assert olds[..n] == olds[..n - 1] + [olds[n - 1]];
    }
  }

  lemma {:induction false} AddedContents(cs: seq<Child>, kept: seq<DevObj>, n: nat, o: DevObj)
    requires n <= |cs|
    ensures o in kept + Added(cs, kept, n) <==> o in kept || IsPlugged(cs[..n], o)
  {
    if n > 0 {
      AddedContents(cs, kept, n - 1, o);
      assert cs[..n][n - 1] == cs[n - 1];
      assert forall i :: 0 <= i < n - 1 ==> cs[..n][i] == cs[..n - 1][i];
      var r := Added(cs, kept, n - 1);
      assert forall x :: x in kept + r || x in kept + (r + [cs[n - 1].self]) ==>
                           x in kept || x in r || x == cs[n - 1].self;
      if o == cs[n - 1].self && cs[n - 1].plugged {
        assert IsPlugged(cs[..n], o);
      }
    }
  }

  /** The report holds exactly the plugged devices and the old entries the hub does not
      manage. */
  lemma {:induction false} ReportContents(cs: seq<Child>, olds: seq<DevObj>, o: DevObj)
    requires DistinctObjects(cs)
    ensures o in Report(cs, olds) <==> IsPlugged(cs, o) || (o in olds && !IsManaged(cs, o))
  {
    var kept := Kept(cs, olds, |olds|);
    KeptContents(cs, olds, |olds|, o);
    assert olds[..|olds|] == olds && cs[..|cs|] == cs;
    AddedContents(cs, kept, |cs|, o);
  }

  lemma {:induction false} KeptDistinct(cs: seq<Child>, olds: seq<DevObj>, n: nat)
    requires n <= |olds| && NoDuplicates(olds)
    ensures NoDuplicates(Kept(cs, olds, n)) && forall o :: o in Kept(cs, olds, n) ==> o in olds[..n]
  {
    if n > 0 {
      KeptDistinct(cs, olds, n - 1);
      assert olds[..n] == olds[..n - 1] + [olds[n - 1]];
      assert olds[n - 1] !in olds[..n - 1];
    }
  }

  lemma {:induction false} AddedDistinct(cs: seq<Child>, kept: seq<DevObj>, n: nat)
    requires n <= |cs| && NoDuplicates(kept)
    ensures NoDuplicates(kept + Added(cs, kept, n))
  {
    if n > 0 {
      AddedDistinct(cs, kept, n - 1);
      var r := Added(cs, kept, n - 1);
      assert kept + (r + [cs[n - 1].self]) == (kept + r) + [cs[n - 1].self];
    } else {
      assert kept + [] == kept;
    }
  }

  /** No device is reported twice. */
  lemma {:induction false} ReportDistinct(cs: seq<Child>, olds: seq<DevObj>)
    requires NoDuplicates(olds)
    ensures NoDuplicates(Report(cs, olds))
  {
    KeptDistinct(cs, olds, |olds|);
    AddedDistinct(cs, Kept(cs, olds, |olds|), |cs|);
  }

  /** Every old entry is either kept or dropped. */
  lemma {:induction false} KeptAndDropped(cs: seq<Child>, olds: seq<DevObj>, n: nat)
    requires n <= |olds|
    ensures multiset(Kept(cs, olds, n)) + multiset(Dropped(cs, olds, n)) == multiset(olds[..n])
  {
    hide Kept, Dropped, Stays;
    if n == 0 {
      KeptNone(cs, olds);
    } else {
      KeptAndDropped(cs, olds, n - 1);
      KeptDroppedStep(cs, olds, n);
      BagStep(Kept(cs, olds, n - 1), Dropped(cs, olds, n - 1), olds[..n - 1], olds[n - 1]);
      assert olds[..n] == olds[..n - 1] + [olds[n - 1]];
    }
  }

  lemma {:induction false} KeptNone(cs: seq<Child>, olds: seq<DevObj>)
    ensures Kept(cs, olds, 0) == Dropped(cs, olds, 0) == [] == olds[..0]
  {
  }

  lemma {:induction false} BagStep(k: seq<DevObj>, d: seq<DevObj>, os: seq<DevObj>, o: DevObj)
    requires multiset(k) + multiset(d) == multiset(os)
    ensures multiset(k + [o]) + multiset(d) == multiset(os + [o])
    ensures multiset(k) + multiset(d + [o]) == multiset(os + [o])
  {
    var a, b, c := multiset(k), multiset(d), multiset(os);
    assert multiset(k + [o]) == a + multiset{o} && multiset(d + [o]) == b + multiset{o};
    assert multiset(os + [o]) == c + multiset{o};
    assert a + multiset{o} + b == a + b + multiset{o};
    assert a + (b + multiset{o}) == a + b + multiset{o};
  }

  lemma {:induction false} KeptDroppedStep(cs: seq<Child>, olds: seq<DevObj>, n: nat)
    requires 0 < n <= |olds|
    ensures var o, k, d := olds[n - 1], Kept(cs, olds, n - 1), Dropped(cs, olds, n - 1);
      if Stays(cs, o) then Kept(cs, olds, n) == k + [o] && Dropped(cs, olds, n) == d
      else Kept(cs, olds, n) == k && Dropped(cs, olds, n) == d + [o]
  {
  }

  /** The references held by the old report, less those released, plus those taken, are those
      the new report holds. */
  lemma {:induction false} ReferencesBalance(cs: seq<Child>, olds: seq<DevObj>)
    ensures var kept := Kept(cs, olds, |olds|);
      multiset(olds) + multiset(Added(cs, kept, |cs|))
      == multiset(Report(cs, olds)) + multiset(Dropped(cs, olds, |olds|))
  {
    KeptAndDropped(cs, olds, |olds|);
    assert olds[..|olds|] == olds;
  }

  // ---------------------------------------------------------------------------
  // The hub
  // ---------------------------------------------------------------------------

  class Vpdo {
    const self: DevObj
    const port: nat
    var plugged: bool

    constructor (o: DevObj, p: nat)
      ensures self == o && port == p && plugged
    {
      self, port, plugged := o, p, true;
    }
  }

  /** A value stored in a signed 8-bit variable. */
  function Char(v: nat): (c: int)
    ensures -128 <= c < 128 && (c - v) % 256 == 0
  {
    if v % 256 < 128 then v % 256 else v % 256 - 256
  }

  ghost function PluggedOf(vs: set<Vpdo>): set<Vpdo>
    reads vs
  {
    set v | v in vs && v.plugged
  }

  ghost predicate Distinct(vs: seq<Vpdo>) {
    forall i, j :: 0 <= i < j < |vs| ==> vs[i] != vs[j]
  }

  function Children(vs: seq<Vpdo>): (cs: seq<Child>)
    reads vs
    ensures |cs| == |vs|
    ensures forall i :: 0 <= i < |vs| ==> cs[i] == Child(vs[i].self, vs[i].plugged)
  {
    seq(|vs|, i requires 0 <= i < |vs| reads vs => Child(vs[i].self, vs[i].plugged))
  }

  function Elements(vs: seq<Vpdo>, n: nat): set<Vpdo>
    requires n <= |vs|
  {
    set i | 0 <= i < n :: vs[i]
  }

  /** Counting plugged devices along the list is counting the set of them. */
  lemma {:induction false} CountIsCard(vs: seq<Vpdo>, n: nat)
    requires n <= |vs| && Distinct(vs)
    ensures CountPlugged(Children(vs), n) == |PluggedOf(Elements(vs, n))|
  {
    if n == 0 {
      assert PluggedOf(Elements(vs, 0)) == {};
    } else {
      CountIsCard(vs, n - 1);
      var p := PluggedOf(Elements(vs, n - 1));
      assert vs[n - 1] !in p;
      assert PluggedOf(Elements(vs, n)) == if vs[n - 1].plugged then p + {vs[n - 1]} else p;
    }
  }

  lemma {:induction false} OneMorePlugged(vs: set<Vpdo>, v: Vpdo)
    requires v !in vs
    ensures |PluggedOf(vs + {v})| == |PluggedOf(vs)| + if v.plugged then 1 else 0
  {
    assert PluggedOf(vs + {v}) == PluggedOf(vs) + if v.plugged then {v} else {};
  }

  lemma {:induction false} CardOfSubset<T>(a: set<T>, b: set<T>)
    requires a <= b
    ensures |a| <= |b|
  {
    assert b == a + (b - a);
  }

  class Vhub {
    var headVpdo: seq<Vpdo>
    var nMaxPorts: nat
    var nVpdos: nat
    var nVpdosPlugged: nat
    /** Every device ever attached. */
    ghost var ever: set<Vpdo>

    constructor (ports: nat)
      ensures Valid() && headVpdo == [] && ever == {} && nMaxPorts == ports
    {
      headVpdo, nMaxPorts, nVpdos, nVpdosPlugged, ever := [], ports, 0, 0, {};
      new;
      assert PluggedOf(ever) == {};
    }

    /** The plugged counter counts the plugged devices ever attached, detached or not. */
    ghost predicate Valid()
      reads this, ever
    {
      && Distinct(headVpdo) && (forall v :: v in headVpdo ==> v in ever)
      && nVpdos == |headVpdo|
      && nVpdosPlugged == |PluggedOf(ever)|
    }

    /** So it is at least the number of plugged devices in the list. */
    lemma {:induction false} CounterCoversList()
      requires Valid()
      ensures CountPlugged(Children(headVpdo), |headVpdo|) <= nVpdosPlugged
    {
      CountIsCard(headVpdo, |headVpdo|);
      CardOfSubset(PluggedOf(Elements(headVpdo, |headVpdo|)), PluggedOf(ever));
    }

    /** With a gap of exactly the devices that were detached while plugged. */
    lemma {:induction false} CounterGap()
      requires Valid()
      ensures nVpdosPlugged - CountPlugged(Children(headVpdo), |headVpdo|)
           == |set v | v in ever && v.plugged && v !in headVpdo|
    {
      CountIsCard(headVpdo, |headVpdo|);
      var here := PluggedOf(Elements(headVpdo, |headVpdo|));
      var gone := set v | v in ever && v.plugged && v !in headVpdo;
      assert PluggedOf(ever) == here + gone && here !! gone;
    }

    /** Some device of the list has the port. */
    ghost predicate Taken(p: int)
      reads this`headVpdo
    {
      exists v :: v in headVpdo && v.port == p
    }

    method FindVpdo(port: nat) returns (r: Vpdo?)
      ensures r != null <==> Taken(port)
      ensures r != null ==> r in headVpdo && r.port == port
    {
      for i := 0 to |headVpdo|
        invariant forall j :: 0 <= j < i ==> headVpdo[j].port != port
      {
        if headVpdo[i].port == port {
          return headVpdo[i];
        }
      }
      return null;
    }

    /** The least free port below the number of ports, which is cut to a signed byte; -1 if
        there is none. */
    method GetEmptyPort() returns (r: int)
      ensures r == -1 <==> forall p :: 0 <= p < Char(nMaxPorts) ==> Taken(p)
      ensures r != -1 ==> 0 <= r < Char(nMaxPorts) && !Taken(r)
      ensures forall p :: 0 <= p < r ==> Taken(p)
    {
      var i := 0;
      while i < Char(nMaxPorts)
        invariant 0 <= i && (i <= Char(nMaxPorts) || i == 0)
        invariant forall p :: 0 <= p < i ==> Taken(p)
        decreases Char(nMaxPorts) - i
      {
        var v := FindVpdo(i);
        if v == null {
          return i;
        }
        i := i + 1;
      }
      return -1;
    }

    method AttachVpdo(vpdo: Vpdo)
      requires Valid() && vpdo !in ever
      modifies this`headVpdo, this`nVpdos, this`nVpdosPlugged, this`ever
      ensures Valid() && headVpdo == old(headVpdo) + [vpdo] && ever == old(ever) + {vpdo}
    {
      headVpdo := headVpdo + [vpdo];
      nVpdos := nVpdos + 1;
      if vpdo.plugged {
        nVpdosPlugged := nVpdosPlugged + 1;
      }
      OneMorePlugged(ever, vpdo);
      ever := ever + {vpdo};
    }

    /** The device at position i leaves the list; the plugged counter does not change. */
    method DetachVpdo(i: nat)
      requires Valid() && i < |headVpdo|
      modifies this`headVpdo, this`nVpdos
      ensures Valid() && headVpdo == old(headVpdo)[..i] + old(headVpdo)[i + 1..]
    {
      headVpdo := headVpdo[..i] + headVpdo[i + 1..];
      assert nVpdos > 0;
      nVpdos := nVpdos - 1;
    }

    method MarkUnpluggedVpdo(vpdo: Vpdo)
      requires Valid() && vpdo in ever
      modifies this`nVpdosPlugged, vpdo`plugged
      ensures Valid() && !vpdo.plugged
      ensures nVpdosPlugged == old(nVpdosPlugged) - if old(vpdo.plugged) then 1 else 0
    {
      if vpdo.plugged {
        ghost var was := PluggedOf(ever);
        assert vpdo in was;
        vpdo.plugged := false;
        nVpdosPlugged := nVpdosPlugged - 1;
        assert PluggedOf(ever) == was - {vpdo};
      }
    }

    method MarkUnpluggedAllVpdos()
      requires Valid()
      modifies this`nVpdosPlugged, headVpdo`plugged
      ensures Valid()
      ensures forall v :: v in headVpdo ==> !v.plugged
      ensures forall v :: v in ever && v !in headVpdo ==> v.plugged == old(v.plugged)
    {
      for i := 0 to |headVpdo|
        invariant Valid()
        invariant forall j :: 0 <= j < i ==> !headVpdo[j].plugged
        invariant forall v :: v in ever && v !in headVpdo ==> v.plugged == old(v.plugged)
      {
        MarkUnpluggedVpdo(headVpdo[i]);
      }
    }

    method FindManagedVpdo(o: DevObj) returns (r: Vpdo?)
      ensures var i := Managed(Children(headVpdo), o);
        r == if i < |headVpdo| then headVpdo[i] else null
    {
      ghost var cs := Children(headVpdo);
      for i := 0 to |headVpdo|
        invariant forall j :: 0 <= j < i ==> cs[j].self != o
      {
        if headVpdo[i].self == o {
          assert cs[i].self == o;
          return headVpdo[i];
        }
      }
      return null;
    }

    static method IsInDevRelations(devobjs: array<DevObj>, nCounts: nat, o: DevObj) returns (found: bool)
      requires nCounts <= devobjs.Length
      ensures found <==> o in devobjs[..nCounts]
    {
      for i := 0 to nCounts
        invariant o !in devobjs[..i]
      {
        if devobjs[i] == o {
          return true;
        }
      }
      return false;
    }

    /** The first part of the report: old entries that stay. The others are released. */
    method KeepOlds(relations: array<DevObj>, olds: seq<DevObj>) returns (nNews: nat, dereferenced: seq<DevObj>)
      requires |olds| <= relations.Length
      modifies relations
      ensures nNews <= |olds| && relations[..nNews] == Kept(Children(headVpdo), olds, |olds|)
      ensures dereferenced == Dropped(Children(headVpdo), olds, |olds|)
    {
      ghost var cs := Children(headVpdo);
      nNews, dereferenced := 0, [];
      for i := 0 to |olds|
        invariant nNews <= i && relations[..nNews] == Kept(cs, olds, i) && dereferenced == Dropped(cs, olds, i)
      {
        var vpdo := FindManagedVpdo(olds[i]);
        if vpdo == null || vpdo.plugged {
          relations[nNews] := olds[i];
          nNews := nNews + 1;
        } else {
          dereferenced := dereferenced + [olds[i]];
        }
      }
    }

    /** The second part: plugged devices not yet in the report, behind its first nOlds entries. */
    method AddNews(relations: array<DevObj>, nOlds: nat) returns (nNews: nat, referenced: seq<DevObj>)
      requires nOlds + CountPlugged(Children(headVpdo), |headVpdo|) <= relations.Length
      modifies relations
      ensures nNews <= relations.Length
      ensures referenced == Added(Children(headVpdo), old(relations[..nOlds]), |headVpdo|)
      ensures relations[..nNews] == old(relations[..nOlds]) + referenced
    {
      ghost var cs, kept := Children(headVpdo), relations[..nOlds];
      nNews, referenced := nOlds, [];
      for i := 0 to |headVpdo|
        invariant nNews == nOlds + |referenced| <= relations.Length
        invariant referenced == Added(cs, kept, i) && relations[..nNews] == kept + referenced
      {
        CountGrows(cs, i + 1);
        var known := IsInDevRelations(relations, nNews, headVpdo[i].self);
        if known {
          continue;
        }
        if headVpdo[i].plugged {
          relations[nNews] := headVpdo[i].self;
          nNews := nNews + 1;
          referenced := referenced + [headVpdo[i].self];
        }
      }
    }

    /** Builds the report in an array of as many entries as the old report had and the plugged
        counter allows; returns the references released and taken with it. */
    method GetBusRelations(olds: seq<DevObj>)
      returns (relations: array<DevObj>, count: nat, dereferenced: seq<DevObj>, referenced: seq<DevObj>)
      requires Valid()
      ensures fresh(relations) && relations.Length == nVpdosPlugged + |olds| && count <= relations.Length
      ensures relations[..count] == Report(Children(headVpdo), olds)
      ensures dereferenced == Dropped(Children(headVpdo), olds, |olds|)
      ensures referenced == Added(Children(headVpdo), Kept(Children(headVpdo), olds, |olds|), |headVpdo|)
    {
      hide Kept, Dropped, Added, CountPlugged, Children;
      CounterCoversList();
      relations := new DevObj[nVpdosPlugged + |olds|];
      count, dereferenced := KeepOlds(relations, olds);
      count, referenced := AddNews(relations, count);
    }
  }

  lemma {:induction false} CountGrows(cs: seq<Child>, n: nat)
    requires n <= |cs|
    ensures CountPlugged(cs, n) <= CountPlugged(cs, |cs|)
    decreases |cs| - n
  {
    if n < |cs| {
      CountGrows(cs, n + 1);
    }
  }
}
