// Carrying 4-byte AS numbers through 2-byte speakers (section 4.2.3 of RFC 6793):
// qsrx/bgpd/bgp_aspath.c:1469-1563, 1418-1451 and qsrx/bgpd/bgp_attr.c:1378-1387, 2540-2541, 2918-2939.
module As4 {
  import opened Util
  import opened SortedSet
  import opened AsPath
  import opened AsPathWire

  predicate ConfedFree(p: Path) {
    forall i :: 0 <= i < |p| ==> !p[i].kind.AsConfedSequence? && !p[i].kind.AsConfedSet?
  }

  // aspath_has_as4: whether the sender adds an AS4_PATH.
  predicate HasAs4(p: Path) {
    exists i, j :: 0 <= i < |p| && 0 <= j < |p[i].asns| && p[i].asns[j] > BGP_AS_MAX
  }

  // ---- reconciling

  // What the loop of aspath_reconcile_as4 copies of one segment, and the hops still to take then: of a
  // sequence only so many numbers, but never a part of a confederation sequence.
  function TakenOf(seg: Segment, hops: nat): (Segment, int) {
    var n := |seg.asns|;
    match seg.kind
    case AsSequence => (Segment(AsSequence, seg.asns[..Min(n, hops)]), hops - n)
    case AsConfedSequence => (seg, Max(hops, n) - n)
    case _ => (seg, hops - 1)
  }

  // What it copies from the head of AS_PATH.
  function Taken(p: Path, hops: int): Path {
    if p == [] || hops <= 0 then []
    else
      var (seg, left) := TakenOf(p[0], hops);
      [seg] + Taken(p[1..], left)
  }

  // How many hops to take: those AS_PATH has in excess, or all when it has fewer than AS4_PATH.
  function ToTake(a: Path, b: Path): nat {
    if Hops(a) + Confeds(a) >= Hops(b) then Hops(a) + Confeds(a) - Hops(b) else Hops(a)
  }

  // aspath_reconcile_as4.
  function Reconcile(a: Path, b: Path): Path {
    if ToTake(a, b) == 0 then b else Normalise(Taken(a, ToTake(a, b)) + b)
  }

  // The method merges in at least one segment, as aspath_merge needs.
  lemma TakesSomething(a: Path, b: Path)
    requires ToTake(a, b) > 0
    ensures Taken(a, ToTake(a, b)) != []
  {
  }

  // One turn of the loop.
  method TakeFrom(seg: Segment, hops: nat) returns (copy: Segment, left: int)
    ensures (copy, left) == TakenOf(seg, hops)
  {
    var cpasns;
    left := hops;
    match seg.kind {
      case AsSet => left, cpasns := left - 1, |seg.asns|;
      case AsConfedSet => left, cpasns := left - 1, |seg.asns|;
      case AsConfedSequence =>
        if left < |seg.asns| {
          left := |seg.asns|;
        }
        cpasns := Min(|seg.asns|, left);
        left := left - |seg.asns|;
      case AsSequence =>
        cpasns := Min(|seg.asns|, left);
        left := left - |seg.asns|;
    }
    assert cpasns <= |seg.asns|;
    assert seg.asns[..|seg.asns|] == seg.asns;
    copy := Segment(seg.kind, seg.asns[..cpasns]);
  }

  method CopyHops(a: Path, take: nat) returns (newpath: Path)
    ensures newpath == Taken(a, take)
  {
    var k, hops: int := 0, take;
    newpath := [];
    assert a[0..] == a && newpath + Taken(a, take) == Taken(a, take);
    while k < |a| && hops > 0
      invariant k <= |a|
      invariant newpath + Taken(a[k..], hops) == Taken(a, take)
    {
      var copy, left := TakeFrom(a[k], hops);
      assert a[k..][0] == a[k] && a[k..][1..] == a[k + 1..];
      Associative(newpath, [copy], Taken(a[k + 1..], left));
      newpath, hops := newpath + [copy], left;
      k := k + 1;
    }
    assert newpath + [] == newpath;
  }

  method ReconcileAs4(a: Path, b: Path) returns (merged: Path)
    ensures merged == Reconcile(a, b)
  {
    var hopsA, confedsA := Count(a);
    var hopsB, _ := Count(b);
    var all: int := hopsA + confedsA;
    var hops := all - hopsB;
    if hops < 0 {
      hops := hopsA;
    }
    if hops == 0 {
      return b;
    }
    var newpath := CopyHops(a, hops);
    merged := NormaliseSegments(newpath + b);
  }

  // ---- hop counts

  lemma {:induction false} TakenHops(p: Path, hops: nat)
    requires ConfedFree(p)
    ensures Hops(Taken(p, hops)) == Min(hops, Hops(p))
  {
    if p == [] || hops == 0 {
    } else {
      var n := |p[0].asns|;
      var left := if p[0].kind.AsSequence? then hops - n else hops - 1;
      assert Taken(p, hops)[1..] == Taken(p[1..], left);
      if left >= 0 {
        TakenHops(p[1..], left);
      }
    }
  }

  // ---- with confederations

  // Hops and confederation hops together.
  function Length(p: Path): nat {
    Hops(p) + Confeds(p)
  }

  lemma LengthConcat(p: Path, q: Path)
    ensures Length(p + q) == Length(p) + Length(q)
  {
    HopsConcat(p, q);
  }

  // A confederation sequence of the path begins before so many hops are taken and ends after.
  predicate Straddled(p: Path, hops: int) {
    p != [] && hops > 0
    && ((p[0].kind.AsConfedSequence? && hops < |p[0].asns|) || Straddled(p[1..], hops - Length([p[0]])))
  }

  lemma LengthOne(seg: Segment)
    ensures Length([seg])
         == match seg.kind case AsSequence => |seg.asns| case AsConfedSequence => |seg.asns| case _ => 1
  {
    var none: Path := [];
    assert [seg][1..] == none && Hops(none) == 0 && Confeds(none) == 0;
    assert Hops([seg]) == HopsIn(seg) && Confeds([seg]) == ConfedsIn(seg);
  }

  lemma LengthFirst(p: Path)
    requires p != []
    ensures Length(p) == Length([p[0]]) + Length(p[1..])
  {
    assert p == [p[0]] + p[1..];
    LengthConcat([p[0]], p[1..]);
  }

  // What is taken is the beginning of the path: whole segments, and perhaps a first part of the next, which is
  // a sequence then.
  ghost predicate Beginning(t: Path, p: Path, k: nat) {
    k <= |p|
    && (t == p[..k]
        || (k < |p| && p[k].kind.AsSequence?
            && exists m :: 0 < m < |p[k].asns| && t == p[..k] + [Segment(AsSequence, p[k].asns[..m])]))
  }

  lemma BeginningLonger(t: Path, p: Path, k: nat)
    requires p != [] && Beginning(t, p[1..], k)
    ensures Beginning([p[0]] + t, p, k + 1)
  {
    OneMore(p, k);
    if t != p[1..][..k] {
      var m :| 0 < m < |p[1..][k].asns| && t == p[1..][..k] + [Segment(AsSequence, p[1..][k].asns[..m])];
      assert p[1..][k] == p[k + 1];
      assert [p[0]] + t == p[..k + 1] + [Segment(AsSequence, p[k + 1].asns[..m])];
    }
  }

  lemma {:induction false} TakenIsBeginning(p: Path, hops: int) returns (k: nat)
    ensures Beginning(Taken(p, hops), p, k)
  {
    if p == [] || hops <= 0 {
      k := 0;
    } else {
      var (seg, left) := TakenOf(p[0], hops);
      if seg == p[0] {
        var n := TakenIsBeginning(p[1..], left);
        BeginningLonger(Taken(p[1..], left), p, n);
        k := n + 1;
      } else {
        assert left < 0 && Taken(p[1..], left) == [];
        assert Taken(p, hops) == p[..0] + [Segment(AsSequence, p[0].asns[..hops])];
        k := 0;
      }
    }
  }

  // When no confederation sequence straddles the boundary, exactly so many hops are taken.
  lemma {:induction false} TakenLength(p: Path, hops: nat)
    requires !Straddled(p, hops)
    ensures Length(Taken(p, hops)) == Min(hops, Length(p))
  {
    if p == [] || hops == 0 {
    } else {
      var (seg, left) := TakenOf(p[0], hops);
      LengthFirst(p);
      LengthOne(p[0]);
      LengthOne(seg);
      LengthConcat([seg], Taken(p[1..], left));
      if left > 0 {
        TakenLength(p[1..], left);
      }
    }
  }

  lemma OneMore(p: Path, n: nat)
    requires n + 1 <= |p|
    ensures p[..n + 1] == [p[0]] + p[1..][..n]
  {
  }

  // When one does, it is taken whole, with all before it and nothing behind it.
  lemma {:induction false} TakenStraddled(p: Path, hops: nat) returns (k: nat)
    requires Straddled(p, hops)
    ensures k < |p| && p[k].kind.AsConfedSequence? && Taken(p, hops) == p[..k + 1]
    ensures Length(p[..k]) < hops < Length(p[..k + 1])
  {
    LengthOne(p[0]);
    if p[0].kind.AsConfedSequence? && hops < |p[0].asns| {
      k := 0;
      assert p[..0] == [] && p[..1] == [p[0]] && Taken(p[1..], 0) == [];
    } else {
      var left := hops - Length([p[0]]);
      var n := TakenStraddled(p[1..], left);
      k := n + 1;
      assert p[0].asns[..|p[0].asns|] == p[0].asns;
      assert TakenOf(p[0], hops) == (p[0], left) && Taken(p, hops) == [p[0]] + Taken(p[1..], left);
      OneMore(p, n);
      OneMore(p, n + 1);
      LengthConcat([p[0]], p[1..][..n]);
      LengthConcat([p[0]], p[1..][..n + 1]);
    }
  }

  lemma {:induction false} NoConfeds(p: Path)
    requires ConfedFree(p)
    ensures Confeds(p) == 0
  {
    if p == [] {
    } else {
      NoConfeds(p[1..]);
    }
  }

  // The length of AS_PATH is kept exactly when it is at least that of AS4_PATH.
  lemma ReconcileKeepsHops(a: Path, b: Path)
    requires ConfedFree(a)
    ensures Hops(Reconcile(a, b)) == Hops(a) <==> Hops(a) >= Hops(b)
  {
    NoConfeds(a);
    if ToTake(a, b) > 0 {
      var taken := Taken(a, ToTake(a, b));
      TakenHops(a, ToTake(a, b));
      HopsConcat(taken, b);
      HopsKept(taken + b);
    }
  }

  lemma {:induction false} AllTaken(p: Path)
    requires ConfedFree(p) && NonEmpty(p)
    ensures Taken(p, Hops(p)) == p
  {
    if p == [] {
    } else {
      AllTaken(p[1..]);
      assert p[0].asns[..|p[0].asns|] == p[0].asns;
      assert Hops(p) == HopsIn(p[0]) + Hops(p[1..]) && TakenOf(p[0], Hops(p)) == (p[0], Hops(p[1..]));
      assert p == [p[0]] + p[1..];
    }
  }

  // An AS_PATH that is shorter than AS4_PATH is kept whole in front of it.
  lemma ShorterKeptWhole(a: Path, b: Path)
    requires ConfedFree(a) && NonEmpty(a) && a != [] && Hops(a) < Hops(b)
    ensures Reconcile(a, b) == Normalise(a + b)
  {
    NoConfeds(a);
    AllTaken(a);
  }

  // ---- tunnelling

  function Prepended(asns: seq<u32>, p: Path): Path {
    if asns == [] then p else [Segment(AsSequence, asns)] + p
  }

  // aspath_add_seq: one AS number more at the head.
  function AddSeq(p: Path, asn: u32): Path {
    if p == [] || p[0].asns == [] then [Segment(AsSequence, [asn])]
    else if p[0].kind.AsSequence? then [Segment(AsSequence, [asn] + p[0].asns)] + p[1..]
    else [Segment(AsSequence, [asn])] + p
  }

  // The speakers on the way add their numbers one after the other, the last of the list first.
  function AddAll(asns: seq<u32>, p: Path): Path {
    if asns == [] then p else AddSeq(AddAll(asns[1..], p), asns[0])
  }

  lemma {:induction false} AddAllAttaches(asns: seq<u32>, p: Path)
    requires NonEmpty(p) && asns != []
    ensures AddAll(asns, p) == Attach(Segment(AsSequence, asns), p)
  {
    if |asns| > 1 {
      AddAllAttaches(asns[1..], p);
      assert asns == [asns[0]] + asns[1..];
      if p != [] && p[0].kind.AsSequence? {
        Associative([asns[0]], asns[1..], p[0].asns);
      }
    } else {
      assert asns[1..] == [] && asns == [asns[0]];
    }
  }

  // Taking the hops that were added gives just those.
  lemma AddedTaken(asns: seq<u32>, p: Path)
    requires asns != []
    ensures Taken(Attach(Segment(AsSequence, asns), p), |asns|) == [Segment(AsSequence, asns)]
  {
    var a := Attach(Segment(AsSequence, asns), p);
    assert a[0].asns[..|asns|] == asns;
  }

  lemma {:induction false} ToldHops(p: Path, wide: bool)
    ensures Hops(ToldPath(p, wide)) == Hops(p) && Confeds(ToldPath(p, wide)) == Confeds(p)
  {
    if p == [] {
    } else {
      assert ToldPath(p, wide)[1..] == ToldPath(p[1..], wide);
      ToldHops(p[1..], wide);
    }
  }

  lemma {:induction false} ConfedsKept(p: Path)
    ensures Confeds(Normalise(p)) == Confeds(p)
  {
    if p == [] {
    } else {
      ConfedsKept(p[1..]);
      var seg, rest := Canonical(p[0]), Normalise(p[1..]);
      assert Attach(seg, rest)[1..]
          == if seg.kind.AsSequence? && rest != [] && rest[0].kind.AsSequence? then rest[1..] else rest;
    }
  }

  lemma AttachHops(asns: seq<u32>, p: Path)
    ensures Hops(Attach(Segment(AsSequence, asns), p)) == |asns| + Hops(p)
    ensures Confeds(Attach(Segment(AsSequence, asns), p)) == Confeds(p)
  {
    if p != [] && p[0].kind.AsSequence? {
      assert Attach(Segment(AsSequence, asns), p)[1..] == p[1..];
    } else {
      assert Attach(Segment(AsSequence, asns), p)[1..] == p;
    }
  }

  // What a 16-bit speaker holds of a path, after so many old speakers have added their numbers.
  function OldPath(p: Path, asns: seq<u32>): Path {
    AddAll(asns, Normalise(ToldPath(p, false)))
  }

  lemma {:induction false} NonEmptyKept(p: Path)
    requires NonEmpty(p)
    ensures NonEmpty(Normalise(p))
  {
    if p == [] {
    } else {
      NonEmptyKept(p[1..]);
      var x := p[0].asns[0];
      assert x in UniqSort(p[0].asns);
    }
  }

  lemma OldPathIs(p: Path, asns: seq<u32>)
    requires NonEmpty(p)
    ensures asns == [] ==> OldPath(p, asns) == Normalise(ToldPath(p, false))
    ensures asns != [] ==> OldPath(p, asns) == Attach(Segment(AsSequence, asns), Normalise(ToldPath(p, false)))
    ensures Hops(OldPath(p, asns)) == |asns| + Hops(p) && Confeds(OldPath(p, asns)) == Confeds(p)
  {
    var told := ToldPath(p, false);
    NonEmptyKept(told);
    ToldHops(p, false);
    HopsKept(told);
    ConfedsKept(told);
    if asns != [] {
      AddAllAttaches(asns, Normalise(told));
      AttachHops(asns, Normalise(told));
    }
  }

  // What the next 4-byte speaker ends up with: AS4_PATH comes along only if the sender saw a need.
  function Received(p: Path, asns: seq<u32>): Path {
    if HasAs4(p) then Reconcile(OldPath(p, asns), p) else OldPath(p, asns)
  }

  lemma ToldSame(p: Path)
    requires !HasAs4(p)
    ensures ToldPath(p, false) == p
  {
    forall i | 0 <= i < |p|
      ensures ToldPath(p, false)[i] == p[i]
    {
      forall j | 0 <= j < |p[i].asns|
        ensures ToldAll(p[i].asns, false)[j] == p[i].asns[j]
      {
        assert p[i].asns[j] <= BGP_AS_MAX;
      }
      assert ToldAll(p[i].asns, false) == p[i].asns;
    }
  }

  lemma ReconciledIs(p: Path, asns: seq<u32>)
    requires Normal(p) && NonEmpty(p) && ConfedFree(p)
    ensures Reconcile(OldPath(p, asns), p) == Normalise(Prepended(asns, p))
  {
    NormalFixed(p);
    NoConfeds(p);
    OldPathIs(p, asns);
    if asns != [] {
      AddedTaken(asns, Normalise(ToldPath(p, false)));
    }
  }

  lemma UntunnelledIs(p: Path, asns: seq<u32>)
    requires Normal(p) && NonEmpty(p) && !HasAs4(p)
    ensures OldPath(p, asns) == Normalise(Prepended(asns, p))
  {
    NormalFixed(p);
    ToldSame(p);
    OldPathIs(p, asns);
    if asns != [] {
      assert ([Segment(AsSequence, asns)] + p)[1..] == p;
    }
  }

  lemma PrependedMeaning(asns: seq<u32>, p: Path)
    ensures Meaning(Prepended(asns, p)) == HopsOf(asns) + Meaning(p)
  {
    if asns == [] {
      assert HopsOf(asns) + Meaning(p) == Meaning(p);
    } else {
      assert ([Segment(AsSequence, asns)] + p)[1..] == p;
    }
  }

  // Tunnelling: whichever numbers the 2-byte speakers added in front, the 4-byte speaker behind them
  // gets exactly those followed by the path that was sent.
  lemma Tunnel(p: Path, asns: seq<u32>)
    requires Normal(p) && NonEmpty(p) && ConfedFree(p)
    ensures Received(p, asns) == Normalise(Prepended(asns, p))
    ensures Meaning(Received(p, asns)) == HopsOf(asns) + Meaning(p)
  {
    if HasAs4(p) {
      ReconciledIs(p, asns);
    } else {
      UntunnelledIs(p, asns);
    }
    MeaningKept(Prepended(asns, p));
    PrependedMeaning(asns, p);
  }

  // The confederation the update has entered may have put a sequence of its own in front: it stays there whole,
  // and what follows is reconciled as without it. Only an empty one gets lost, if no numbers were added.
  lemma TunnelThroughConfed(p: Path, asns: seq<u32>, confed: Segment)
    requires Normal(p) && NonEmpty(p) && ConfedFree(p) && confed.kind.AsConfedSequence?
    ensures Reconcile([confed] + OldPath(p, asns), p) == Normalise([confed] + Prepended(asns, p))
            <==> confed.asns != [] || asns != []
  {
    var sent := OldPath(p, asns);
    var a := [confed] + sent;
    NoConfeds(p);
    OldPathIs(p, asns);
    LengthConcat([confed], sent);
    LengthOne(confed);
    assert a[1..] == sent && ToTake(a, p) == |confed.asns| + |asns|;
    if asns != [] {
      AddedTaken(asns, Normalise(ToldPath(p, false)));
      assert Taken(a, ToTake(a, p)) == [confed] + [Segment(AsSequence, asns)];
      Associative([confed], [Segment(AsSequence, asns)], p);
    } else if confed.asns != [] {
      assert Taken(a, ToTake(a, p)) == [confed] + [];
    } else {
      NormalFixed(p);
      assert ([confed] + p)[1..] == p && Normalise([confed] + p) == [confed] + p;
    }
  }

  // The same over the wire: both attributes are what the sender puts into its update, and the parsed
  // AS_PATH is what the first old speaker adds its number to.
  lemma TunnelOverWire(p: Path, asns: seq<u32>)
    requires Sendable(p) && Splittable(p) && ConfedFree(p)
    ensures var asPath, as4Path := Parse(Put(p, false).0, false), Parse(Put(p, true).0, true);
            && asPath.Some? && as4Path.Some?
            && (if HasAs4(p) then Reconcile(AddAll(asns, asPath.value), as4Path.value) else AddAll(asns, asPath.value))
               == Normalise(Prepended(asns, p))
  {
    WireRoundTrip(p, false);
    WireRoundTrip(p, true);
    Tunnel(p, asns);
  }
}
