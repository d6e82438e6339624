// AS paths in memory and their canonical form (qsrx/bgpd/bgp_aspath.c:227-314, 379-433, 1895-1917).
module AsPath {
  import opened Util
  import opened SortedSet

  // The numbers on the wire are 1 to 4, in this order.
  datatype Kind = AsSet | AsSequence | AsConfedSequence | AsConfedSet

  datatype Segment = Segment(kind: Kind, asns: seq<u32>)

  // The list of segments; no limit is placed on their lengths in memory.
  type Path = seq<Segment>

  predicate IsSet(kind: Kind) {
    kind.AsSet? || kind.AsConfedSet?
  }

  // ---- what a path says

  // A hop of a sequence, the members of a set, or a confederation sequence as a whole.
  datatype Item = Hop(asn: u32) | Group(kind: Kind, members: set<u32>) | Confed(asns: seq<u32>)

  function HopsOf(asns: seq<u32>): seq<Item> {
    seq(|asns|, i requires 0 <= i < |asns| => Hop(asns[i]))
  }

  ghost function Members(s: seq<u32>): set<u32> {
    set x | x in s
  }

  ghost function ItemsOf(seg: Segment): seq<Item> {
    match seg.kind
    case AsSequence => HopsOf(seg.asns)
    case AsConfedSequence => [Confed(seg.asns)]
    case _ => [Group(seg.kind, Members(seg.asns))]
  }

  ghost function Meaning(p: Path): seq<Item> {
    if p == [] then [] else ItemsOf(p[0]) + Meaning(p[1..])
  }

  // ---- the canonical form

  function Canonical(seg: Segment): Segment {
    if IsSet(seg.kind) then seg.(asns := UniqSort(seg.asns)) else seg
  }

  // Putting a segment in front of a path whose segments are merged already.
  function Attach(seg: Segment, p: Path): Path {
    if seg.kind.AsSequence? && p != [] && p[0].kind.AsSequence?
    then [Segment(AsSequence, seg.asns + p[0].asns)] + p[1..]
    else [seg] + p
  }

  // assegment_normalise: sets sorted without duplicates, runs of AS_SEQUENCEs merged.
  function Normalise(p: Path): Path {
    if p == [] then [] else Attach(Canonical(p[0]), Normalise(p[1..]))
  }

  ghost predicate Normal(p: Path) {
    && (forall i :: 0 <= i < |p| && IsSet(p[i].kind) ==> Strict(p[i].asns))
    && (forall i, j :: 0 <= i && j == i + 1 < |p| ==> !(p[i].kind.AsSequence? && p[j].kind.AsSequence?))
  }

  // The parser refuses segments without AS numbers.
  ghost predicate NoEmptySequence(p: Path) {
    forall i :: 0 <= i < |p| && p[i].kind.AsSequence? ==> p[i].asns != []
  }

  lemma AttachNormal(seg: Segment, p: Path)
    requires Normal(p) && (IsSet(seg.kind) ==> Strict(seg.asns))
    ensures Normal(Attach(seg, p)) && Attach(seg, p) != []
    ensures Attach(seg, p)[0].kind == seg.kind
    ensures NoEmptySequence(p) && (seg.kind.AsSequence? ==> seg.asns != []) ==> NoEmptySequence(Attach(seg, p))
  {
  }

  lemma {:induction false} NormaliseNormal(p: Path)
    ensures Normal(Normalise(p)) && (NoEmptySequence(p) ==> NoEmptySequence(Normalise(p)))
    ensures p != [] ==> Normalise(p) != [] && Normalise(p)[0].kind == p[0].kind
  {
    if p == [] {
    } else {
      NormaliseNormal(p[1..]);
      AttachNormal(Canonical(p[0]), Normalise(p[1..]));
    }
  }

  // A normal path is left as it is; so normalising twice is normalising once.
  lemma {:induction false} NormalFixed(p: Path)
    requires Normal(p)
    ensures Normalise(p) == p
  {
    if p == [] {
    } else {
      NormalFixed(p[1..]);
      UniqSortDecides(p[0].asns, p[0].asns);
      assert p == [p[0]] + p[1..];
    }
  }

  lemma NormaliseIdempotent(p: Path)
    ensures Normalise(Normalise(p)) == Normalise(p)
  {
    NormaliseNormal(p);
    NormalFixed(Normalise(p));
  }

  lemma AttachMeaning(seg: Segment, p: Path)
    ensures Meaning(Attach(seg, p)) == ItemsOf(seg) + Meaning(p)
  {
    if seg.kind.AsSequence? && p != [] && p[0].kind.AsSequence? {
      assert HopsOf(seg.asns + p[0].asns) == HopsOf(seg.asns) + HopsOf(p[0].asns);
      assert Attach(seg, p)[1..] == p[1..];
    } else {
      assert Attach(seg, p)[1..] == p;
    }
  }

  lemma CanonicalMeaning(seg: Segment)
    ensures ItemsOf(Canonical(seg)) == ItemsOf(seg)
  {
    assert Members(UniqSort(seg.asns)) == Members(seg.asns);
  }

  // Normalising changes nothing of what a path says.
  lemma {:induction false} MeaningKept(p: Path)
    ensures Meaning(Normalise(p)) == Meaning(p)
  {
    if p == [] {
    } else {
      MeaningKept(p[1..]);
      CanonicalMeaning(p[0]);
      AttachMeaning(Canonical(p[0]), Normalise(p[1..]));
    }
  }

  // What follows a sequence in a normal path does not start with a hop.
  lemma AfterSequence(p: Path)
    requires Normal(p) && p != [] && p[0].kind.AsSequence?
    ensures Meaning(p[1..]) == [] || !Meaning(p[1..])[0].Hop?
  {
    if |p| > 1 {
      assert p[1..][0] == p[1];
    }
  }

  lemma ItemAt(s: seq<u32>, rest: seq<Item>, k: nat)
    requires k < |s| + |rest|
    ensures (HopsOf(s) + rest)[k] == if k < |s| then Hop(s[k]) else rest[k - |s|]
  {
  }

  // The hops at the head of a list of items decide where they end.
  lemma SameHops(s: seq<u32>, rest: seq<Item>, t: seq<u32>, rest': seq<Item>)
    requires HopsOf(s) + rest == HopsOf(t) + rest'
    requires rest == [] || !rest[0].Hop?
    requires rest' == [] || !rest'[0].Hop?
    ensures s == t && rest == rest'
  {
    var all := HopsOf(s) + rest;
    assert |all| == |s| + |rest| == |t| + |rest'|;
    if Min(|s|, |t|) < |all| {
      ItemAt(s, rest, Min(|s|, |t|));
      ItemAt(t, rest', Min(|s|, |t|));
    }
    assert |s| == |t|;
    forall i | 0 <= i < |s|
      ensures s[i] == t[i]
    {
      ItemAt(s, rest, i);
      ItemAt(t, rest', i);
    }
    assert rest == all[|s|..] == rest';
  }

  // Two normal paths that say the same are the same.
  lemma {:induction false} NormalUnique(p: Path, q: Path)
    requires Normal(p) && Normal(q) && NoEmptySequence(p) && NoEmptySequence(q) && Meaning(p) == Meaning(q)
    ensures p == q
  {
    if p == [] || q == [] {
      SaysSomething(p);
      SaysSomething(q);
    } else {
      SaysSomething(p);
      SaysSomething(q);
      SameFirst(p, q);
      NormalUnique(p[1..], q[1..]);
      assert p == [p[0]] + p[1..] && q == [q[0]] + q[1..];
    }
  }

  lemma SaysSomething(p: Path)
    requires NoEmptySequence(p)
    ensures p != [] ==> Meaning(p) != [] && (Meaning(p)[0].Hop? <==> p[0].kind.AsSequence?)
  {
  }

  // Anything but a sequence is a single item.
  lemma FirstApart(p: Path)
    requires p != [] && !p[0].kind.AsSequence?
    ensures Meaning(p) != [] && ItemsOf(p[0]) == [Meaning(p)[0]] && Meaning(p)[1..] == Meaning(p[1..])
  {
  }

  lemma {:induction false} SameFirst(p: Path, q: Path)
    requires Normal(p) && Normal(q) && p != [] && q != []
    requires p[0].kind.AsSequence? <==> q[0].kind.AsSequence?
    requires Meaning(p) == Meaning(q)
    ensures p[0] == q[0] && Meaning(p[1..]) == Meaning(q[1..])
  {
    if p[0].kind.AsSequence? {
      AfterSequence(p);
      AfterSequence(q);
      SameHops(p[0].asns, Meaning(p[1..]), q[0].asns, Meaning(q[1..]));
    } else {
      FirstApart(p);
      FirstApart(q);
      if IsSet(p[0].kind) {
        SameMembers(p[0].asns, q[0].asns);
      }
    }
  }

  lemma SameMembers(s: seq<u32>, t: seq<u32>)
    requires Strict(s) && Strict(t) && Members(s) == Members(t)
    ensures s == t
  {
    forall x: u32
      ensures x in s <==> x in t
    {
      assert x in s <==> x in Members(s);
      assert x in t <==> x in Members(t);
    }
    StrictUnique(s, t);
  }

  // The canonical form: two paths have the same one exactly when they say the same, so comparing
  // segment by segment decides whether they do.
  lemma CanonicalForm(p: Path, q: Path)
    requires NoEmptySequence(p) && NoEmptySequence(q)
    ensures Normalise(p) == Normalise(q) <==> Meaning(p) == Meaning(q)
  {
    MeaningKept(p);
    MeaningKept(q);
    NormaliseNormal(p);
    NormaliseNormal(q);
    if Meaning(p) == Meaning(q) {
      NormalUnique(Normalise(p), Normalise(q));
    }
  }

  // With empty sequences that fails: they say nothing but are kept.
  lemma EmptySequenceKept()
    ensures Meaning([Segment(AsSequence, [])]) == Meaning([])
    ensures Normalise([Segment(AsSequence, [])]) != Normalise([])
  {
  }

  // ---- the loops

  // The members of a set, sorted and weeded out in place.
  method SortMembers(a: array<u32>) returns (n: nat)
    modifies a
    ensures n <= a.Length && a[..n] == UniqSort(old(a[..]))
  {
    ghost var was := a[..];
    assert a[..a.Length] == was;
    QSort(a, a.Length);
    SortSorts(was);
    n := WeedOut(a, a.Length);
    forall x
      ensures x in Sort(was) <==> x in was
    {
      assert x in was <==> x in multiset(was);
      assert x in Sort(was) <==> x in multiset(Sort(was));
    }
    StrictUnique(a[..n], UniqSort(was));
  }

  method SortSegment(seg: Segment) returns (r: Segment)
    requires IsSet(seg.kind)
    ensures r == Canonical(seg)
  {
    var a := new u32[|seg.asns|](i requires 0 <= i < |seg.asns| => seg.asns[i]);
    assert a[..] == seg.asns;
    var n := SortMembers(a);
    r := Segment(seg.kind, a[..n]);
  }

  lemma MergeFirst(s: seq<u32>, t: seq<u32>, rest: Path)
    ensures Normalise([Segment(AsSequence, s), Segment(AsSequence, t)] + rest)
         == Normalise([Segment(AsSequence, s + t)] + rest)
  {
    var p := [Segment(AsSequence, s), Segment(AsSequence, t)] + rest;
    var q := [Segment(AsSequence, s + t)] + rest;
    assert p[1..] == [Segment(AsSequence, t)] + rest && p[1..][1..] == rest && q[1..] == rest;
    var r := Normalise(rest);
    if r != [] && r[0].kind.AsSequence? {
      assert s + (t + r[0].asns) == (s + t) + r[0].asns;
    }
  }

  // A first segment that is canonical and not followed by anything it merges with is done.
  lemma FirstDone(p: Path)
    requires p != [] && Canonical(p[0]) == p[0]
    requires |p| > 1 ==> !(p[0].kind.AsSequence? && p[1].kind.AsSequence?)
    ensures Normalise(p) == [p[0]] + Normalise(p[1..])
  {
    NormaliseNormal(p[1..]);
  }

  lemma CanonicalFirst(p: Path)
    requires p != []
    ensures Canonical(Canonical(p[0])) == Canonical(p[0])
    ensures Normalise([Canonical(p[0])] + p[1..]) == Normalise(p)
  {
    UniqSortDecides(UniqSort(p[0].asns), p[0].asns);
    assert ([Canonical(p[0])] + p[1..])[1..] == p[1..];
  }

  // assegment_normalise on the list of segments.
  method NormaliseSegments(head: Path) returns (p: Path)
    ensures p == Normalise(head)
  {
    p := head;
    var pin := 0;
    while pin < |p|
      invariant 0 <= pin <= |p|
      invariant Normalise(head) == p[..pin] + Normalise(p[pin..])
      decreases |p| - pin
    {
      ghost var done := p[..pin];
      p := PinSegment(p, pin);
      assert p[..pin + 1] == done + [p[pin]];
      Associative(done, [p[pin]], Normalise(p[pin + 1..]));
      pin := pin + 1;
    }
    assert p[..pin] == p;
  }

  // One turn of the loop: the pinned segment is sorted if it is a set and takes in what follows.
  method PinSegment(segments: Path, pin: nat) returns (p: Path)
    requires pin < |segments|
    ensures pin < |p| <= |segments| && p[..pin] == segments[..pin]
    ensures Normalise(segments[pin..]) == [p[pin]] + Normalise(p[pin + 1..])
  {
    var seg := segments[pin];
    if IsSet(seg.kind) {
      seg := SortSegment(seg);
    }
    p := segments[..pin] + [seg] + segments[pin + 1..];
    CanonicalFirst(segments[pin..]);
    assert p[pin..] == [seg] + segments[pin..][1..];
    p := MergeFollowing(p, pin);
    FirstDone(p[pin..]);
    assert p[pin..][1..] == p[pin + 1..];
  }

  // Appending all following packable segments to the pinned one.
  method MergeFollowing(segments: Path, pin: nat) returns (p: Path)
    requires pin < |segments| && Canonical(segments[pin]) == segments[pin]
    ensures pin < |p| <= |segments| && p[..pin] == segments[..pin] && Canonical(p[pin]) == p[pin]
    ensures Normalise(p[pin..]) == Normalise(segments[pin..])
    ensures |p| > pin + 1 ==> !(p[pin].kind.AsSequence? && p[pin + 1].kind.AsSequence?)
  {
    p := segments;
    while pin + 1 < |p| && p[pin].kind.AsSequence? && p[pin + 1].kind.AsSequence?
      invariant pin < |p| <= |segments| && p[..pin] == segments[..pin] && Canonical(p[pin]) == p[pin]
      invariant Normalise(p[pin..]) == Normalise(segments[pin..])
    {
      MergeFirst(p[pin].asns, p[pin + 1].asns, p[pin + 2..]);
      assert p[pin..] == [p[pin], p[pin + 1]] + p[pin + 2..];
      ghost var was := p;
      p := p[..pin] + [Segment(AsSequence, p[pin].asns + p[pin + 1].asns)] + p[pin + 2..];
      assert p[pin..] == [p[pin]] + was[pin + 2..];
    }
  }

  // aspath_cmp: segment by segment, number by number.
  method Compare(p: Path, q: Path) returns (same: bool)
    ensures same <==> p == q
  {
    var k := 0;
    while k < |p| || k < |q|
      invariant k <= |p| && k <= |q| && p[..k] == q[..k]
      decreases |p| - k
    {
      if k >= |p| || k >= |q| {
        return false;
      }
      if p[k].kind != q[k].kind || |p[k].asns| != |q[k].asns| {
        return false;
      }
      for i := 0 to |p[k].asns|
        invariant p[k].asns[..i] == q[k].asns[..i]
      {
        if p[k].asns[i] != q[k].asns[i] {
          return false;
        }
      }
      assert p[k].asns[..|p[k].asns|] == p[k].asns && q[k].asns[..|q[k].asns|] == q[k].asns;
      k := k + 1;
    }
    assert p[..k] == p && q[..k] == q;
    return true;
  }

  // ---- counting

  function HopsIn(seg: Segment): nat {
    match seg.kind
    case AsSequence => |seg.asns|
    case AsSet => 1
    case _ => 0
  }

  function ConfedsIn(seg: Segment): nat {
    match seg.kind
    case AsConfedSequence => |seg.asns|
    case AsConfedSet => 1
    case _ => 0
  }

  function Hops(p: Path): nat {
    if p == [] then 0 else HopsIn(p[0]) + Hops(p[1..])
  }

  function Confeds(p: Path): nat {
    if p == [] then 0 else ConfedsIn(p[0]) + Confeds(p[1..])
  }

  lemma {:induction false} HopsConcat(p: Path, q: Path)
    ensures Hops(p + q) == Hops(p) + Hops(q) && Confeds(p + q) == Confeds(p) + Confeds(q)
  {
    if p == [] {
      assert p + q == q;
    } else {
      assert (p + q)[1..] == p[1..] + q;
      HopsConcat(p[1..], q);
    }
  }

  // Merging and sorting do not change the length of a path.
  lemma {:induction false} HopsKept(p: Path)
    ensures Hops(Normalise(p)) == Hops(p)
  {
    if p == [] {
    } else {
      HopsKept(p[1..]);
      assert Attach(Canonical(p[0]), Normalise(p[1..]))[1..]
          == if p[0].kind.AsSequence? && Normalise(p[1..]) != [] && Normalise(p[1..])[0].kind.AsSequence?
             then Normalise(p[1..])[1..] else Normalise(p[1..]);
    }
  }

  // aspath_count_hops and aspath_count_confeds.
  method Count(p: Path) returns (hops: nat, confeds: nat)
    ensures hops == Hops(p) && confeds == Confeds(p)
  {
    hops, confeds := 0, 0;
    for i := 0 to |p|
      invariant hops == Hops(p[..i]) && confeds == Confeds(p[..i])
    {
      assert p[..i + 1] == p[..i] + [p[i]];
      HopsConcat(p[..i], [p[i]]);
      assert [p[i]][1..] == [];
      match p[i].kind
      case AsSequence => hops := hops + |p[i].asns|;
      case AsSet => hops := hops + 1;
      case AsConfedSequence => confeds := confeds + |p[i].asns|;
      case AsConfedSet => confeds := confeds + 1;
    }
    assert p[..|p|] == p;
  }
}
