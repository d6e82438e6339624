// Sorting numbers and weeding out duplicates, as for AS_SETs and communities
// (qsrx/bgpd/bgp_aspath.c:273-294, qsrx/bgpd/bgp_community.c:160-185).
module SortedSet {
  import opened Util

  ghost predicate Ascending(s: seq<u32>) {
    forall i, j :: 0 <= i < j < |s| ==> s[i] <= s[j]
  }

  ghost predicate Strict(s: seq<u32>) {
    forall i, j :: 0 <= i < j < |s| ==> s[i] < s[j]
  }

  ghost predicate SameElements(s: seq<u32>, t: seq<u32>) {
    forall x :: x in s <==> x in t
  }

  function Insert(x: u32, s: seq<u32>): seq<u32> {
    if s == [] || x <= s[0] then [x] + s else [s[0]] + Insert(x, s[1..])
  }

  // The outcome of qsort.
  function Sort(s: seq<u32>): seq<u32> {
    if s == [] then [] else Insert(s[0], Sort(s[1..]))
  }

  function Dedup(s: seq<u32>): seq<u32> {
    if |s| <= 1 then s
    else if s[0] == s[1] then Dedup(s[1..])
    else [s[0]] + Dedup(s[1..])
  }

  // The strictly ascending listing of a set of numbers.
  function UniqSort(s: seq<u32>): (r: seq<u32>)
    ensures Strict(r) && SameElements(s, r) && |r| <= |s|
  {
    SortSorts(s);
    DedupStrict(Sort(s));
    assert forall x :: x in s <==> x in multiset(s);
    assert forall x :: x in Sort(s) <==> x in multiset(Sort(s));
    assert |multiset(s)| == |s| && |multiset(Sort(s))| == |Sort(s)|;
    Dedup(Sort(s))
  }

  lemma {:induction false} InsertSorts(x: u32, s: seq<u32>)
    requires Ascending(s)
    ensures Ascending(Insert(x, s)) && Insert(x, s)[0] == if s == [] || x <= s[0] then x else s[0]
  {
    if s == [] || x <= s[0] {
    } else {
      InsertSorts(x, s[1..]);
    }
  }

  lemma {:induction false} InsertKeeps(x: u32, s: seq<u32>)
    ensures multiset(Insert(x, s)) == multiset(s) + multiset{x}
  {
    if s == [] || x <= s[0] {
    } else {
      InsertKeeps(x, s[1..]);
      assert s == [s[0]] + s[1..];
    }
  }

  lemma {:induction false} SortSorts(s: seq<u32>)
    ensures Ascending(Sort(s)) && multiset(Sort(s)) == multiset(s)
  {
    if s == [] {
    } else {
      assert s == [s[0]] + s[1..];
      SortSorts(s[1..]);
      InsertSorts(s[0], Sort(s[1..]));
      InsertKeeps(s[0], Sort(s[1..]));
    }
  }

  lemma {:induction false} DedupStrict(s: seq<u32>)
    requires Ascending(s)
    ensures Strict(Dedup(s)) && SameElements(s, Dedup(s)) && |Dedup(s)| <= |s|
    ensures s != [] ==> Dedup(s) != [] && Dedup(s)[0] == s[0]
  {
    if |s| <= 1 {
    } else {
      assert s == [s[0]] + s[1..];
      DedupStrict(s[1..]);
    }
  }

  // Strictly ascending listings of the same set are equal.
  lemma {:induction false} StrictUnique(s: seq<u32>, t: seq<u32>)
    requires Strict(s) && Strict(t) && SameElements(s, t)
    ensures s == t
  {
    if t != [] {
      assert t[0] in s;
    }
    if s == [] {
    } else {
      assert s[0] in t;
      assert s[0] == t[0];
      assert s == [s[0]] + s[1..] && t == [t[0]] + t[1..];
      forall x
        ensures x in s[1..] <==> x in t[1..]
      {
        assert x in s <==> x in t;
        assert s[0] !in s[1..] && t[0] !in t[1..];
      }
      StrictUnique(s[1..], t[1..]);
    }
  }

  // What uniquely sorts to the same thing is the same set, and what is sorted stays as it is.
  lemma UniqSortDecides(s: seq<u32>, t: seq<u32>)
    ensures UniqSort(s) == UniqSort(t) <==> SameElements(s, t)
    ensures Strict(s) ==> UniqSort(s) == s
  {
    if SameElements(s, t) {
      StrictUnique(UniqSort(s), UniqSort(t));
    }
    if Strict(s) {
      StrictUnique(UniqSort(s), s);
    }
  }

  // qsort on the first length numbers of the buffer.
  method QSort(a: array<u32>, length: nat)
    requires length <= a.Length
    modifies a
    ensures a[..length] == Sort(old(a[..length]))
  {
    var sorted := Sort(a[..length]);
    SortSorts(a[..length]);
    assert |multiset(sorted)| == |multiset(a[..length])|;
    forall i | 0 <= i < length {
      a[i] := sorted[i];
    }
  }

  // The weeded numbers so far and one more that is not smaller than any of them.
  function Weeded(kept: seq<u32>, x: u32): seq<u32>
    requires kept != []
  {
    if kept[|kept| - 1] == x then kept else kept + [x]
  }

  lemma WeededSorted(kept: seq<u32>, seen: seq<u32>, x: u32)
    requires kept != [] && seen != [] && Strict(kept) && SameElements(kept, seen)
    requires kept[|kept| - 1] == seen[|seen| - 1] <= x
    ensures Strict(Weeded(kept, x)) && SameElements(Weeded(kept, x), seen + [x])
  {
    assert x == kept[|kept| - 1] ==> x in kept;
  }

  // One number of the sorted buffer: kept at the tail unless it is there already.
  method Weed(a: array<u32>, tail: nat, i: nat) returns (tail': nat)
    requires tail < i < a.Length
    modifies a
    ensures tail <= tail' <= i && a[..tail' + 1] == Weeded(old(a[..tail + 1]), old(a[i]))
    ensures forall k :: i < k < a.Length ==> a[k] == old(a[k])
  {
    tail' := tail;
    if a[tail] != a[i] {
      tail' := tail + 1;
      a[tail'] := a[i];
      assert a[..tail' + 1] == old(a[..tail + 1]) + [old(a[i])];
    }
  }

  // Weeding out duplicates from a sorted buffer, in place; the new length is returned.
  method WeedOut(a: array<u32>, length: nat) returns (n: nat)
    requires length <= a.Length && Ascending(a[..length])
    modifies a
    ensures n <= length && Strict(a[..n]) && SameElements(a[..n], old(a[..length]))
  {
    if length == 0 {
      return 0;
    }
    ghost var was := a[..length];
    var tail, i := 0, 1;
    while i < length
      invariant 0 <= tail < i <= length
      invariant Strict(a[..tail + 1]) && SameElements(a[..tail + 1], was[..i])
      invariant a[tail] == was[i - 1]
      invariant forall k :: i <= k < length ==> a[k] == was[k]
    {
      assert was[..i + 1] == was[..i] + [was[i]] && was[i - 1] <= was[i];
      WeededSorted(a[..tail + 1], was[..i], was[i]);
      tail := Weed(a, tail, i);
      assert a[tail] == a[..tail + 1][tail];
      i := i + 1;
    }
    assert was[..i] == was;
    return tail + 1;
  }
}
