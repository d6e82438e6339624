// The plain maps behind the route table's sorted slots, the source list and the export array.
module TableView {
  import opened Util
  import opened Prefix
  import opened Feasibility
  import opened Destination
  import opened DestinationProofs

  datatype SourceEntry = SourceEntry(id: RouterId, key: Key, source: Source)

  // A locally exported destination.
  datatype Xroute = Xroute(key: Key, metric: u16, ifindex: int, proto: int)

  // ---- slots

  ghost predicate SlotOk(s: Slot) {
    s != [] && OneKey(s, s[0].key) && Shaped(s)
  }

  // Non-empty slots of one key each, in strictly ascending key order.
  ghost predicate SlotsOk(slots: seq<Slot>) {
    && (forall i :: 0 <= i < |slots| ==> SlotOk(slots[i]))
    && (forall i, j :: 0 <= i < j < |slots| ==> CompareKeys(slots[i][0].key, slots[j][0].key) < 0)
  }

  ghost predicate HoldsKey(slots: seq<Slot>, i: int, key: Key) {
    0 <= i < |slots| && slots[i] != [] && slots[i][0].key == key
  }

  ghost function SlotOf(slots: seq<Slot>, key: Key): Slot {
    if exists i :: HoldsKey(slots, i, key) then
      var i :| HoldsKey(slots, i, key);
      slots[i]
    else []
  }

  lemma SlotOfKey(slots: seq<Slot>, key: Key)
    ensures SlotOf(slots, key) != [] ==> SlotOf(slots, key)[0].key == key
  {
  }

  lemma KeysDiffer(slots: seq<Slot>, i: nat, j: nat)
    requires SlotsOk(slots) && i < |slots| && j < |slots| && i != j
    ensures slots[i][0].key != slots[j][0].key
  {
    assert CompareKeys(slots[if i < j then i else j][0].key, slots[if i < j then j else i][0].key) < 0;
  }

  lemma SlotOfAt(slots: seq<Slot>, i: nat)
    requires SlotsOk(slots) && i < |slots|
    ensures SlotOf(slots, slots[i][0].key) == slots[i]
  {
    var key := slots[i][0].key;
    assert HoldsKey(slots, i, key);
    forall j | HoldsKey(slots, j, key)
      ensures j == i
    {
      if j != i {
        KeysDiffer(slots, i, j);
      }
    }
  }

  lemma ReplaceSorted(slots: seq<Slot>, i: nat, s: Slot)
    requires SlotsOk(slots) && i < |slots| && SlotOk(s) && s[0].key == slots[i][0].key
    ensures SlotsOk(slots[i := s])
  {
  }

  lemma SlotOfReplacedAt(slots: seq<Slot>, i: nat, s: Slot, key: Key)
    requires SlotsOk(slots) && i < |slots| && SlotOk(s) && s[0].key == slots[i][0].key
    ensures SlotOf(slots[i := s], key) == if key == s[0].key then s else SlotOf(slots, key)
  {
    var slots' := slots[i := s];
    ReplaceSorted(slots, i, s);
    SameHolders(slots, slots', key);
    if key == s[0].key {
      assert HoldsKey(slots', i, key);
    } else {
      assert forall j :: HoldsKey(slots', j, key) <==> HoldsKey(slots, j, key);
      if j :| HoldsKey(slots, j, key) {
        assert HoldsKey(slots', j, key) && slots'[j] == slots[j];
      }
    }
  }

  lemma SlotOfReplaced(slots: seq<Slot>, i: nat, s: Slot)
    requires SlotsOk(slots) && i < |slots| && SlotOk(s) && s[0].key == slots[i][0].key
    ensures SlotsOk(slots[i := s])
    ensures forall key :: SlotOf(slots[i := s], key) == if key == s[0].key then s else SlotOf(slots, key)
  {
    ReplaceSorted(slots, i, s);
    forall key
      ensures SlotOf(slots[i := s], key) == if key == s[0].key then s else SlotOf(slots, key)
    {
      SlotOfReplacedAt(slots, i, s, key);
    }
  }

  // Two sorted slot tables that hold key at corresponding places agree on it.
  lemma SameHolders(slots: seq<Slot>, slots': seq<Slot>, key: Key)
    requires SlotsOk(slots) && SlotsOk(slots')
    ensures forall i :: HoldsKey(slots, i, key) ==> SlotOf(slots, key) == slots[i]
    ensures forall i :: HoldsKey(slots', i, key) ==> SlotOf(slots', key) == slots'[i]
  {
    forall i | HoldsKey(slots, i, key)
      ensures SlotOf(slots, key) == slots[i]
    {
      SlotOfAt(slots, i);
    }
    forall i | HoldsKey(slots', i, key)
      ensures SlotOf(slots', key) == slots'[i]
    {
      SlotOfAt(slots', i);
    }
  }

  // key belongs at position n: everything before is smaller and everything from there on larger.
  ghost predicate Gap(slots: seq<Slot>, n: nat, key: Key) {
    && n <= |slots|
    && (forall i :: 0 <= i < n ==> slots[i] != [] && CompareKeys(slots[i][0].key, key) < 0)
    && (forall i :: n <= i < |slots| ==> slots[i] != [] && CompareKeys(key, slots[i][0].key) < 0)
  }

  lemma SlotOfGap(slots: seq<Slot>, n: nat, key: Key)
    requires Gap(slots, n, key)
    ensures SlotOf(slots, key) == []
  {
    assert CompareKeys(key, key) == 0;
    forall i
      ensures !HoldsKey(slots, i, key)
    {
    }
  }

  function InsertAt(slots: seq<Slot>, n: nat, s: Slot): seq<Slot>
    requires n <= |slots|
  {
    slots[..n] + [s] + slots[n..]
  }

  lemma InsertSorted(slots: seq<Slot>, n: nat, s: Slot)
    requires SlotsOk(slots) && SlotOk(s) && Gap(slots, n, s[0].key)
    ensures SlotsOk(InsertAt(slots, n, s))
  {
    var slots': seq<Slot> := InsertAt(slots, n, s);
    forall i, j | 0 <= i < j < |slots'|
      ensures CompareKeys(slots'[i][0].key, slots'[j][0].key) < 0
    {
      var a, b := if i < n then i else i - 1, if j < n then j else j - 1;
      if i != n && j != n {
        assert CompareKeys(slots[a][0].key, slots[b][0].key) < 0;
      }
    }
  }

  lemma SlotOfInserted(slots: seq<Slot>, n: nat, s: Slot, key: Key)
    requires SlotsOk(slots) && SlotOk(s) && Gap(slots, n, s[0].key)
    ensures SlotOf(InsertAt(slots, n, s), key) == if key == s[0].key then s else SlotOf(slots, key)
  {
    var slots': seq<Slot> := InsertAt(slots, n, s);
    InsertSorted(slots, n, s);
    SameHolders(slots, slots', key);
    forall i | HoldsKey(slots', i, key)
      ensures key == s[0].key || HoldsKey(slots, if i < n then i else i - 1, key)
    {
    }
    if key == s[0].key {
      assert HoldsKey(slots', n, key);
    } else if i :| HoldsKey(slots, i, key) {
      assert HoldsKey(slots', if i < n then i else i + 1, key);
    }
  }

  function RemoveAt(slots: seq<Slot>, i: nat): seq<Slot>
    requires i < |slots|
  {
    slots[..i] + slots[i + 1..]
  }

  lemma RemoveSorted(slots: seq<Slot>, i: nat)
    requires SlotsOk(slots) && i < |slots|
    ensures SlotsOk(RemoveAt(slots, i))
  {
    var slots': seq<Slot> := RemoveAt(slots, i);
    forall j, k | 0 <= j < k < |slots'|
      ensures CompareKeys(slots'[j][0].key, slots'[k][0].key) < 0
    {
      assert CompareKeys(slots[if j < i then j else j + 1][0].key, slots[if k < i then k else k + 1][0].key) < 0;
    }
  }

  // Which slot is at position j once slot i is gone.
  lemma LeftOver(slots: seq<Slot>, i: nat, j: int)
    requires i < |slots| && 0 <= j < |slots| - 1
    ensures RemoveAt(slots, i)[j] == slots[if j < i then j else j + 1]
  {
  }

  lemma NotLeftOver(slots: seq<Slot>, i: nat, j: int, key: Key)
    requires i < |slots| && forall m :: HoldsKey(slots, m, key) ==> m == i
    ensures !HoldsKey(RemoveAt(slots, i), j, key)
  {
    if 0 <= j < |slots| - 1 {
      LeftOver(slots, i, j);
      assert !HoldsKey(slots, if j < i then j else j + 1, key);
    }
  }

  lemma SlotOfRemoved(slots: seq<Slot>, i: nat, key: Key)
    requires SlotsOk(slots) && i < |slots|
    ensures SlotOf(RemoveAt(slots, i), key) == if key == slots[i][0].key then [] else SlotOf(slots, key)
  {
    var slots': seq<Slot> := RemoveAt(slots, i);
    RemoveSorted(slots, i);
    SameHolders(slots, slots', key);
    if j :| HoldsKey(slots, j, key) && j != i {
      var m := if j < i then j else j - 1;
      LeftOver(slots, i, m);
      assert HoldsKey(slots', m, key);
      KeysDiffer(slots, i, j);
    } else {
      forall j
        ensures !HoldsKey(slots', j, key)
      {
        NotLeftOver(slots, i, j, key);
      }
    }
  }

  lemma OneKeyRearranged(s: Slot, t: Slot, key: Key)
    requires Rearranged(s, t) && OneKey(s, key)
    ensures OneKey(t, key)
  {
    forall j | 0 <= j < |t|
      ensures t[j].key == key
    {
      assert Has(t, t[j]) && Has(s, t[j]);
    }
  }

  // ---- sources

  ghost predicate UniqueSources(srcs: seq<SourceEntry>) {
    forall i, j :: 0 <= i < j < |srcs| ==> (srcs[i].id, srcs[i].key) != (srcs[j].id, srcs[j].key)
  }

  function SourcesOf(srcs: seq<SourceEntry>, key: Key): map<RouterId, Source> {
    if srcs == [] then map[]
    else if srcs[0].key == key then SourcesOf(srcs[1..], key)[srcs[0].id := srcs[0].source]
    else SourcesOf(srcs[1..], key)
  }

  lemma {:induction false} SourcesOfMissing(srcs: seq<SourceEntry>, id: RouterId, key: Key)
    requires forall i :: 0 <= i < |srcs| ==> (srcs[i].id, srcs[i].key) != (id, key)
    ensures id !in SourcesOf(srcs, key)
  {
    if srcs == [] {
    } else {
      assert (srcs[0].id, srcs[0].key) != (id, key);
      SourcesOfMissing(srcs[1..], id, key);
    }
  }

  lemma {:induction false} SourcesOfAt(srcs: seq<SourceEntry>, i: nat)
    requires UniqueSources(srcs) && i < |srcs|
    ensures srcs[i].id in SourcesOf(srcs, srcs[i].key) && SourcesOf(srcs, srcs[i].key)[srcs[i].id] == srcs[i].source
  {
    if i == 0 {
    } else {
      SourcesOfAt(srcs[1..], i - 1);
      assert srcs[1..][i - 1] == srcs[i];
      assert (srcs[0].id, srcs[0].key) != (srcs[i].id, srcs[i].key);
    }
  }

  lemma {:induction false} SourcesOfUpdated(srcs: seq<SourceEntry>, i: nat, source: Source, key: Key)
    requires UniqueSources(srcs) && i < |srcs|
    ensures UniqueSources(srcs[i := srcs[i].(source := source)])
    ensures SourcesOf(srcs[i := srcs[i].(source := source)], key)
            == if key == srcs[i].key then SourcesOf(srcs, key)[srcs[i].id := source] else SourcesOf(srcs, key)
  {
    var srcs' := srcs[i := srcs[i].(source := source)];
    if i == 0 {
      assert srcs'[1..] == srcs[1..];
    } else {
      assert srcs'[1..] == srcs[1..][i - 1 := srcs[1..][i - 1].(source := source)];
      SourcesOfUpdated(srcs[1..], i - 1, source, key);
      assert (srcs[0].id, srcs[0].key) != (srcs[i].id, srcs[i].key);
    }
  }

  // The list after expire_sources.
  function ExpireList(srcs: seq<SourceEntry>, now: int): seq<SourceEntry> {
    if srcs == [] then []
    else (if Collectable(srcs[0].source, now) then [] else [srcs[0].(source := ClockGuard(srcs[0].source, now))])
         + ExpireList(srcs[1..], now)
  }

  lemma {:induction false} ExpireListFrom(srcs: seq<SourceEntry>, i: nat, now: int)
    requires i < |ExpireList(srcs, now)|
    ensures exists j :: 0 <= j < |srcs| && srcs[j].id == ExpireList(srcs, now)[i].id
                        && srcs[j].key == ExpireList(srcs, now)[i].key
  {
    var rest := ExpireList(srcs[1..], now);
    var k := if Collectable(srcs[0].source, now) then i else i - 1;
    if k < 0 {
    } else {
      assert ExpireList(srcs, now)[i] == rest[k];
      ExpireListFrom(srcs[1..], k, now);
      var j :| 0 <= j < |srcs[1..]| && srcs[1..][j].id == rest[k].id && srcs[1..][j].key == rest[k].key;
      assert srcs[j + 1] == srcs[1..][j];
    }
  }

  lemma {:induction false} ExpireListUnique(srcs: seq<SourceEntry>, now: int)
    requires UniqueSources(srcs)
    ensures UniqueSources(ExpireList(srcs, now))
  {
    if srcs == [] {
    } else {
      var rest := ExpireList(srcs[1..], now);
      ExpireListUnique(srcs[1..], now);
      forall i | 0 <= i < |rest|
        ensures (rest[i].id, rest[i].key) != (srcs[0].id, srcs[0].key)
      {
        ExpireListFrom(srcs[1..], i, now);
        var j :| 0 <= j < |srcs[1..]| && srcs[1..][j].id == rest[i].id && srcs[1..][j].key == rest[i].key;
        assert srcs[1..][j] == srcs[j + 1];
      }
    }
  }

  lemma {:induction false} ExpireListView(srcs: seq<SourceEntry>, key: Key, now: int)
    requires UniqueSources(srcs)
    ensures SourcesOf(ExpireList(srcs, now), key)
            == map id | id in SourcesOf(srcs, key) && !Collectable(SourcesOf(srcs, key)[id], now)
                      :: ClockGuard(SourcesOf(srcs, key)[id], now)
  {
    if srcs == [] {
    } else {
      ExpireListView(srcs[1..], key, now);
      var kept := srcs[0].(source := ClockGuard(srcs[0].source, now));
      if !Collectable(srcs[0].source, now) {
        assert ExpireList(srcs, now)[1..] == ExpireList(srcs[1..], now);
      } else {
        assert ExpireList(srcs, now) == ExpireList(srcs[1..], now);
      }
      if srcs[0].key == key {
        SourcesOfMissing(srcs[1..], srcs[0].id, key);
      }
    }
  }

  // ---- exports

  ghost predicate UniqueXroutes(xs: seq<Xroute>) {
    forall i, j :: 0 <= i < j < |xs| ==> xs[i].key != xs[j].key
  }

  function XmetricOf(xs: seq<Xroute>, key: Key): Option<u16> {
    if xs == [] then None
    else if xs[0].key == key then Some(xs[0].metric)
    else XmetricOf(xs[1..], key)
  }

  lemma {:induction false} XmetricOfMissing(xs: seq<Xroute>, key: Key)
    ensures XmetricOf(xs, key).None? <==> forall i :: 0 <= i < |xs| ==> xs[i].key != key
  {
    if xs == [] {
    } else {
      XmetricOfMissing(xs[1..], key);
      assert forall i :: 1 <= i < |xs| ==> xs[i] == xs[1..][i - 1];
    }
  }

  lemma {:induction false} XmetricOfAt(xs: seq<Xroute>, i: nat)
    requires UniqueXroutes(xs) && i < |xs|
    ensures XmetricOf(xs, xs[i].key) == Some(xs[i].metric)
  {
    if i == 0 {
    } else {
      XmetricOfAt(xs[1..], i - 1);
      assert xs[1..][i - 1] == xs[i] && xs[0].key != xs[i].key;
    }
  }

  lemma XmetricOfChanged(xs: seq<Xroute>, x: nat, metric: u16, key: Key)
    requires UniqueXroutes(xs) && x < |xs|
    ensures UniqueXroutes(xs[x := xs[x].(metric := metric)])
    ensures XmetricOf(xs[x := xs[x].(metric := metric)], key)
            == if key == xs[x].key then Some(metric) else XmetricOf(xs, key)
  {
    var ys := xs[x := xs[x].(metric := metric)];
    XmetricOfMissing(xs, key);
    XmetricOfMissing(ys, key);
    if y: nat :| y < |xs| && xs[y].key == key {
      XmetricOfAt(xs, y);
      XmetricOfAt(ys, y);
    }
  }

  lemma XmetricOfAppended(xs: seq<Xroute>, entry: Xroute, key: Key)
    requires UniqueXroutes(xs) && XmetricOf(xs, entry.key).None?
    ensures UniqueXroutes(xs + [entry])
    ensures XmetricOf(xs + [entry], key) == if key == entry.key then Some(entry.metric) else XmetricOf(xs, key)
  {
    var ys := xs + [entry];
    assert ys[|xs|] == entry && forall y :: 0 <= y < |xs| ==> ys[y] == xs[y];
    XmetricOfMissing(xs, entry.key);
    XmetricOfMissing(xs, key);
    XmetricOfMissing(ys, key);
    if y: nat :| y < |ys| && ys[y].key == key {
      XmetricOfAt(ys, y);
      if y < |xs| {
        XmetricOfAt(xs, y);
      }
    }
  }

  // Entry x replaced by the last one, and the list one shorter.
  function SwappedOut(xs: seq<Xroute>, x: nat): seq<Xroute>
    requires x < |xs|
  {
    xs[x := xs[|xs| - 1]][..|xs| - 1]
  }

  lemma XmetricOfSwappedOut(xs: seq<Xroute>, x: nat, key: Key)
    requires UniqueXroutes(xs) && x < |xs|
    ensures UniqueXroutes(SwappedOut(xs, x))
    ensures XmetricOf(SwappedOut(xs, x), key) == if key == xs[x].key then None else XmetricOf(xs, key)
  {
    var ys := SwappedOut(xs, x);
    var last := |xs| - 1;
    assert forall y :: 0 <= y < last ==> ys[y] == xs[if y == x then last else y];
    XmetricOfMissing(xs, key);
    XmetricOfMissing(ys, key);
    assert forall y :: 0 <= y < |xs| && y != x ==> ys[if y == last then x else y] == xs[y];
    if y: nat :| y < |ys| && ys[y].key == key {
      XmetricOfAt(ys, y);
      XmetricOfAt(xs, if y == x then last else y);
    }
  }
}
