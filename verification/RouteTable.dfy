// The route table, source list and export array of a Babel node (qsrx/babeld/route.c,
// qsrx/babeld/source.c, qsrx/babeld/xroute.c). A slot's linked list is a sequence; a pointer to a
// route is its slot number and position, a pointer to a source its router-id and destination.
module RouteTable {
  import opened Util
  import opened Prefix
  import opened Feasibility
  import opened Destination
  import opened DestinationProofs
  import opened TableView
  import opened Walks
  import Seqno

  class RouteTable {
    // settings
    const self: RouterId
    const allowDuplicates: int
    const keepUnfeasible: bool
    const kernelMetric: int

    // the slots in use are routes[..slotCount]
    var routes: array<Slot>
    var slotCount: nat
    // newest first
    var srcs: seq<SourceEntry>
    var xroutes: array<Xroute>
    var xrouteCount: nat

    ghost function Slots(): seq<Slot>
      requires slotCount <= routes.Length
      reads this, routes
    {
      routes[..slotCount]
    }

    ghost function Exports(): seq<Xroute>
      requires xrouteCount <= xroutes.Length
      reads this, xroutes
    {
      xroutes[..xrouteCount]
    }

    // The representation is in order.
    ghost predicate Rep()
      reads this, routes, xroutes
    {
      && slotCount <= routes.Length && SlotsOk(Slots())
      && UniqueSources(srcs)
      && xrouteCount <= xroutes.Length && UniqueXroutes(Exports())
    }

    function EnvAt(now: int): Env {
      Env(now, allowDuplicates, keepUnfeasible, kernelMetric)
    }

    // What the table holds for one destination.
    ghost function DestOf(key: Key): Dest
      requires Rep()
      reads this, routes, xroutes
    {
      Dest(SlotOf(Slots(), key), SourcesOf(srcs, key), XmetricOf(Exports(), key))
    }

    // The same, for the destination of slot i.
    ghost function View(i: nat): Dest
      requires Rep() && i < slotCount
      reads this, routes, xroutes
    {
      Dest(routes[i], SourcesOf(srcs, routes[i][0].key), XmetricOf(Exports(), routes[i][0].key))
    }

    // The invariant: every destination's routes, sources and export are consistent, and none is both
    // installed and exported unless duplicates are allowed.
    ghost predicate Valid()
      reads this, routes, xroutes
    {
      && Rep()
      && (forall key :: Ok(DestOf(key)))
      && (allowDuplicates < 0 ==> forall key :: Exclusive(DestOf(key)))
    }

    constructor (self: RouterId, allowDuplicates: int, keepUnfeasible: bool, kernelMetric: int)
      ensures Valid() && fresh(routes) && fresh(xroutes)
      ensures this.self == self && this.allowDuplicates == allowDuplicates
      ensures this.keepUnfeasible == keepUnfeasible && this.kernelMetric == kernelMetric
      ensures forall key :: DestOf(key) == Dest([], map[], None)
    {
      this.self, this.allowDuplicates := self, allowDuplicates;
      this.keepUnfeasible, this.kernelMetric := keepUnfeasible, kernelMetric;
      routes, slotCount := new Slot[0], 0;
      srcs := [];
      xroutes, xrouteCount := new Xroute[0], 0;
    }

    // ---- searching

    // Binary search: the slot of key, or else -1 and the place where its slot belongs.
    method FindRouteSlot(key: Key) returns (i: int, n: nat)
      requires Rep()
      ensures -1 <= i < slotCount
      ensures i >= 0 ==> routes[i][0].key == key
      ensures i < 0 ==> Gap(Slots(), n, key)
    {
      i, n := -1, 0;
      if slotCount < 1 {
        return;
      }
      var p, g := 0, slotCount - 1;
      while p <= g
        invariant 0 <= p <= g + 1 <= slotCount
        invariant Below(Slots(), p, key) && Above(Slots(), g + 1, key)
      {
        var m := (p + g) / 2;
        var c := CompareKeys(key, routes[m][0].key);
        if c == 0 {
          i := m;
          return;
        } else if c < 0 {
          AllLarger(Slots(), m, key);
          g := m - 1;
        } else {
          AllSmaller(Slots(), m, key);
          p := m + 1;
        }
      }
      n := p;
    }

    static ghost predicate Below(slots: seq<Slot>, n: int, key: Key) {
      forall j :: 0 <= j < n && j < |slots| ==> slots[j] != [] && CompareKeys(slots[j][0].key, key) < 0
    }

    static ghost predicate Above(slots: seq<Slot>, n: int, key: Key) {
      forall j :: 0 <= n <= j < |slots| ==> slots[j] != [] && CompareKeys(key, slots[j][0].key) < 0
    }

    static lemma AllLarger(slots: seq<Slot>, m: nat, key: Key)
      requires SlotsOk(slots) && m < |slots| && CompareKeys(key, slots[m][0].key) < 0
      ensures Above(slots, m, key)
    {
      forall j | m < j < |slots|
        ensures CompareKeys(key, slots[j][0].key) < 0
      {
        CompareKeysTransitive(key, slots[m][0].key, slots[j][0].key);
      }
    }

    static lemma AllSmaller(slots: seq<Slot>, m: nat, key: Key)
      requires SlotsOk(slots) && m < |slots| && CompareKeys(key, slots[m][0].key) > 0
      ensures Below(slots, m + 1, key)
    {
      CompareKeysAntisymmetric(slots[m][0].key, key);
      forall j | 0 <= j < m
        ensures CompareKeys(slots[j][0].key, key) < 0
      {
        CompareKeysTransitive(slots[j][0].key, slots[m][0].key, key);
      }
    }

    // The slot found is the one that holds the destination; a gap means there is none.
    lemma SlotFound(key: Key, i: int, n: nat)
      requires Rep() && -1 <= i < slotCount
      requires i >= 0 ==> routes[i][0].key == key
      requires i < 0 ==> Gap(Slots(), n, key)
      ensures DestOf(key).slot == if i >= 0 then routes[i] else []
      ensures i >= 0 ==> DestOf(key) == View(i)
    {
      if i >= 0 {
        SlotOfAt(Slots(), i);
      } else {
        SlotOfGap(Slots(), n, key);
      }
    }

    // The route to key through hop.
    method FindRoute(key: Key, hop: Hop) returns (i: int, j: nat)
      requires Rep()
      ensures -1 <= i < slotCount
      ensures i >= 0 ==> routes[i][0].key == key && j < |routes[i]| && Find(routes[i], hop) == Some(j)
      ensures i >= 0 ==> DestOf(key) == View(i)
      ensures i < 0 ==> Find(DestOf(key).slot, hop) == None
    {
      var n;
      i, n := FindRouteSlot(key);
      SlotFound(key, i, n);
      j := 0;
      if i >= 0 {
        var found := ScanSlot(routes[i], hop);
        if found.Some? {
          j := found.value;
        } else {
          i := -1;
        }
      }
    }

    // The walk along a slot's list.
    static method ScanSlot(s: Slot, hop: Hop) returns (found: Option<nat>)
      ensures found == Find(s, hop)
    {
      var j: nat := 0;
      assert s[0..] == s;
      while j < |s|
        invariant j <= |s|
        invariant Find(s, hop) == match Find(s[j..], hop) case None => None case Some(k) => Some(j + k)
      {
        if s[j].hop == hop {
          return Some(j);
        }
        assert s[j..][1..] == s[j + 1..];
        j := j + 1;
      }
      return None;
    }

    // The slot whose head is the installed route to key, or -1.
    method FindInstalledRoute(key: Key) returns (i: int)
      requires Rep()
      ensures -1 <= i < slotCount
      ensures i >= 0 <==> HasInstalled(DestOf(key))
      ensures i >= 0 ==> routes[i][0].key == key && DestOf(key) == View(i)
    {
      var n;
      i, n := FindRouteSlot(key);
      SlotFound(key, i, n);
      if i >= 0 && !routes[i][0].installed {
        i := -1;
      }
    }

    // ---- sources

    method FindSourceEntry(id: RouterId, key: Key) returns (s: int)
      requires UniqueSources(srcs)
      ensures -1 <= s < |srcs|
      ensures s >= 0 ==> srcs[s].id == id && srcs[s].key == key
      ensures s >= 0 ==> id in SourcesOf(srcs, key) && SourcesOf(srcs, key)[id] == srcs[s].source
      ensures s < 0 ==> id !in SourcesOf(srcs, key)
    {
      s := 0;
      while s < |srcs|
        invariant 0 <= s <= |srcs|
        invariant forall t :: 0 <= t < s ==> (srcs[t].id, srcs[t].key) != (id, key)
      {
        if srcs[s].id == id && srcs[s].key == key {
          SourcesOfAt(srcs, s);
          return;
        }
        s := s + 1;
      }
      SourcesOfMissing(srcs, id, key);
      s := -1;
    }

    // find_source with create set.
    method FindSource(id: RouterId, key: Key, seqno: u16, now: int) returns (s: nat)
      requires Rep()
      modifies `srcs
      ensures Rep() && s < |srcs| && srcs[s].id == id && srcs[s].key == key
      ensures DestOf(key) == EnsureSource(old(DestOf(key)), id, seqno, now)
      ensures srcs[s].source == DestOf(key).srcs[id]
      ensures forall k :: k != key ==> DestOf(k) == old(DestOf(k))
    {
      var t := FindSourceEntry(id, key);
      if t >= 0 {
        s := t;
      } else {
        srcs := [SourceEntry(id, key, NewSource(seqno, now))] + srcs;
        assert srcs[1..] == old(srcs);
        forall i | 0 < i < |srcs|
          ensures (srcs[i].id, srcs[i].key) != (id, key)
        {
          assert srcs[i] == old(srcs)[i - 1];
          SourcesOfAt(old(srcs), i - 1);
        }
        s := 0;
      }
    }

    // Replacing the data of one source.
    method SetSource(s: nat, source: Source)
      requires Rep() && s < |srcs|
      modifies `srcs
      ensures Rep() && srcs == old(srcs)[s := old(srcs)[s].(source := source)]
      ensures forall key :: SourcesOf(srcs, key)
                == if key == srcs[s].key then old(SourcesOf(srcs, key))[srcs[s].id := source]
                   else old(SourcesOf(srcs, key))
    {
      forall key
        ensures SourcesOf(srcs[s := srcs[s].(source := source)], key)
             == if key == srcs[s].key then SourcesOf(srcs, key)[srcs[s].id := source] else SourcesOf(srcs, key)
      {
        SourcesOfUpdated(srcs, s, source, key);
      }
      SourcesOfUpdated(srcs, s, source, srcs[s].key);
      srcs := srcs[s := srcs[s].(source := source)];
    }

    method RetainSource(s: nat)
      requires Rep() && s < |srcs|
      modifies `srcs
      ensures Rep() && |srcs| == |old(srcs)|
      ensures forall t :: 0 <= t < |srcs| ==> (srcs[t].id, srcs[t].key) == old((srcs[t].id, srcs[t].key))
      ensures forall key :: SourcesOf(srcs, key)
                == if key == old(srcs)[s].key && old(srcs)[s].id in old(SourcesOf(srcs, key))
                   then Retain(old(SourcesOf(srcs, key)), old(srcs)[s].id)
                   else old(SourcesOf(srcs, key))
    {
      SourcesOfAt(srcs, s);
      SetSource(s, srcs[s].source.(routeCount := srcs[s].source.routeCount + 1));
    }

    method ReleaseSource(id: RouterId, key: Key)
      requires Rep() && id in SourcesOf(srcs, key) && SourcesOf(srcs, key)[id].routeCount > 0
      modifies `srcs
      ensures Rep()
      ensures forall k :: SourcesOf(srcs, k)
                == if k == key then Release(old(SourcesOf(srcs, k)), id) else old(SourcesOf(srcs, k))
    {
      var s := FindSourceEntry(id, key);
      SetSource(s, srcs[s].source.(routeCount := srcs[s].source.routeCount - 1));
    }

    // ---- installing

    // Rewriting the list of slot i.
    method SetSlot(i: nat, s: Slot)
      requires Rep() && i < slotCount && SlotOk(s) && s[0].key == routes[i][0].key
      modifies routes
      ensures Rep() && Slots() == old(Slots())[i := s]
    {
      SlotOfReplaced(Slots(), i, s);
      routes[i] := s;
      assert Slots() == old(Slots())[i := s];
    }

    static lemma RearrangedSlotOk(s: Slot, t: Slot)
      requires SlotOk(s) && Rearranged(s, t) && Shaped(t)
      ensures SlotOk(t) && t[0].key == s[0].key
    {
      OneKeyRearranged(s, t, s[0].key);
    }

    lemma SameSlot(i: nat, k: nat)
      requires Rep() && i < slotCount && k < slotCount && routes[i][0].key == routes[k][0].key
      ensures i == k
    {
      if i != k {
        KeysDiffer(Slots(), i, k);
      }
    }

    method InstallRoute(i: nat, j: nat, kernelOk: bool)
      requires Rep() && i < slotCount && j < |routes[i]|
      modifies routes
      ensures Rep()
      ensures Slots() == old(Slots())[i := Destination.InstallRoute(old(View(i)), j, kernelOk).slot]
    {
      if routes[i][j].installed {
        return;
      }
      var k, n := FindRouteSlot(routes[i][j].key);
      NotInGap(i, n);
      SameSlot(i, k);
      if j != 0 && routes[i][0].installed {
        return;
      }
      if !kernelOk {
        return;
      }
      // Setting the mark and moving the route to the head.
      var s := routes[i];
      InstallAt(s, SetInstalled(s, j, true), j);
      RearrangedSlotOk(s, MoveToFront(SetInstalled(s, j, true), j));
      SetSlot(i, MoveToFront(SetInstalled(s, j, true), j));
    }

    lemma NotInGap(i: nat, n: nat)
      requires Rep() && i < slotCount
      ensures !Gap(Slots(), n, routes[i][0].key)
    {
      assert CompareKeys(routes[i][0].key, routes[i][0].key) == 0 && Slots()[i] == routes[i];
    }

    method UninstallRoute(i: nat, j: nat)
      requires Rep() && i < slotCount && j < |routes[i]|
      modifies routes
      ensures Rep()
      ensures Slots() == old(Slots())[i := Destination.UninstallRoute(old(View(i)), j).slot]
    {
      if routes[i][j].installed {
        ReplaceShaped(routes[i], j, routes[i][j].(installed := false));
        SetSlot(i, routes[i][j := routes[i][j].(installed := false)]);
      } else {
        assert routes[i][j := routes[i][j].(installed := false)] == routes[i];
      }
    }

    // From the installed route, if any, to the route at position j.
    method SwitchRoutes(i: nat, j: nat, kernelOk: bool)
      requires Rep() && i < slotCount && j < |routes[i]| && !routes[i][j].installed
      modifies routes
      ensures Rep()
      ensures Slots() == old(Slots())[i := Destination.SwitchRoutes(old(View(i)), j, kernelOk).slot]
    {
      if !routes[i][0].installed {
        InstallRoute(i, j, kernelOk);
        return;
      }
      if !kernelOk {
        return;
      }
      var s := routes[i];
      var u := SetInstalled(SetInstalled(s, 0, false), j, true);
      var k, n := FindRouteSlot(s[j].key);
      NotInGap(i, n);
      SameSlot(i, k);
      InstallAt(s, u, j);
      RearrangedSlotOk(s, MoveToFront(u, j));
      SetSlot(k, MoveToFront(u, j));
    }

    // ---- choosing

    method RouteFeasible(i: nat, j: nat, now: int) returns (feasible: bool)
      requires Rep() && i < slotCount && j < |routes[i]|
      ensures feasible == Feasible(View(i), routes[i][j], now)
    {
      var r := routes[i][j];
      var s := FindSourceEntry(r.src, r.key);
      feasible := s < 0 || UpdateFeasible(Some(srcs[s].source), now, r.seqno, r.refmetric);
    }

    // The scan of a slot for its best route.
    method FindBestRoute(i: nat, now: int, feasible: bool, exclude: Option<Neighbour>) returns (best: nat)
      requires Rep() && i < slotCount
      ensures best == BestFrom(View(i), now, feasible, exclude, 0, 1)
      ensures best < |routes[i]|
      // the head or an eligible route, and no eligible route behind the head is better
      ensures best == 0 || Eligible(View(i), routes[i][best], now, feasible, exclude)
      ensures forall j :: 1 <= j < |routes[i]| && Eligible(View(i), routes[i][j], now, feasible, exclude)
                ==> RouteMetric(routes[i][best]) <= RouteMetric(routes[i][j])
    {
      best := 0;
      var j := 1;
      while j < |routes[i]|
        invariant best < j <= |routes[i]|
        invariant BestFrom(View(i), now, feasible, exclude, best, j) == BestFrom(View(i), now, feasible, exclude, 0, 1)
      {
        var r := routes[i][j];
        if !Expired(r, now) {
          var ok := true;
          if feasible {
            ok := RouteFeasible(i, j, now);
          }
          if ok && (exclude.None? || r.hop.neigh != exclude.value) && RouteMetric(r) < RouteMetric(routes[i][best]) {
            best := j;
          }
        }
        j := j + 1;
      }
      BestIsBest(View(i), now, feasible, exclude, 0, 1);
    }

    method FindXroute(key: Key) returns (x: int)
      requires Rep()
      ensures -1 <= x < xrouteCount
      ensures x >= 0 ==> xroutes[x].key == key && XmetricOf(Exports(), key) == Some(xroutes[x].metric)
      ensures x < 0 ==> XmetricOf(Exports(), key) == None
      ensures x < 0 ==> forall y :: 0 <= y < xrouteCount ==> xroutes[y].key != key
    {
      x := 0;
      while x < xrouteCount
        invariant 0 <= x <= xrouteCount
        invariant forall y :: 0 <= y < x ==> xroutes[y].key != key
      {
        if xroutes[x].key == key {
          XmetricOfAt(Exports(), x);
          return;
        }
        x := x + 1;
      }
      XmetricOfMissing(Exports(), key);
      x := -1;
    }

    method ConsiderRoute(i: nat, j: nat, now: int, kernelOk: bool)
      requires Rep() && i < slotCount && j < |routes[i]|
      modifies routes
      ensures Rep()
      ensures Slots() == old(Slots())[i := Destination.ConsiderRoute(old(View(i)), j, EnvAt(now), kernelOk).slot]
    {
      if routes[i][j].installed {
        return;
      }
      var feasible := RouteFeasible(i, j, now);
      if !feasible {
        return;
      }
      var x := FindXroute(routes[i][j].key);
      if x >= 0 && (allowDuplicates < 0 || xroutes[x].metric >= allowDuplicates) {
        return;
      }
      var k := FindInstalledRoute(routes[i][j].key);
      SlotOfAt(Slots(), i);
      if k >= 0 {
        SameSlot(i, k);
        if RouteMetric(routes[i][j]) >= INFINITY {
          return;
        }
        if !(RouteMetric(routes[k][0]) >= INFINITY
             || RouteMetric(routes[k][0]) >= RouteMetric(routes[i][j]) + 64) {
          return;
        }
      }
      SwitchRoutes(i, j, kernelOk);
    }

    method RouteChanged(i: nat, j: nat, oldmetric: u16, now: int, kernelOk: bool)
      requires Rep() && i < slotCount && j < |routes[i]|
      modifies routes
      ensures Rep()
      ensures Slots()
           == old(Slots())[i := Destination.RouteChanged(old(View(i)), j, oldmetric, EnvAt(now), kernelOk).slot]
    {
      if routes[i][j].installed {
        if RouteMetric(routes[i][j]) > oldmetric {
          var best := FindBestRoute(i, now, true, None);
          if RouteMetric(routes[i][best]) <= RouteMetric(routes[i][j]) - 96 {
            ConsiderRoute(i, best, now, kernelOk);
          }
        }
      } else {
        ConsiderRoute(i, j, now, kernelOk);
      }
    }

    // The installed route to key was lost; i is the slot left for key, if there is one.
    method RouteLost(key: Key, now: int, kernelOk: bool) returns (i: int)
      requires Rep()
      modifies routes
      ensures Rep()
      ensures -1 <= i < slotCount
      ensures i < 0 ==> old(DestOf(key)).slot == [] && Slots() == old(Slots())
      ensures i >= 0 ==> old(routes[i][0].key) == key
      ensures i >= 0 ==> Slots() == old(Slots())[i := Destination.RouteLost(old(View(i)), EnvAt(now), kernelOk).slot]
    {
      var n;
      i, n := FindRouteSlot(key);
      SlotFound(key, i, n);
      if i >= 0 {
        var best := FindBestRoute(i, now, true, None);
        ConsiderRoute(i, best, now, kernelOk);
      }
    }

    // ---- growing and shrinking

    method ResizeRouteTable(newSlots: nat)
      requires Rep() && newSlots >= slotCount
      modifies `routes
      ensures fresh(routes) && routes.Length == newSlots
      ensures Rep() && Slots() == old(Slots())
    {
      var larger := new Slot[newSlots](_ => []);
      forall k | 0 <= k < slotCount {
        larger[k] := routes[k];
      }
      routes := larger;
      assert Slots() == old(Slots());
    }

    // A new slot for one route, at its place in the order; there is room.
    method InsertSlot(n: nat, r: Route)
      requires Rep() && !r.installed && Gap(Slots(), n, r.key) && slotCount < routes.Length
      modifies `slotCount, routes
      ensures Rep() && Slots() == InsertAt(old(Slots()), n, [r])
    {
      ghost var before := Slots();
      InsertSorted(before, n, [r]);
      ShiftUp(n);
      slotCount := slotCount + 1;
      routes[n] := [r];
      assert Slots() == InsertAt(before, n, [r]);
    }

    // The memmove that makes room at position n.
    method ShiftUp(n: nat)
      requires n <= slotCount < routes.Length
      modifies routes
      ensures routes[..n] == old(routes[..n]) && routes[n + 1..slotCount + 1] == old(routes[n..slotCount])
    {
      forall m | n <= m < slotCount {
        routes[m + 1] := routes[m];
      }
    }

    // The route becomes the last of its slot, or gets a slot of its own.
    method InsertRoute(r: Route) returns (i: nat, j: nat)
      requires Rep() && !r.installed && Find(DestOf(r.key).slot, r.hop) == None
      modifies `routes, `slotCount, routes
      ensures routes == old(routes) || fresh(routes)
      ensures Rep() && i < slotCount && j == |routes[i]| - 1
      ensures routes[i] == SlotOf(old(Slots()), r.key) + [r]
      ensures forall k :: SlotOf(Slots(), k) == if k == r.key then routes[i] else SlotOf(old(Slots()), k)
    {
      var k, n := FindRouteSlot(r.key);
      SlotFound(r.key, k, n);
      if k < 0 {
        i, j := n, 0;
        NewSlot(n, r);
      } else {
        i, j := k, |routes[k]|;
        AppendToSlot(k, r);
      }
    }

    // A slot of its own for the first route to its destination.
    method NewSlot(n: nat, r: Route)
      requires Rep() && !r.installed && Gap(Slots(), n, r.key)
      modifies `routes, `slotCount, routes
      ensures routes == old(routes) || fresh(routes)
      ensures Rep() && n < slotCount && routes[n] == [r]
      ensures forall k :: SlotOf(Slots(), k) == if k == r.key then [r] else SlotOf(old(Slots()), k)
    {
      if slotCount >= routes.Length {
        ResizeRouteTable(if routes.Length < 1 then 8 else 2 * routes.Length);
      }
      InsertSlot(n, r);
      assert Slots()[n] == [r];
      InsertedView(old(Slots()), n, r);
    }

    // A further route at the end of its slot.
    method AppendToSlot(i: nat, r: Route)
      requires Rep() && i < slotCount && routes[i][0].key == r.key && !r.installed && Find(routes[i], r.hop) == None
      modifies routes
      ensures Rep() && routes[i] == old(routes[i]) + [r]
      ensures forall k :: SlotOf(Slots(), k) == if k == r.key then routes[i] else SlotOf(old(Slots()), k)
    {
      ghost var slots: seq<Slot> := Slots();
      var s: Slot := routes[i] + [r];
      AppendOk(routes[i], r);
      assert s[0] == slots[i][0] && s[0].key == r.key;
      SetSlot(i, s);
      assert Slots()[i] == s && Slots() == slots[i := s];
      forall k
        ensures SlotOf(Slots(), k) == if k == r.key then s else SlotOf(slots, k)
      {
        SlotOfReplacedAt(slots, i, s, k);
      }
    }

    static lemma InsertedView(slots: seq<Slot>, n: nat, r: Route)
      requires SlotsOk(slots) && !r.installed && Gap(slots, n, r.key)
      ensures forall k :: SlotOf(InsertAt(slots, n, [r]), k) == if k == r.key then [r] else SlotOf(slots, k)
    {
      forall k
        ensures SlotOf(InsertAt(slots, n, [r]), k) == if k == r.key then [r] else SlotOf(slots, k)
      {
        SlotOfInserted(slots, n, [r], k);
      }
    }

    static lemma AppendOk(s: Slot, r: Route)
      requires SlotOk(s) && r.key == s[0].key && !r.installed && Find(s, r.hop) == None
      ensures SlotOk(s + [r])
    {
    }

    method RemoveSlot(i: nat)
      requires Rep() && i < slotCount
      modifies `slotCount, routes
      ensures Rep() && Slots() == RemoveAt(old(Slots()), i)
    {
      ghost var before := Slots();
      forall m | i < m < slotCount {
        routes[m - 1] := routes[m];
      }
      slotCount := slotCount - 1;
      assert Slots() == RemoveAt(before, i);
      RemoveSorted(before, i);
    }

    // Removing position j of slot i, and the slot with it when nothing is left.
    method RemoveRoute(i: nat, j: nat)
      requires Rep() && i < slotCount && j < |routes[i]|
      modifies `routes, `slotCount, routes
      ensures routes == old(routes) || fresh(routes)
      ensures Rep()
      ensures Slots() == if |old(routes[i])| == 1 then RemoveAt(old(Slots()), i)
                         else old(Slots())[i := Without(old(routes[i]), j)]
    {
      var s := Without(routes[i], j);
      if j == 0 {
        if s == [] {
          RemoveSlot(i);
        } else {
          WithoutShaped(routes[i], j);
          SetSlot(i, s);
        }
        if slotCount == 0 {
          ResizeRouteTable(0);
        } else if routes.Length > 8 && slotCount < routes.Length / 4 {
          ResizeRouteTable(routes.Length / 2);
        }
      } else {
        WithoutShaped(routes[i], j);
        SetSlot(i, s);
      }
    }

    // What the removal means for every destination.
    static lemma RemovedView(before: seq<Slot>, i: nat, j: nat, after: seq<Slot>)
      requires SlotsOk(before) && i < |before| && j < |before[i]|
      requires after == if |before[i]| == 1 then RemoveAt(before, i) else before[i := Without(before[i], j)]
      ensures forall k :: SlotOf(after, k) == if k == before[i][0].key then Without(before[i], j) else SlotOf(before, k)
    {
      if |before[i]| == 1 {
        forall k
          ensures SlotOf(after, k) == if k == before[i][0].key then [] else SlotOf(before, k)
        {
          SlotOfRemoved(before, i, k);
        }
      } else {
        WithoutShaped(before[i], j);
        var s := Without(before[i], j);
        forall k
          ensures SlotOf(after, k) == if k == before[i][0].key then s else SlotOf(before, k)
        {
          SlotOfReplacedAt(before, i, s, k);
        }
      }
    }

    // ---- updates

    // The fields an update gives to the route at position j of slot i; s is the entry of its source.
    method UpdateFields(i: nat, j: nat, s: nat, u: Update, now: int, k: Kernel) returns (r: Route, lost: bool)
      requires Rep() && i < slotCount && j < |routes[i]| && s < |srcs|
      requires routes[i][0].key == u.key && srcs[s].id == u.id && srcs[s].key == u.key
      ensures u.id in View(i).srcs
      ensures lost == LosesInstalled(View(i), j, u, EnvAt(now))
      ensures r == UpdatedRoute(View(i), j, u, EnvAt(now), k)
    {
      SourcesOfAt(srcs, s);
      r := routes[i][j];
      var feasible := UpdateFeasible(Some(srcs[s].source), now, u.seqno, u.refmetric);
      lost := false;
      if !feasible && r.installed && u.id != r.src {
        r := r.(installed := false);
        lost := true;
      }
      r := r.(src := u.id);
      if (feasible || keepUnfeasible) && u.refmetric < INFINITY {
        r := r.(time := now);
      }
      r := r.(seqno := u.seqno);
      r := ChangeRouteMetric(r, u.refmetric, u.cost, u.addMetric, EnvAt(now), k.metricOk);
      r := r.(holdTime := HoldTime(u.interval));
    }

    // Storing an update in the route at position j of slot i.
    method StoreUpdate(i: nat, j: nat, s: nat, u: Update, now: int, k: Kernel) returns (lost: bool)
      requires Rep() && i < slotCount && j < |routes[i]| && s < |srcs|
      requires routes[i][0].key == u.key && srcs[s].id == u.id && srcs[s].key == u.key
      modifies `srcs, routes
      ensures Rep() && u.id in old(View(i)).srcs
      ensures lost == LosesInstalled(old(View(i)), j, u, EnvAt(now))
      ensures Slots() == old(Slots())[i := UpdateStored(old(View(i)), j, u, EnvAt(now), k).slot]
      ensures SourcesOf(srcs, u.key) == UpdateStored(old(View(i)), j, u, EnvAt(now), k).srcs
      ensures forall key :: key != u.key ==> SourcesOf(srcs, key) == old(SourcesOf(srcs, key))
    {
      var r;
      r, lost := UpdateFields(i, j, s, u, now, k);
      StoredOk(View(i), j, u, EnvAt(now), k);
      SetSlot(i, routes[i][j := r]);
      RetainSource(s);
    }

    // The decisions taken once the route at position j of slot i has changed.
    method Decide(i: nat, j: nat, oldmetric: u16, lost: bool, now: int, k: Kernel)
      requires Rep() && i < slotCount && j < |routes[i]|
      modifies routes
      ensures Rep()
      ensures Slots() == old(Slots())[i :=
        var d := Destination.RouteChanged(old(View(i)), j, oldmetric, EnvAt(now), k.changedOk);
        if lost then Destination.RouteLost(d, EnvAt(now), k.lostOk).slot else d.slot]
    {
      ghost var d := View(i);
      RouteChangedSettled(d, j, oldmetric, EnvAt(now), k.changedOk);
      RouteChanged(i, j, oldmetric, now, k.changedOk);
      assert routes[i] == Slots()[i];
      RearrangedSlotOk(d.slot, routes[i]);
      if lost {
        assert View(i) == Destination.RouteChanged(d, j, oldmetric, EnvAt(now), k.changedOk);
        LoseSlot(i, now, k.lostOk);
      }
    }

    // RouteLost for the destination of slot i.
    method LoseSlot(i: nat, now: int, kernelOk: bool)
      requires Rep() && i < slotCount
      modifies routes
      ensures Rep()
      ensures Slots() == old(Slots())[i := Destination.RouteLost(old(View(i)), EnvAt(now), kernelOk).slot]
    {
      SlotOfAt(Slots(), i);
      var l := RouteLost(routes[i][0].key, now, kernelOk);
      if l >= 0 {
        OtherSlot(old(Slots()), i, l);
      }
    }

    static lemma OtherSlot(slots: seq<Slot>, i: nat, l: nat)
      requires SlotsOk(slots) && i < |slots| && l < |slots|
      ensures slots[i][0].key == slots[l][0].key ==> i == l
    {
      if i != l {
        KeysDiffer(slots, i, l);
      }
    }

    // Storing an update and deciding on it; the old source is not yet released.
    method StoreAndDecide(i: nat, j: nat, s: nat, u: Update, now: int, k: Kernel)
      requires Rep() && i < slotCount && j < |routes[i]| && s < |srcs|
      requires routes[i][0].key == u.key && srcs[s].id == u.id && srcs[s].key == u.key
      modifies `srcs, routes
      ensures Rep() && u.id in old(View(i)).srcs
      ensures Slots() == old(Slots())[i := UpdateDecided(old(View(i)), j, u, EnvAt(now), k).slot]
      ensures SourcesOf(srcs, u.key) == Retain(old(View(i)).srcs, u.id)
      ensures forall key :: key != u.key ==> SourcesOf(srcs, key) == old(SourcesOf(srcs, key))
    {
      var was := routes[i][j];
      SourcesOfAt(srcs, s);
      StoredOk(View(i), j, u, EnvAt(now), k);
      var lost := StoreUpdate(i, j, s, u, now, k);
      assert routes[i] == Slots()[i];
      Decide(i, j, RouteMetric(was), lost, now, k);
    }

    // The update of a route already in the table.
    method UpdateFound(i: nat, j: nat, s: nat, u: Update, now: int, k: Kernel)
      requires Rep() && i < slotCount && j < |routes[i]| && s < |srcs|
      requires routes[i][0].key == u.key && srcs[s].id == u.id && srcs[s].key == u.key
      requires Ok(View(i))
      modifies `srcs, routes
      ensures Rep() && |Slots()| == |old(Slots())|
      ensures u.id in old(View(i)).srcs
      ensures View(i) == UpdateKnown(old(View(i)), j, u, EnvAt(now), k)
      ensures Slots() == old(Slots())[i := routes[i]] && SlotOk(routes[i]) && routes[i][0].key == u.key
      ensures forall key :: key != u.key ==> SourcesOf(srcs, key) == old(SourcesOf(srcs, key))
    {
      ghost var d, env := View(i), EnvAt(now);
      var was := routes[i][j];
      CountPositive(d.slot, j);
      StoreAndDecide(i, j, s, u, now, k);
      assert routes[i] == Slots()[i] == UpdateDecided(d, j, u, env, k).slot;
      UpdateDecidedSettled(d, j, u, env, k);
      StoredOk(d, j, u, env, k);
      RearrangedSlotOk(UpdateStored(d, j, u, env, k).slot, routes[i]);
      ReleaseSource(was.src, u.key);
    }

    static lemma StoredOk(d: Dest, j: nat, u: Update, env: Env, k: Kernel)
      requires SlotOk(d.slot) && j < |d.slot| && u.id in d.srcs
      ensures SlotOk(UpdateStored(d, j, u, env, k).slot)
      ensures UpdateStored(d, j, u, env, k).slot[0].key == d.slot[0].key
    {
      ReplaceShaped(d.slot, j, UpdatedRoute(d, j, u, env, k));
    }

    // ConsiderRoute, seen from every destination.
    method ConsiderAt(i: nat, j: nat, now: int, kernelOk: bool)
      requires Rep() && i < slotCount && j < |routes[i]|
      modifies routes
      ensures Rep()
      ensures forall key :: DestOf(key) == if key == old(routes[i][0].key)
                then Destination.ConsiderRoute(old(View(i)), j, EnvAt(now), kernelOk) else old(DestOf(key))
    {
      ghost var d, slots := View(i), Slots();
      ConsiderSettled(d, j, EnvAt(now), kernelOk);
      SlotOfAt(slots, i);
      ConsiderRoute(i, j, now, kernelOk);
      ghost var s := Destination.ConsiderRoute(d, j, EnvAt(now), kernelOk).slot;
      RearrangedSlotOk(d.slot, s);
      SlotOfReplaced(slots, i, s);
    }

    // A new route and the reference it holds to its source, the entry s.
    method InsertCounted(s: nat, r: Route) returns (i: nat, j: nat)
      requires Rep() && s < |srcs| && srcs[s].id == r.src && srcs[s].key == r.key
      requires !r.installed && Find(DestOf(r.key).slot, r.hop) == None && r.src in DestOf(r.key).srcs
      modifies `srcs, `routes, `slotCount, routes
      ensures routes == old(routes) || fresh(routes)
      ensures Rep() && i < slotCount && j == |old(DestOf(r.key)).slot| < |routes[i]| && routes[i][0].key == r.key
      ensures View(i) == Dest(old(DestOf(r.key)).slot + [r], Retain(old(DestOf(r.key)).srcs, r.src),
                              old(DestOf(r.key)).xroute)
      ensures forall key :: key != r.key ==> DestOf(key) == old(DestOf(key))
    {
      RetainSource(s);
      i, j := InsertRoute(r);
      SlotOfAt(Slots(), i);
    }

    // An update through a hop the table does not know; s is the entry of its source.
    method UpdateNew(s: nat, u: Update, now: int, k: Kernel)
      requires Rep() && s < |srcs| && srcs[s].id == u.id && srcs[s].key == u.key
      requires Find(DestOf(u.key).slot, u.hop) == None && u.id in DestOf(u.key).srcs
      modifies `srcs, `routes, `slotCount, routes
      ensures routes == old(routes) || fresh(routes)
      ensures Rep()
      ensures DestOf(u.key) == UpdateUnknown(old(DestOf(u.key)), u, EnvAt(now), k)
      ensures forall key :: key != u.key ==> DestOf(key) == old(DestOf(key))
    {
      SourcesOfAt(srcs, s);
      if u.refmetric >= INFINITY {
        return;
      }
      if !UpdateFeasible(Some(srcs[s].source), now, u.seqno, u.refmetric) && !keepUnfeasible {
        return;
      }
      var i, j := InsertCounted(s, NewRoute(u, now));
      ConsiderAt(i, j, now, k.changedOk);
    }

    // UpdateFound, seen from every destination.
    method UpdateKnownAt(i: nat, j: nat, s: nat, u: Update, now: int, k: Kernel)
      requires Rep() && i < slotCount && j < |routes[i]| && s < |srcs|
      requires routes[i][0].key == u.key && srcs[s].id == u.id && srcs[s].key == u.key
      requires Ok(View(i)) && u.id in View(i).srcs
      modifies `srcs, routes
      ensures Rep()
      ensures DestOf(u.key) == UpdateKnown(old(View(i)), j, u, EnvAt(now), k)
      ensures forall key :: key != u.key ==> DestOf(key) == old(DestOf(key))
    {
      ghost var slots, d := Slots(), View(i);
      UpdateFound(i, j, s, u, now, k);
      SlotOfReplaced(slots, i, routes[i]);
      SlotOfAt(Slots(), i);
      assert Slots()[i] == routes[i] && View(i) == UpdateKnown(d, j, u, EnvAt(now), k);
    }

    // update_route past its checks, for a destination in order.
    method UpdateChecked(u: Update, now: int, k: Kernel)
      requires Rep() && Ok(DestOf(u.key)) && u.id != self && u.addMetric < INFINITY
      modifies `srcs, `routes, `slotCount, routes
      ensures routes == old(routes) || fresh(routes)
      ensures Rep()
      ensures DestOf(u.key) == Destination.UpdateRoute(old(DestOf(u.key)), self, u, EnvAt(now), k)
      ensures forall key :: key != u.key ==> DestOf(key) == old(DestOf(key))
    {
      ghost var d := DestOf(u.key);
      EnsureSourceOk(d, u.id, u.seqno, now);
      var i, j := FindRoute(u.key, u.hop);
      var s := FindSource(u.id, u.key, u.seqno, now);
      ghost var d1 := EnsureSource(d, u.id, u.seqno, now);
      if i >= 0 {
        SlotOfAt(Slots(), i);
        assert View(i) == d1;
        UpdateKnownAt(i, j, s, u, now, k);
      } else {
        UpdateNew(s, u, now, k);
      }
    }

    // A change at one destination that keeps it in order keeps the table valid.
    twostate lemma StillValid(key: Key)
      requires old(Valid()) && Rep()
      requires Ok(DestOf(key)) && (allowDuplicates < 0 ==> Exclusive(DestOf(key)))
      requires forall k :: k != key ==> DestOf(k) == old(DestOf(k))
      ensures Valid()
    {
    }

    // update_route: whatever it is told and whatever the kernel answers, the table keeps its
    // invariant and changes only at the update's destination.
    method UpdateRoute(u: Update, now: int, k: Kernel)
      requires Valid()
      modifies `srcs, `routes, `slotCount, routes
      ensures routes == old(routes) || fresh(routes)
      ensures Valid()
      ensures DestOf(u.key) == if Martian(u.key) then old(DestOf(u.key))
                               else Destination.UpdateRoute(old(DestOf(u.key)), self, u, EnvAt(now), k)
      ensures forall key :: key != u.key ==> DestOf(key) == old(DestOf(key))
    {
      if u.id == self || Martian(u.key) || u.addMetric >= INFINITY {
        return;
      }
      UpdateRouteOk(DestOf(u.key), self, u, EnvAt(now), k);
      UpdateChecked(u, now, k);
      StillValid(u.key);
    }

    // ---- removal

    // RouteLost, seen from every destination.
    method LoseAt(key: Key, now: int, kernelOk: bool)
      requires Rep()
      modifies routes
      ensures Rep()
      ensures forall k :: DestOf(k) == if k == key then Destination.RouteLost(old(DestOf(key)), EnvAt(now), kernelOk)
                                       else old(DestOf(k))
      ensures Slots() == old(Slots())
              || exists i: nat, s :: Resettled(old(Slots()), i, s, key) && Slots() == old(Slots())[i := s]
    {
      ghost var d, slots := DestOf(key), Slots();
      var i := RouteLost(key, now, kernelOk);
      if i >= 0 {
        SlotOfAt(slots, i);
        RouteLostSettled(d, EnvAt(now), kernelOk);
        RearrangedSlotOk(slots[i], Destination.RouteLost(d, EnvAt(now), kernelOk).slot);
        SlotOfReplaced(slots, i, Destination.RouteLost(d, EnvAt(now), kernelOk).slot);
        assert Resettled(slots, i, Destination.RouteLost(d, EnvAt(now), kernelOk).slot, key);
      }
    }

    // Slot i belongs to key, and s has as many routes.
    static ghost predicate Resettled(slots: seq<Slot>, i: nat, s: Slot, key: Key) {
      i < |slots| && slots[i] != [] && slots[i][0].key == key && |s| == |slots[i]|
    }

    // One route fewer, and nothing changed before slot i.
    static ghost predicate Shrunk(slots: seq<Slot>, i: nat, slots': seq<Slot>) {
      && i < |slots| && i <= |slots'| && slots'[..i] == slots[..i]
      && Total(slots') == Total(slots) - 1
    }

    static lemma RemoveShrinks(slots: seq<Slot>, i: nat, j: nat, after: seq<Slot>)
      requires SlotsOk(slots) && i < |slots| && j < |slots[i]|
      requires after == if |slots[i]| == 1 then RemoveAt(slots, i) else slots[i := Without(slots[i], j)]
      ensures Shrunk(slots, i, after)
    {
      if |slots[i]| == 1 {
        TotalRemoved(slots, i);
      } else {
        TotalReplaced(slots, i, Without(slots[i], j));
      }
    }

    // What is done about the loss stays in the same slot.
    static lemma LossShrinks(slots: seq<Slot>, i: nat, j: nat, mid: seq<Slot>, m: nat, s: Slot)
      requires SlotsOk(slots) && i < |slots| && j < |slots[i]|
      requires mid == if |slots[i]| == 1 then RemoveAt(slots, i) else slots[i := Without(slots[i], j)]
      requires Resettled(mid, m, s, slots[i][0].key)
      ensures Shrunk(slots, i, mid[m := s])
    {
      RemoveShrinks(slots, i, j, mid);
      TotalReplaced(mid, m, s);
      if m < i {
        assert mid[..i][m] == slots[..i][m];
        KeysDiffer(slots, m, i);
        assert false;
      }
      assert mid[m := s][..i] == mid[..i];
    }

    // RemoveRoute, seen from every destination.
    method RemoveAtDest(i: nat, j: nat)
      requires Rep() && i < slotCount && j < |routes[i]|
      modifies `routes, `slotCount, routes
      ensures routes == old(routes) || fresh(routes)
      ensures Rep()
      ensures forall k :: DestOf(k) == if k == old(routes[i][0].key)
                then old(View(i)).(slot := Without(old(routes[i]), j)) else old(DestOf(k))
      ensures Slots() == if |old(routes[i])| == 1 then RemoveAt(old(Slots()), i)
                         else old(Slots())[i := Without(old(routes[i]), j)]
    {
      ghost var slots := Slots();
      SlotOfAt(slots, i);
      RemoveRoute(i, j);
      RemovedView(slots, i, j, Slots());
    }

    // Removing a route and dealing with the loss if it was the installed one.
    method RemoveAndLose(i: nat, j: nat, now: int, k: Kernel)
      requires Rep() && i < slotCount && j < |routes[i]|
      modifies `routes, `slotCount, routes
      ensures routes == old(routes) || fresh(routes)
      ensures Rep()
      ensures forall key :: DestOf(key) == if key == old(routes[i][0].key)
                then var d1 := old(View(i)).(slot := Without(old(routes[i]), j));
                     if old(routes[i][j].installed) then Destination.RouteLost(d1, EnvAt(now), k.lostOk) else d1
                else old(DestOf(key))
      ensures Shrunk(old(Slots()), i, Slots())
    {
      ghost var slots := Slots();
      var installed, key := routes[i][j].installed, routes[i][0].key;
      RemoveAtDest(i, j);
      ghost var mid := Slots();
      RemoveShrinks(slots, i, j, mid);
      if installed {
        LoseAt(key, now, k.lostOk);
        if Slots() != mid {
          ghost var m: nat, s :| Resettled(mid, m, s, key) && Slots() == mid[m := s];
          LossShrinks(slots, i, j, mid, m, s);
        }
      }
    }

    // flush_route, for a destination in order.
    method FlushCounted(i: nat, j: nat, now: int, k: Kernel)
      requires Rep() && i < slotCount && j < |routes[i]| && Ok(View(i))
      modifies `srcs, `routes, `slotCount, routes
      ensures routes == old(routes) || fresh(routes)
      ensures Rep()
      ensures forall key :: DestOf(key) == if key == old(routes[i][0].key)
                then Destination.FlushRoute(old(View(i)), j, EnvAt(now), k) else old(DestOf(key))
      ensures Shrunk(old(Slots()), i, Slots())
    {
      ghost var d := View(i);
      CountPositive(d.slot, j);
      LossSettled(d, j, EnvAt(now), k.lostOk);
      var r, key := routes[i][j], routes[i][0].key;
      RemoveAndLose(i, j, now, k);
      ghost var d1 := d.(slot := Without(d.slot, j));
      ghost var d2 := if r.installed then Destination.RouteLost(d1, EnvAt(now), k.lostOk) else d1;
      assert DestOf(key) == d2 && d2.srcs == d.srcs;
      ReleaseSource(r.src, key);
    }

    // flush_route for the route at position j of key's slot.
    method FlushRoute(key: Key, j: nat, now: int, k: Kernel)
      requires Valid() && j < |DestOf(key).slot|
      modifies `srcs, `routes, `slotCount, routes
      ensures routes == old(routes) || fresh(routes)
      ensures Valid()
      ensures DestOf(key) == Destination.FlushRoute(old(DestOf(key)), j, EnvAt(now), k)
      ensures forall k' :: k' != key ==> DestOf(k') == old(DestOf(k'))
    {
      var i, n := FindRouteSlot(key);
      SlotFound(key, i, n);
      FlushRouteOk(DestOf(key), j, EnvAt(now), k);
      FlushCounted(i, j, now, k);
      StillValid(key);
    }

    // ---- metrics

    // Rewriting slot i, seen from every destination.
    method SetSlotAt(i: nat, s: Slot)
      requires Rep() && i < slotCount && SlotOk(s) && s[0].key == routes[i][0].key
      modifies routes
      ensures Rep() && Slots() == old(Slots())[i := s] && routes[i] == s
      ensures forall key :: DestOf(key) == if key == s[0].key then old(View(i)).(slot := s) else old(DestOf(key))
    {
      ghost var slots := Slots();
      SetSlot(i, s);
      SlotOfReplaced(slots, i, s);
      assert Slots()[i] == s;
    }

    // RouteChanged, seen from every destination.
    method RouteChangedAt(i: nat, j: nat, oldmetric: u16, now: int, kernelOk: bool)
      requires Rep() && i < slotCount && j < |routes[i]|
      modifies routes
      ensures Rep() && Slots() == old(Slots())[i := routes[i]]
      ensures routes[i] == Destination.RouteChanged(old(View(i)), j, oldmetric, EnvAt(now), kernelOk).slot
      ensures forall key :: DestOf(key) == if key == old(routes[i][0].key)
                then Destination.RouteChanged(old(View(i)), j, oldmetric, EnvAt(now), kernelOk) else old(DestOf(key))
    {
      ghost var d, slots := View(i), Slots();
      RouteChangedSettled(d, j, oldmetric, EnvAt(now), kernelOk);
      RouteChanged(i, j, oldmetric, now, kernelOk);
      ghost var s := Destination.RouteChanged(d, j, oldmetric, EnvAt(now), kernelOk).slot;
      RearrangedSlotOk(d.slot, s);
      SlotOfReplaced(slots, i, s);
      assert Slots()[i] == s;
    }

    // Replacing the data of the route at position j of slot i, and deciding if that matters.
    method ReplaceAndDecide(i: nat, j: nat, r: Route, changed: bool, now: int, k: Kernel)
      requires Rep() && i < slotCount && j < |routes[i]|
      requires r.key == routes[i][j].key && r.hop == routes[i][j].hop && r.installed == routes[i][j].installed
      modifies routes
      ensures Rep() && |Slots()| == |old(Slots())| && Slots() == old(Slots())[i := routes[i]]
      ensures routes[i] == DestOf(old(routes[i][0].key)).slot
      ensures forall key :: DestOf(key) == if key == old(routes[i][0].key) then
                  var d1 := old(View(i)).(slot := old(routes[i])[j := r]);
                  if !changed then d1
                  else Destination.RouteChanged(d1, j, RouteMetric(old(routes[i][j])), EnvAt(now), k.changedOk)
                else old(DestOf(key))
    {
      var was := routes[i][j];
      ReplaceShaped(routes[i], j, r);
      SetSlotAt(i, routes[i][j := r]);
      if changed {
        RouteChangedAt(i, j, RouteMetric(was), now, k.changedOk);
      }
    }

    // update_route_metric for the route at position j of slot i.
    method UpdateRouteMetric(i: nat, j: nat, links: Links, now: int, k: Kernel)
      requires Valid() && i < slotCount && j < |routes[i]| && DestOf(routes[i][0].key) == View(i)
      modifies routes
      ensures Valid() && |Slots()| == |old(Slots())| && Slots() == old(Slots())[i := routes[i]]
      ensures DestOf(old(routes[i][0].key)) == Remeasured(old(View(i)), j, links, EnvAt(now), k)
      ensures forall key :: key != old(routes[i][0].key) ==> DestOf(key) == old(DestOf(key))
      ensures routes[i] == DestOf(old(routes[i][0].key)).slot
    {
      ghost var d := View(i);
      var r, key := routes[i][j], routes[i][0].key;
      assert Ok(DestOf(key)) && (allowDuplicates < 0 ==> Exclusive(DestOf(key)));
      UpdateRouteMetricOk(d, j, links.cost(r.hop.neigh), links.filter(r.src, r.key), EnvAt(now), k);
      if Expired(r, now) && r.refmetric >= INFINITY {
        return;
      }
      var r', changed := Refresh(i, j, links, now, k);
      ReplaceAndDecide(i, j, r', changed, now, k);
      StillValid(key);
    }

    // The route with its metric brought up to date, and whether that calls for a decision.
    method Refresh(i: nat, j: nat, links: Links, now: int, k: Kernel) returns (r': Route, changed: bool)
      requires Rep() && i < slotCount && j < |routes[i]| && Ok(View(i))
      requires !(Expired(routes[i][j], now) && routes[i][j].refmetric >= INFINITY)
      ensures var r := routes[i][j];
              && r'.key == r.key && r'.hop == r.hop && r'.installed == r.installed
              && Remeasured(View(i), j, links, EnvAt(now), k)
                 == var d1 := View(i).(slot := routes[i][j := r']);
                    if changed then Destination.RouteChanged(d1, j, RouteMetric(r), EnvAt(now), k.changedOk) else d1
    {
      var r := routes[i][j];
      RefreshedIsFresh(View(i), j, links, EnvAt(now), k);
      if Expired(r, now) {
        var s := FindSourceEntry(r.src, r.key);
        r' := RetractRoute(r.(seqno := Seqno.Plus(srcs[s].source.seqno, 1)), EnvAt(now), k.metricOk);
        changed := RouteMetric(r) < INFINITY;
      } else {
        r' := ChangeRouteMetric(r, r.refmetric, links.cost(r.hop.neigh), links.filter(r.src, r.key), EnvAt(now),
                                k.metricOk);
        changed := RouteMetric(r') != RouteMetric(r);
      }
    }

    // Measuring the route at position j of slot i; next is the position after the one it ends up in.
    method MeasureAt(i: nat, j: nat, links: Links, now: int) returns (next: nat, ghost k: Kernel)
      requires Valid() && i < slotCount && j < |routes[i]|
      modifies routes
      ensures Valid() && Slots() == old(Slots())[i := routes[i]] && |routes[i]| == |old(routes[i])|
      ensures Pending(routes[i], Outdated(links, now)) <= old(Pending(routes[i], Outdated(links, now)))
      ensures Pending(routes[i], Outdated(links, now)) == old(Pending(routes[i], Outdated(links, now)))
              ==> |routes[i]| - next < old(|routes[i]|) - j
      ensures Ok(old(View(i))) && routes[i][0].key == old(routes[i][0].key)
      ensures View(i) == Remeasured(old(View(i)), j, links, EnvAt(now), k)
      ensures Find(routes[i], old(routes[i][j].hop)) == Some(next - 1) && next > 0
      ensures forall key :: key != old(routes[i][0].key) ==> DestOf(key) == old(DestOf(key))
    {
      var hop := routes[i][j].hop;
      ghost var key := routes[i][0].key;
      // the kernel may accept or refuse each change
      var answers: Kernel := *;
      k := answers;
      SlotOfAt(Slots(), i);
      assert Ok(DestOf(routes[i][0].key));
      MeasureDecreases(View(i), j, links, EnvAt(now), answers);
      UpdateRouteMetric(i, j, links, now, answers);
      SlotOfKey(Slots(), key);
      next := Find(routes[i], hop).value + 1;
    }

    // The same on a walk over the routes of some neighbours, seen being what the walk has seen so far.
    method MeasureRoute(i: nat, j: nat, select: Neighbour -> bool, links: Links, now: int, ghost seen: seq<Dest>,
                        ghost d0: Dest) returns (next: nat, ghost seen': seq<Dest>)
      requires Valid() && i < slotCount && j < |routes[i]| && select(routes[i][j].hop.neigh)
      requires Walking(Measuring(select, links), seen, d0, View(i), j, EnvAt(now))
      modifies routes
      ensures Valid() && Slots() == old(Slots())[i := routes[i]] && routes[i][0].key == old(routes[i][0].key)
      ensures Pending(routes[i], Outdated(links, now)) <= old(Pending(routes[i], Outdated(links, now)))
      ensures Pending(routes[i], Outdated(links, now)) == old(Pending(routes[i], Outdated(links, now)))
              ==> |routes[i]| - next < old(|routes[i]|) - j
      ensures Walking(Measuring(select, links), seen', d0, View(i), next, EnvAt(now))
    {
      ghost var d := View(i);
      ghost var k;
      next, k := MeasureAt(i, j, links, now);
      WalkingOn(Measuring(select, links), seen, d0, d, j, EnvAt(now), k);
      seen' := seen + [View(i)];
    }

    // The routes of one slot. Measuring a route can move it, or a better one, to the head of its list;
    // the walk goes on behind the route it measured. It ends: see Walks.MeasureDecreases.
    method MeasureInSlot(i: nat, select: Neighbour -> bool, links: Links, now: int)
      requires Valid() && i < slotCount
      modifies routes
      ensures Valid() && Slots() == old(Slots())[i := routes[i]] && routes[i][0].key == old(routes[i][0].key)
      ensures Worked(Measuring(select, links), old(View(i)), View(i), EnvAt(now))
    {
      var j: nat := 0;
      ghost var d0, seen := View(i), [View(i)];
      WalkingStarts(Measuring(select, links), d0, EnvAt(now));
      while j < |routes[i]|
        invariant Valid() && Slots() == old(Slots())[i := routes[i]] && routes[i][0].key == old(routes[i][0].key)
        invariant Walking(Measuring(select, links), seen, d0, View(i), j, EnvAt(now))
        decreases Pending(routes[i], Outdated(links, now)), |routes[i]| - j
      {
        if select(routes[i][j].hop.neigh) {
          j, seen := MeasureRoute(i, j, select, links, now, seen, d0);
        } else {
          j := j + 1;
        }
      }
      assert Walking(Measuring(select, links), seen, d0, View(i), |View(i).slot|, EnvAt(now));
    }

    // The walk of update_neighbour_metric and update_interface_metric. A route of these neighbours that
    // it leaves out of date was installed at some moment: it moved to the head behind the walk, or the
    // kernel refused.
    method UpdateMetrics(select: Neighbour -> bool, links: Links, now: int)
      requires Valid()
      modifies routes
      ensures Valid() && |Slots()| == |old(Slots())|
      ensures forall key :: Walked(old(DestOf(key)), DestOf(key), select)
      ensures forall m: nat :: m < slotCount ==> Worked(Measuring(select, links), old(View(m)), View(m), EnvAt(now))
    {
      var i := 0;
      ghost var task, before, done: set<nat> := Measuring(select, links), Slots(), {};
      WalkOverStarts(task, before, srcs, Exports(), EnvAt(now));
      while i < slotCount
        invariant 0 <= i <= slotCount && Valid() && |Slots()| == |before|
        invariant SlotsWalked(task, before, Slots(), srcs, Exports(), EnvAt(now), done)
        invariant forall m: nat :: m in done <==> m < i
      {
        ghost var mid := Slots();
        MeasureInSlot(i, select, links, now);
        NextSlotWalked(task, before, mid, Slots(), srcs, Exports(), EnvAt(now), done, i);
        done := done + {i};
        i := i + 1;
      }
      forall m: nat | m < slotCount
        ensures Worked(task, old(View(m)), View(m), EnvAt(now))
      {
        assert SlotWalked(task, before, Slots(), srcs, Exports(), EnvAt(now), m in done, m);
      }
      forall key
        ensures Walked(old(DestOf(key)), DestOf(key), select)
      {
        KeyWalked(task, before, Slots(), srcs, Exports(), EnvAt(now), done, key);
      }
    }

    method UpdateNeighbourMetric(neigh: Neighbour, changed: bool, links: Links, now: int)
      requires Valid()
      modifies routes
      ensures Valid() && |Slots()| == |old(Slots())| && (!changed ==> Slots() == old(Slots()))
      ensures forall key :: Walked(old(DestOf(key)), DestOf(key), Only(neigh))
      ensures changed ==>
                (forall m: nat :: m < slotCount
                                  ==> Worked(Measuring(Only(neigh), links), old(View(m)), View(m), EnvAt(now)))
    {
      if changed {
        UpdateMetrics(Only(neigh), links, now);
      }
    }

    method UpdateInterfaceMetric(ifp: nat, links: Links, now: int)
      requires Valid()
      modifies routes
      ensures Valid() && |Slots()| == |old(Slots())|
      ensures forall key :: Walked(old(DestOf(key)), DestOf(key), OnInterface(ifp))
      ensures forall m: nat :: m < slotCount
                               ==> Worked(Measuring(OnInterface(ifp), links), old(View(m)), View(m), EnvAt(now))
    {
      UpdateMetrics(OnInterface(ifp), links, now);
    }

    // Retracting the route at position j of slot i.
    method RetractRouteAt(i: nat, j: nat, now: int, k: Kernel)
      requires Valid() && i < slotCount && j < |routes[i]| && DestOf(routes[i][0].key) == View(i)
      modifies routes
      ensures Valid() && Slots() == old(Slots())[i := routes[i]]
      ensures Ok(old(View(i))) && routes[i] == RetractNeighbourRoute(old(View(i)), j, EnvAt(now), k).slot
      ensures forall key :: DestOf(key) == if key == old(routes[i][0].key)
                then RetractNeighbourRoute(old(View(i)), j, EnvAt(now), k) else old(DestOf(key))
    {
      var r, key := routes[i][j], routes[i][0].key;
      assert Ok(DestOf(key)) && (allowDuplicates < 0 ==> Exclusive(DestOf(key)));
      RetractNeighbourRouteOk(View(i), j, EnvAt(now), k);
      if r.refmetric != INFINITY {
        ReplaceAndDecide(i, j, RetractRoute(r, EnvAt(now), k.metricOk), RouteMetric(r) != INFINITY, now, k);
        StillValid(key);
      }
    }

    // The same, for a walk; next is the position after the one the route ends up in.
    method RetractMoving(i: nat, j: nat, now: int) returns (next: nat, ghost k: Kernel)
      requires Valid() && i < slotCount && j < |routes[i]|
      modifies routes
      ensures Valid() && Slots() == old(Slots())[i := routes[i]]
      ensures Pending(routes[i], Unretracted) <= old(Pending(routes[i], Unretracted))
      ensures Pending(routes[i], Unretracted) == old(Pending(routes[i], Unretracted))
              ==> |routes[i]| - next < old(|routes[i]|) - j
      ensures Ok(old(View(i))) && routes[i][0].key == old(routes[i][0].key)
      ensures View(i) == RetractNeighbourRoute(old(View(i)), j, EnvAt(now), k)
      ensures Find(routes[i], old(routes[i][j].hop)) == Some(next - 1) && next > 0
      ensures forall key :: key != old(routes[i][0].key) ==> DestOf(key) == old(DestOf(key))
    {
      var hop := routes[i][j].hop;
      ghost var key := routes[i][0].key;
      var answers: Kernel := *;
      k := answers;
      SlotOfAt(Slots(), i);
      assert Ok(DestOf(routes[i][0].key));
      RetractDecreases(View(i), j, EnvAt(now), answers);
      RetractRouteAt(i, j, now, answers);
      SlotOfKey(Slots(), key);
      next := Find(routes[i], hop).value + 1;
    }

    // The same on the walk of retract_neighbour_routes.
    method RetractAt(i: nat, j: nat, neigh: Neighbour, now: int, ghost seen: seq<Dest>, ghost d0: Dest)
      returns (next: nat, ghost seen': seq<Dest>)
      requires Valid() && i < slotCount && j < |routes[i]| && routes[i][j].hop.neigh == neigh
      requires Walking(Retracting(neigh), seen, d0, View(i), j, EnvAt(now))
      modifies routes
      ensures Valid() && Slots() == old(Slots())[i := routes[i]] && routes[i][0].key == old(routes[i][0].key)
      ensures Pending(routes[i], Unretracted) <= old(Pending(routes[i], Unretracted))
      ensures Pending(routes[i], Unretracted) == old(Pending(routes[i], Unretracted))
              ==> |routes[i]| - next < old(|routes[i]|) - j
      ensures Walking(Retracting(neigh), seen', d0, View(i), next, EnvAt(now))
    {
      ghost var d := View(i);
      ghost var k;
      next, k := RetractMoving(i, j, now);
      WalkingOn(Retracting(neigh), seen, d0, d, j, EnvAt(now), k);
      seen' := seen + [View(i)];
    }

    // The routes of one slot.
    method RetractInSlot(i: nat, neigh: Neighbour, now: int)
      requires Valid() && i < slotCount
      modifies routes
      ensures Valid() && Slots() == old(Slots())[i := routes[i]] && routes[i][0].key == old(routes[i][0].key)
      ensures Worked(Retracting(neigh), old(View(i)), View(i), EnvAt(now))
    {
      var j: nat := 0;
      ghost var d0, seen := View(i), [View(i)];
      WalkingStarts(Retracting(neigh), d0, EnvAt(now));
      while j < |routes[i]|
        invariant Valid() && Slots() == old(Slots())[i := routes[i]] && routes[i][0].key == old(routes[i][0].key)
        invariant Walking(Retracting(neigh), seen, d0, View(i), j, EnvAt(now))
        decreases Pending(routes[i], Unretracted), |routes[i]| - j
      {
        if routes[i][j].hop.neigh == neigh {
          j, seen := RetractAt(i, j, neigh, now, seen, d0);
        } else {
          j := j + 1;
        }
      }
      assert Walking(Retracting(neigh), seen, d0, View(i), |View(i).slot|, EnvAt(now));
    }

    // The loop of retract_neighbour_routes: its index advances twice a turn.
    method RetractEverySecond(neigh: Neighbour, now: int) returns (ghost done: set<nat>)
      requires Valid()
      modifies routes
      ensures Valid() && |Slots()| == |old(Slots())|
      ensures SlotsWalked(Retracting(neigh), old(Slots()), Slots(), srcs, Exports(), EnvAt(now), done)
      ensures forall m: nat :: m in done <==> m < slotCount && m % 2 == 0
    {
      var i := 0;
      done := {};
      WalkOverStarts(Retracting(neigh), Slots(), srcs, Exports(), EnvAt(now));
      while i < slotCount
        invariant 0 <= i && i % 2 == 0 && Valid() && |Slots()| == |old(Slots())|
        invariant SlotsWalked(Retracting(neigh), old(Slots()), Slots(), srcs, Exports(), EnvAt(now), done)
        invariant forall m: nat :: m in done <==> m < i && m < slotCount && m % 2 == 0
      {
        ghost var mid := Slots();
        RetractInSlot(i, neigh, now);
        NextSlotWalked(Retracting(neigh), old(Slots()), mid, Slots(), srcs, Exports(), EnvAt(now), done, i);
        done := done + {i};
        i := i + 1;
        i := i + 1;
      }
    }

    // retract_neighbour_routes: it ends although routes move, and keeps everything but routes of this
    // neighbour. The destinations of every second slot keep their routes as they are; in the other slots a
    // route of the neighbour that is not retracted was installed at some moment: it moved to the head
    // behind the walk, or the kernel refused.
    method RetractNeighbourRoutes(neigh: Neighbour, now: int)
      requires Valid()
      modifies routes
      ensures Valid() && |Slots()| == |old(Slots())|
      ensures forall key :: Walked(old(DestOf(key)), DestOf(key), Only(neigh))
      ensures forall m: nat :: m < slotCount && m % 2 == 0
                               ==> Worked(Retracting(neigh), old(View(m)), View(m), EnvAt(now))
      ensures forall m: nat :: m < slotCount && m % 2 == 1 ==> Slots()[m] == old(Slots())[m]
    {
      ghost var task, before := Retracting(neigh), Slots();
      ghost var done := RetractEverySecond(neigh, now);
      forall m: nat | m < slotCount
        ensures if m % 2 == 0 then Worked(task, old(View(m)), View(m), EnvAt(now)) else Slots()[m] == before[m]
      {
        assert SlotWalked(task, before, Slots(), srcs, Exports(), EnvAt(now), m in done, m);
      }
      forall key
        ensures Walked(old(DestOf(key)), DestOf(key), Only(neigh))
      {
        KeyWalked(task, before, Slots(), srcs, Exports(), EnvAt(now), done, key);
      }
    }

    // One route of the walk of expire_routes that is flushed.
    method FlushDue(i: nat, j: nat, now: int)
      requires Valid() && i < slotCount && j < |routes[i]| && DueForFlush(routes[i][j], now)
      modifies `srcs, `routes, `slotCount, routes
      ensures routes == old(routes) || fresh(routes)
      ensures Valid() && Shrunk(old(Slots()), i, Slots())
      ensures forall key :: OnlyDueGone(old(DestOf(key)), DestOf(key), now)
    {
      ghost var d, key := View(i), routes[i][0].key;
      var k: Kernel := *;
      SlotOfAt(Slots(), i);
      assert Ok(DestOf(key)) && (allowDuplicates < 0 ==> Exclusive(DestOf(key)));
      FlushRouteOk(d, j, EnvAt(now), k);
      FlushedDue(d, j, EnvAt(now), k);
      FlushCounted(i, j, now, k);
      StillValid(key);
      forall k'
        ensures OnlyDueGone(old(DestOf(k')), DestOf(k'), now)
      {
        OnlyDueGoneRefl(DestOf(k'), now);
      }
    }

    // One that is measured.
    method MeasureKept(i: nat, j: nat, links: Links, now: int, ghost seen: seq<Dest>, ghost d0: Dest)
      returns (next: nat, ghost seen': seq<Dest>)
      requires Valid() && i < slotCount && j < |routes[i]| && !DueForFlush(routes[i][j], now)
      requires Walking(Expiring(links), seen, d0, View(i), j, EnvAt(now))
      modifies routes
      ensures Valid() && Slots() == old(Slots())[i := routes[i]] && routes[i][0].key == old(routes[i][0].key)
      ensures |routes[i]| == old(|routes[i]|)
      ensures Pending(routes[i], Outdated(links, now)) <= old(Pending(routes[i], Outdated(links, now)))
      ensures Pending(routes[i], Outdated(links, now)) == old(Pending(routes[i], Outdated(links, now)))
              ==> |routes[i]| - next < old(|routes[i]|) - j
      ensures Walking(Expiring(links), seen', d0, View(i), next, EnvAt(now))
    {
      ghost var d := View(i);
      ghost var k;
      next, k := MeasureAt(i, j, links, now);
      WalkingOn(Expiring(links), seen, d0, d, j, EnvAt(now), k);
      seen' := seen + [View(i)];
    }

    // The routes of one slot, up to the first one due for flushing, whose position is returned, or to the
    // end. A route due for flushing that was jumped over was installed at some moment.
    method MeasureUntilDue(i: nat, links: Links, now: int) returns (j: nat)
      requires Valid() && i < slotCount
      modifies routes
      ensures Valid() && Slots() == old(Slots())[i := routes[i]] && routes[i][0].key == old(routes[i][0].key)
      ensures |routes[i]| == old(|routes[i]|) && OnlyDueGone(old(View(i)), View(i), now)
      ensures if j < |routes[i]| then DueForFlush(routes[i][j], now) else Passed(routes[i], links, EnvAt(now))
    {
      j := 0;
      ghost var d0, seen := View(i), [View(i)];
      WalkingStarts(Expiring(links), d0, EnvAt(now));
      while j < |routes[i]| && !DueForFlush(routes[i][j], now)
        invariant Valid() && Slots() == old(Slots())[i := routes[i]] && routes[i][0].key == old(routes[i][0].key)
        invariant |routes[i]| == old(|routes[i]|)
        invariant Walking(Expiring(links), seen, d0, View(i), j, EnvAt(now))
        decreases Pending(routes[i], Outdated(links, now)), |routes[i]| - j
      {
        j, seen := MeasureKept(i, j, links, now, seen, d0);
      }
      TraceKept(links, seen, |seen| - 1, EnvAt(now));
      assert j >= |routes[i]| ==> PassedWith(routes[i], links, EnvAt(now), seen, d0, View(i));
    }

    // The same, seen from every destination.
    method MeasurePass(i: nat, links: Links, now: int) returns (j: nat)
      requires Valid() && i < slotCount
      modifies routes
      ensures Valid() && Slots() == old(Slots())[i := routes[i]] && Total(Slots()) == old(Total(Slots()))
      ensures if j < |routes[i]| then DueForFlush(routes[i][j], now) else Passed(routes[i], links, EnvAt(now))
      ensures forall key :: OnlyDueGone(old(DestOf(key)), DestOf(key), now)
    {
      ghost var slots := Slots();
      j := MeasureUntilDue(i, links, now);
      TotalReplaced(slots, i, routes[i]);
      SlotOfAt(slots, i);
      assert SlotOk(Slots()[i]);
      SlotOfReplaced(slots, i, routes[i]);
      forall key
        ensures OnlyDueGone(old(DestOf(key)), DestOf(key), now)
      {
        OnlyDueGoneRefl(DestOf(key), now);
      }
    }

    // One turn of the walk: after a flush the slot starts again.
    method ExpireInSlot(i: nat, links: Links, now: int) returns (next: nat)
      requires Valid() && i < slotCount && PassedUpTo(Slots(), i, links, EnvAt(now))
      modifies `srcs, `routes, `slotCount, routes
      ensures routes == old(routes) || fresh(routes)
      ensures Valid() && PassedUpTo(Slots(), next, links, EnvAt(now))
      ensures || Total(Slots()) < old(Total(Slots()))
              || (Total(Slots()) == old(Total(Slots())) && slotCount == old(slotCount) && next == i + 1)
      ensures forall key :: OnlyDueGone(old(DestOf(key)), DestOf(key), now)
    {
      var j := MeasurePass(i, links, now);
      PassedKept(old(Slots()), Slots(), i, links, EnvAt(now));
      next := i + 1;
      if j < |routes[i]| {
        label Flush:
        FlushDue(i, j, now);
        PassedKept(old@Flush(Slots()), Slots(), i, links, EnvAt(now));
        forall key
          ensures OnlyDueGone(old(DestOf(key)), DestOf(key), now)
        {
          OnlyDueGoneTrans(old(DestOf(key)), old@Flush(DestOf(key)), DestOf(key), now);
        }
        next := i;
      }
    }

    // expire_routes: it ends, no destination loses a route that is neither old nor from the future, and each
    // such route that stays was installed at some moment of the last pass over its slot: it moved to the
    // head behind the walk.
    method ExpireRoutes(links: Links, now: int)
      requires Valid()
      modifies `srcs, `routes, `slotCount, routes
      ensures routes == old(routes) || fresh(routes)
      ensures Valid()
      ensures forall key :: OnlyDueGone(old(DestOf(key)), DestOf(key), now)
      ensures forall m :: 0 <= m < slotCount ==> Passed(Slots()[m], links, EnvAt(now))
    {
      var i: nat := 0;
      forall key
        ensures OnlyDueGone(DestOf(key), DestOf(key), now)
      {
        OnlyDueGoneRefl(DestOf(key), now);
      }
      while i < slotCount
        invariant routes == old(routes) || fresh(routes)
        invariant Valid() && PassedUpTo(Slots(), i, links, EnvAt(now))
        invariant forall key :: OnlyDueGone(old(DestOf(key)), DestOf(key), now)
        decreases Total(Slots()), slotCount - i
      {
        label Turn:
        i := ExpireInSlot(i, links, now);
        forall key
          ensures OnlyDueGone(old(DestOf(key)), DestOf(key), now)
        {
          OnlyDueGoneTrans(old(DestOf(key)), old@Turn(DestOf(key)), DestOf(key), now);
        }
      }
    }

    // One flush of the walk: the route at position j of slot i.
    method FlushSelected(i: nat, j: nat, select: Hop -> bool, now: int)
      requires Valid() && i < slotCount && j < |routes[i]| && select(routes[i][j].hop)
      modifies `srcs, `routes, `slotCount, routes
      ensures routes == old(routes) || fresh(routes)
      ensures Valid() && Shrunk(old(Slots()), i, Slots())
      ensures forall key :: OnlySelectedGone(old(DestOf(key)), DestOf(key), select)
    {
      ghost var d, key := View(i), routes[i][0].key;
      var k: Kernel := *;
      SlotOfAt(Slots(), i);
      assert Ok(DestOf(key)) && (allowDuplicates < 0 ==> Exclusive(DestOf(key)));
      FlushRouteOk(d, j, EnvAt(now), k);
      FlushedSelected(d, j, EnvAt(now), k, select);
      FlushCounted(i, j, now, k);
      StillValid(key);
    }

    method FindSelected(i: nat, select: Hop -> bool) returns (j: nat)
      requires Rep() && i < slotCount
      ensures j <= |routes[i]|
      ensures if j < |routes[i]| then select(routes[i][j].hop) else NoneSelected(routes[i], select)
    {
      j := 0;
      while j < |routes[i]| && !select(routes[i][j].hop)
        invariant j <= |routes[i]|
        invariant forall m :: 0 <= m < j ==> !select(routes[i][m].hop)
      {
        j := j + 1;
      }
    }

    ghost predicate DoneBefore(slots: seq<Slot>, i: nat, select: Hop -> bool) {
      i <= |slots| && forall m :: 0 <= m < i ==> NoneSelected(slots[m], select)
    }

    lemma DoneKept(slots: seq<Slot>, i: nat, slots': seq<Slot>, select: Hop -> bool)
      requires DoneBefore(slots, i, select) && Shrunk(slots, i, slots')
      ensures DoneBefore(slots', i, select)
    {
      forall m | 0 <= m < i
        ensures NoneSelected(slots'[m], select)
      {
        assert slots'[..i][m] == slots[..i][m];
      }
    }

    // One turn of the walk: a selected route of slot i is flushed, or there is none left in it.
    method FlushStep(i: nat, select: Hop -> bool, now: int) returns (next: nat)
      requires Valid() && i < slotCount && DoneBefore(Slots(), i, select)
      modifies `srcs, `routes, `slotCount, routes
      ensures routes == old(routes) || fresh(routes)
      ensures Valid() && DoneBefore(Slots(), next, select)
      ensures || Total(Slots()) < old(Total(Slots()))
              || (Slots() == old(Slots()) && slotCount == old(slotCount) && next == i + 1)
      ensures forall key :: OnlySelectedGone(old(DestOf(key)), DestOf(key), select)
    {
      var j := FindSelected(i, select);
      if j < |routes[i]| {
        ghost var before := Slots();
        FlushSelected(i, j, select, now);
        DoneKept(before, i, Slots(), select);
        next := i;
      } else {
        next := i + 1;
      }
    }

    // The walk of flush_neighbour_routes and flush_interface_routes: it starts a slot again after
    // every flush, and when it ends no selected route is left while every other one still is.
    method FlushRoutes(select: Hop -> bool, now: int)
      requires Valid()
      modifies `srcs, `routes, `slotCount, routes
      ensures routes == old(routes) || fresh(routes)
      ensures Valid()
      ensures forall key :: OnlySelectedGone(old(DestOf(key)), DestOf(key), select)
      ensures forall key :: NoneSelected(DestOf(key).slot, select)
    {
      var i: nat := 0;
      while i < slotCount
        invariant routes == old(routes) || fresh(routes)
        invariant Valid() && DoneBefore(Slots(), i, select)
        invariant forall key :: OnlySelectedGone(old(DestOf(key)), DestOf(key), select)
        decreases Total(Slots()), slotCount - i
      {
        i := FlushStep(i, select, now);
      }
      AllDone(Slots(), select);
    }

    lemma AllDone(slots: seq<Slot>, select: Hop -> bool)
      requires SlotsOk(slots) && DoneBefore(slots, |slots|, select)
      ensures forall key :: NoneSelected(SlotOf(slots, key), select)
    {
      forall key
        ensures NoneSelected(SlotOf(slots, key), select)
      {
        if m :| HoldsKey(slots, m, key) {
          SlotOfAt(slots, m);
        }
      }
    }

    method FlushNeighbourRoutes(neigh: Neighbour, now: int)
      requires Valid()
      modifies `srcs, `routes, `slotCount, routes
      ensures routes == old(routes) || fresh(routes)
      ensures Valid()
      ensures forall key :: OnlySelectedGone(old(DestOf(key)), DestOf(key), Through(neigh))
      ensures forall key :: NoneSelected(DestOf(key).slot, Through(neigh))
    {
      FlushRoutes(Through(neigh), now);
    }

    method FlushInterfaceRoutes(ifp: nat, v4only: bool, now: int)
      requires Valid()
      modifies `srcs, `routes, `slotCount, routes
      ensures routes == old(routes) || fresh(routes)
      ensures Valid()
      ensures forall key :: OnlySelectedGone(old(DestOf(key)), DestOf(key), ThroughInterface(ifp, v4only))
      ensures forall key :: NoneSelected(DestOf(key).slot, ThroughInterface(ifp, v4only))
    {
      FlushRoutes(ThroughInterface(ifp, v4only), now);
    }

    // ---- exports

    method ResizeXroutes(n: nat)
      requires Rep() && n >= xrouteCount
      modifies `xroutes
      ensures fresh(xroutes) && xroutes.Length == n
      ensures Rep() && Exports() == old(Exports())
    {
      var blank := Xroute(Key(seq(16, _ => 0), 0), 0, 0, 0);
      var larger := new Xroute[n](_ => blank);
      forall x | 0 <= x < xrouteCount {
        larger[x] := xroutes[x];
      }
      xroutes := larger;
      assert Exports() == old(Exports());
    }

    // Changing the metric of one export.
    method SetXmetric(x: nat, metric: u16)
      requires Rep() && x < xrouteCount
      modifies xroutes
      ensures Rep()
      ensures forall k :: XmetricOf(Exports(), k)
                == if k == old(xroutes[x].key) then Some(metric) else old(XmetricOf(Exports(), k))
    {
      ghost var before := Exports();
      xroutes[x] := xroutes[x].(metric := metric);
      assert Exports() == before[x := before[x].(metric := metric)];
      forall k
        ensures XmetricOf(Exports(), k) == if k == before[x].key then Some(metric) else XmetricOf(before, k)
      {
        XmetricOfChanged(before, x, metric, k);
      }
      XmetricOfChanged(before, x, metric, before[x].key);
    }

    // A further export at the end of the array.
    method AppendXroute(entry: Xroute)
      requires Rep() && XmetricOf(Exports(), entry.key).None?
      modifies `xroutes, `xrouteCount, xroutes
      ensures xroutes == old(xroutes) || fresh(xroutes)
      ensures Rep()
      ensures forall k :: XmetricOf(Exports(), k)
                == if k == entry.key then Some(entry.metric) else old(XmetricOf(Exports(), k))
    {
      ghost var before := Exports();
      if xrouteCount >= xroutes.Length {
        ResizeXroutes(if xroutes.Length < 1 then 8 else 2 * xroutes.Length);
      }
      xroutes[xrouteCount] := entry;
      xrouteCount := xrouteCount + 1;
      assert Exports() == before + [entry];
      forall k
        ensures XmetricOf(Exports(), k) == if k == entry.key then Some(entry.metric) else XmetricOf(before, k)
      {
        XmetricOfAppended(before, entry, k);
      }
      XmetricOfAppended(before, entry, entry.key);
    }

    // add_xroute: true when something changed.
    method AddXroute(key: Key, metric: u16, ifindex: int, proto: int) returns (changed: bool)
      requires Rep()
      modifies `xroutes, `xrouteCount, xroutes
      ensures xroutes == old(xroutes) || fresh(xroutes)
      ensures Rep()
      ensures changed == (old(XmetricOf(Exports(), key)).None? || old(XmetricOf(Exports(), key)).value > metric)
      ensures forall k :: XmetricOf(Exports(), k)
                == if k == key && changed then Some(metric) else old(XmetricOf(Exports(), k))
    {
      var x := FindXroute(key);
      if x < 0 {
        AppendXroute(Xroute(key, metric, ifindex, proto));
        return true;
      }
      if xroutes[x].metric <= metric {
        return false;
      }
      SetXmetric(x, metric);
      return true;
    }

    // The last export takes the place of entry x.
    method RemoveXroute(x: nat)
      requires Rep() && x < xrouteCount
      modifies `xroutes, `xrouteCount, xroutes
      ensures xroutes == old(xroutes) || fresh(xroutes)
      ensures Rep()
      ensures forall k :: XmetricOf(Exports(), k)
                == if k == old(xroutes[x].key) then None else old(XmetricOf(Exports(), k))
    {
      ghost var before, key := Exports(), xroutes[x].key;
      if x != xrouteCount - 1 {
        xroutes[x] := xroutes[xrouteCount - 1];
      }
      xrouteCount := xrouteCount - 1;
      assert Exports() == SwappedOut(before, x);
      forall k
        ensures XmetricOf(SwappedOut(before, x), k) == if k == key then None else XmetricOf(before, k)
      {
        XmetricOfSwappedOut(before, x, k);
      }
      XmetricOfSwappedOut(before, x, key);
      if xrouteCount == 0 {
        ResizeXroutes(0);
      } else if xroutes.Length > 8 && xrouteCount < xroutes.Length / 4 {
        ResizeXroutes(xroutes.Length / 2);
      }
    }

    // flush_xroute: the table without this export.
    method FlushXroute(x: nat)
      requires Valid() && x < xrouteCount
      modifies `xroutes, `xrouteCount, xroutes
      ensures xroutes == old(xroutes) || fresh(xroutes)
      ensures Valid()
      ensures forall key :: DestOf(key) == if key == old(xroutes[x].key)
                then Destination.FlushXroute(old(DestOf(key))) else old(DestOf(key))
    {
      ghost var key := xroutes[x].key;
      RemoveXroute(x);
      assert Ok(old(DestOf(key)));
      StillValid(key);
    }

    method UninstallHead(i: nat)
      requires Rep() && i < slotCount
      modifies routes
      ensures Rep()
      ensures forall key :: DestOf(key) == if key == old(routes[i][0].key)
                then Destination.UninstallRoute(old(View(i)), 0) else old(DestOf(key))
    {
      ghost var slots := Slots();
      SlotOfAt(slots, i);
      ReplaceShaped(routes[i], 0, routes[i][0].(installed := false));
      UninstallRoute(i, 0);
      SlotOfReplaced(slots, i, SetInstalled(slots[i], 0, false));
    }

    // xroute_add_new_route, metric being what the redistribution filter returned: exporting a
    // destination uninstalls its learned route first.
    method AddNewXroute(key: Key, metric: u16, ifindex: int, proto: int)
      requires Valid()
      modifies `xroutes, `xrouteCount, xroutes, routes
      ensures xroutes == old(xroutes) || fresh(xroutes)
      ensures Valid()
      ensures DestOf(key) == if Martian(key) then old(DestOf(key))
                             else Destination.AddXroute(old(DestOf(key)), metric, EnvAt(0))
      ensures forall k :: k != key ==> DestOf(k) == old(DestOf(k))
    {
      if Martian(key) || metric >= INFINITY {
        return;
      }
      AddXrouteOk(DestOf(key), metric, EnvAt(0));
      var changed := AddXroute(key, metric, ifindex, proto);
      if changed {
        var i := FindInstalledRoute(key);
        if i >= 0 && (allowDuplicates < 0 || metric < allowDuplicates) {
          UninstallHead(i);
        }
      }
      StillValid(key);
    }

    // ---- sources again

    // update_source for the installed route to key, advertised with metric.
    method RecordAdvertised(key: Key, metric: u16, now: int)
      requires Valid() && HasInstalled(DestOf(key))
      modifies `srcs
      ensures Valid()
      ensures DestOf(key) == Advertised(old(DestOf(key)), now, metric)
      ensures forall k :: k != key ==> DestOf(k) == old(DestOf(k))
    {
      assert Ok(DestOf(key)) && (allowDuplicates < 0 ==> Exclusive(DestOf(key)));
      var i := FindInstalledRoute(key);
      var r := routes[i][0];
      var s := FindSourceEntry(r.src, key);
      SetSource(s, UpdateSource(srcs[s].source, now, r.seqno, metric));
      StillValid(key);
    }

    // expire_sources: the walk drops stale sources, but none that a route still refers to.
    method SweepSources(now: int)
      modifies `srcs
      ensures srcs == ExpireList(old(srcs), now)
    {
      ghost var done: seq<SourceEntry>, rest: seq<SourceEntry> := [], srcs;
      var s: nat := 0;
      assert srcs == [] + rest && ExpireList(srcs, now) == [] + ExpireList(rest, now);
      while s < |srcs|
        invariant srcs == done + rest && s == |done|
        invariant ExpireList(old(srcs), now) == done + ExpireList(rest, now)
        decreases |rest|
      {
        ghost var kept := rest[0].(source := ClockGuard(rest[0].source, now));
        SweepStep(done, rest, kept);
        Associative(done, [kept], ExpireList(rest[1..], now));
        var src := srcs[s].source;
        if src.time > now {
          src := src.(time := now);
        }
        if Stale(src, now) && src.routeCount == 0 {
          assert [] + ExpireList(rest[1..], now) == ExpireList(rest[1..], now);
          srcs := srcs[..s] + srcs[s + 1..];
        } else {
          srcs := srcs[s := srcs[s].(source := src)];
          done := done + [kept];
          s := s + 1;
        }
        rest := rest[1..];
      }
      assert rest == [] && done + [] == done;
    }

    static lemma SweepStep(done: seq<SourceEntry>, rest: seq<SourceEntry>, e: SourceEntry)
      requires rest != []
      ensures (done + rest)[|done|] == rest[0]
      ensures (done + rest)[..|done|] + (done + rest)[|done| + 1..] == done + rest[1..]
      ensures (done + rest)[|done| := e] == (done + [e]) + rest[1..]
    {
    }

    method ExpireSources(now: int)
      requires Valid()
      modifies `srcs
      ensures Valid()
      ensures forall key :: DestOf(key) == Destination.ExpireSources(old(DestOf(key)), now)
    {
      SweepSources(now);
      ExpireListUnique(old(srcs), now);
      forall key
        ensures DestOf(key) == Destination.ExpireSources(old(DestOf(key)), now)
      {
        ExpireListView(old(srcs), key, now);
      }
      forall key
        ensures Ok(DestOf(key)) && (allowDuplicates < 0 ==> Exclusive(DestOf(key)))
      {
        assert Ok(old(DestOf(key)));
        ExpireSourcesOk(old(DestOf(key)), now);
      }
    }
  }
}
