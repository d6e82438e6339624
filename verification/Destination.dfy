// What a Babel node does for one destination (one prefix and prefix length): the routes it has
// learned, the installed one first, the sources they come from, and the route it exports itself.
// These functions specify the methods of RouteTable and are the node steps of Network
// (qsrx/babeld/route.c, qsrx/babeld/route.h, qsrx/babeld/xroute.c).
module Destination {
  import opened Util
  import opened Feasibility
  import opened Prefix
  import Seqno

  type RouterId = nat

  datatype Neighbour = Neighbour(node: RouterId, ifp: nat)
  datatype Address = Address(v4mapped: bool, host: nat)

  // What tells two routes to the same destination apart.
  datatype Hop = Hop(neigh: Neighbour, nexthop: Address)

  datatype Route = Route(key: Key, src: RouterId, refmetric: u16, cost: u16, addMetric: u16, seqno: u16,
                         hop: Hop, time: int, holdTime: int, installed: bool)

  type Slot = seq<Route>

  datatype Dest = Dest(slot: Slot, srcs: map<RouterId, Source>, xroute: Option<u16>)

  // Settings and clock during one operation.
  datatype Env = Env(now: int, allowDuplicates: int, keepUnfeasible: bool, kernelMetric: int)

  // Whether the kernel accepts each kind of change one operation may ask for: a new metric for the
  // installed route, the switch decided after a route changed, the one decided after a route was lost.
  datatype Kernel = Kernel(metricOk: bool, changedOk: bool, lostOk: bool)

  // An update received from a neighbour, with the link cost and input-filter result of the moment.
  datatype Update = Update(key: Key, id: RouterId, seqno: u16, refmetric: u16, interval: u16,
                           hop: Hop, cost: nat, addMetric: u16)

  // ---- reading a route

  function RouteMetric(r: Route): u16 {
    Min(r.refmetric + r.cost + r.addMetric, INFINITY)
  }

  // The metric advertised on an interface the route does not interfere with; factor is in 256ths.
  function RouteMetricNoninterfering(r: Route, factor: nat): u16 {
    var m := r.refmetric + (factor * r.cost + 128) / 256 + r.addMetric;
    Min(Max(m, r.refmetric + 1), INFINITY)
  }

  predicate Expired(r: Route, now: int) {
    r.time < now - r.holdTime
  }

  predicate RouteOld(r: Route, now: int) {
    r.time < now - r.holdTime * 7 / 8
  }

  function SourceOf(d: Dest, id: RouterId): Option<Source> {
    if id in d.srcs then Some(d.srcs[id]) else None
  }

  predicate Feasible(d: Dest, r: Route, now: int) {
    UpdateFeasible(SourceOf(d, r.src), now, r.seqno, r.refmetric)
  }

  predicate HasInstalled(d: Dest) {
    |d.slot| > 0 && d.slot[0].installed
  }

  // The position of the route through hop, if there is one.
  function Find(s: Slot, hop: Hop): (i: Option<nat>)
    ensures i.Some? ==> i.value < |s| && s[i.value].hop == hop
    ensures i.None? ==> forall j :: 0 <= j < |s| ==> s[j].hop != hop
  {
    if s == [] then None
    else if s[0].hop == hop then Some(0)
    else match Find(s[1..], hop)
      case None => assert forall j :: 1 <= j < |s| ==> s[j] == s[1..][j - 1]; None
      case Some(k) => Some(k + 1)
  }

  // ---- installing

  function MoveToFront(s: Slot, i: nat): (t: Slot)
    requires i < |s|
    ensures |t| == |s|
  {
    [s[i]] + s[..i] + s[i + 1..]
  }

  function SetInstalled(s: Slot, i: nat, installed: bool): (t: Slot)
    requires i < |s|
    ensures |t| == |s|
  {
    s[i := s[i].(installed := installed)]
  }

  function InstallRoute(d: Dest, i: nat, kernelOk: bool): Dest
    requires i < |d.slot|
  {
    if d.slot[i].installed || HasInstalled(d) || !kernelOk then d
    else d.(slot := MoveToFront(SetInstalled(d.slot, i, true), i))
  }

  function SwitchRoutes(d: Dest, i: nat, kernelOk: bool): Dest
    requires i < |d.slot|
  {
    if !HasInstalled(d) then InstallRoute(d, i, kernelOk)
    else if !kernelOk then d
    else d.(slot := MoveToFront(SetInstalled(SetInstalled(d.slot, 0, false), i, true), i))
  }

  function UninstallRoute(d: Dest, i: nat): Dest
    requires i < |d.slot|
  {
    d.(slot := SetInstalled(d.slot, i, false))
  }

  // ---- choosing

  // The scan of find_best_route from position k, best being the candidate so far.
  function BestFrom(d: Dest, now: int, feasible: bool, exclude: Option<Neighbour>, best: nat, k: nat): (b: nat)
    requires best < |d.slot| && k <= |d.slot|
    ensures b < |d.slot|
    decreases |d.slot| - k
  {
    if k == |d.slot| then best
    else if Eligible(d, d.slot[k], now, feasible, exclude)
            && RouteMetric(d.slot[k]) < RouteMetric(d.slot[best])
    then BestFrom(d, now, feasible, exclude, k, k + 1)
    else BestFrom(d, now, feasible, exclude, best, k + 1)
  }

  predicate Eligible(d: Dest, r: Route, now: int, feasible: bool, exclude: Option<Neighbour>) {
    !Expired(r, now) && (feasible ==> Feasible(d, r, now))
    && (exclude.Some? ==> r.hop.neigh != exclude.value)
  }

  function FindBest(d: Dest, now: int): (b: nat)
    requires d.slot != []
    ensures b < |d.slot|
  {
    BestFrom(d, now, true, None, 0, 1)
  }

  // A local export keeps the learned routes to its destination out of the kernel.
  predicate Shadowed(d: Dest, env: Env) {
    d.xroute.Some? && (env.allowDuplicates < 0 || d.xroute.value >= env.allowDuplicates)
  }

  function ConsiderRoute(d: Dest, i: nat, env: Env, kernelOk: bool): Dest
    requires i < |d.slot|
  {
    var r := d.slot[i];
    if r.installed || !Feasible(d, r, env.now) || Shadowed(d, env) then d
    else if !HasInstalled(d) then SwitchRoutes(d, i, kernelOk)
    else if RouteMetric(r) >= INFINITY then d
    else if RouteMetric(d.slot[0]) >= INFINITY then SwitchRoutes(d, i, kernelOk)
    else if RouteMetric(d.slot[0]) >= RouteMetric(r) + 64 then SwitchRoutes(d, i, kernelOk)
    else d
  }

  function RouteChanged(d: Dest, i: nat, oldmetric: u16, env: Env, kernelOk: bool): Dest
    requires i < |d.slot|
  {
    var r := d.slot[i];
    if !r.installed then ConsiderRoute(d, i, env, kernelOk)
    else if RouteMetric(r) > oldmetric then
      var b := FindBest(d, env.now);
      if RouteMetric(d.slot[b]) <= RouteMetric(r) - 96 then ConsiderRoute(d, b, env, kernelOk) else d
    else d
  }

  function RouteLost(d: Dest, env: Env, kernelOk: bool): Dest {
    if d.slot == [] then d else ConsiderRoute(d, FindBest(d, env.now), env, kernelOk)
  }

  // ---- changing one route

  // Whether the kernel has to be told: its metric only tells finite routes from retracted ones.
  predicate KernelMetricChanges(r: Route, refmetric: u16, cost: nat, add: u16, env: Env) {
    r.installed && env.kernelMetric != INFINITY
    && (RouteMetric(r) < INFINITY) != (refmetric + cost + add < INFINITY)
  }

  // cost is kept in 16 bits.
  function ChangeRouteMetric(r: Route, refmetric: u16, cost: nat, add: u16, env: Env, kernelOk: bool): Route {
    if KernelMetricChanges(r, refmetric, cost, add, env) && !kernelOk then r
    else r.(refmetric := refmetric, cost := cost % 0x1_0000, addMetric := add)
  }

  function RetractRoute(r: Route, env: Env, kernelOk: bool): Route {
    ChangeRouteMetric(r, INFINITY, INFINITY, 0, env, kernelOk)
  }

  function Retain(srcs: map<RouterId, Source>, id: RouterId): map<RouterId, Source>
    requires id in srcs
  {
    srcs[id := srcs[id].(routeCount := srcs[id].routeCount + 1)]
  }

  function Release(srcs: map<RouterId, Source>, id: RouterId): map<RouterId, Source>
    requires id in srcs && srcs[id].routeCount > 0
  {
    srcs[id := srcs[id].(routeCount := srcs[id].routeCount - 1)]
  }

  function HoldTime(interval: u16): int {
    Max(4 * interval / 100 + interval / 50, 15)
  }

  // ---- the invariant

  function Count(s: Slot, id: RouterId): nat {
    if s == [] then 0 else (if s[0].src == id then 1 else 0) + Count(s[1..], id)
  }

  ghost predicate HopsUnique(s: Slot) {
    forall i, j :: 0 <= i < j < |s| ==> s[i].hop != s[j].hop
  }

  ghost predicate InstalledFirst(s: Slot) {
    forall i :: 0 < i < |s| ==> !s[i].installed
  }

  // A slot holds routes to one destination.
  ghost predicate OneKey(s: Slot, key: Key) {
    forall i :: 0 <= i < |s| ==> s[i].key == key
  }

  // Every source is referenced by exactly routeCount routes, and every route's source exists.
  ghost predicate Counted(s: Slot, srcs: map<RouterId, Source>) {
    && (forall i :: 0 <= i < |s| ==> s[i].src in srcs)
    && (forall id :: id in srcs ==> srcs[id].routeCount == Count(s, id))
  }

  ghost predicate Ok(d: Dest) {
    HopsUnique(d.slot) && InstalledFirst(d.slot) && Counted(d.slot, d.srcs)
  }

  // A destination is not both exported and installed from a neighbour.
  ghost predicate Exclusive(d: Dest) {
    d.xroute.Some? ==> !HasInstalled(d)
  }

  // ---- whole operations

  function EnsureSource(d: Dest, id: RouterId, seqno: u16, now: int): (d': Dest)
    ensures id in d'.srcs
  {
    if id in d.srcs then d else d.(srcs := d.srcs[id := NewSource(seqno, now)])
  }

  // An unfeasible update that changes the source of the installed route loses that route.
  predicate LosesInstalled(d: Dest, i: nat, u: Update, env: Env)
    requires i < |d.slot| && u.id in d.srcs
  {
    && !UpdateFeasible(Some(d.srcs[u.id]), env.now, u.seqno, u.refmetric)
    && d.slot[i].installed && u.id != d.slot[i].src
  }

  // The known route at position i with the update's data.
  function UpdatedRoute(d: Dest, i: nat, u: Update, env: Env, k: Kernel): Route
    requires i < |d.slot| && u.id in d.srcs
  {
    var was := d.slot[i];
    var feasible := UpdateFeasible(Some(d.srcs[u.id]), env.now, u.seqno, u.refmetric);
    var r := was.(installed := was.installed && !LosesInstalled(d, i, u, env),
                  src := u.id,
                  time := if (feasible || env.keepUnfeasible) && u.refmetric < INFINITY then env.now else was.time,
                  seqno := u.seqno);
    ChangeRouteMetric(r, u.refmetric, u.cost, u.addMetric, env, k.metricOk).(holdTime := HoldTime(u.interval))
  }

  // The new data stored, the new source retained, the old one not yet released.
  function UpdateStored(d: Dest, i: nat, u: Update, env: Env, k: Kernel): Dest
    requires i < |d.slot| && u.id in d.srcs
  {
    d.(slot := d.slot[i := UpdatedRoute(d, i, u, env, k)], srcs := Retain(d.srcs, u.id))
  }

  // The decisions taken on the stored update.
  function UpdateDecided(d: Dest, i: nat, u: Update, env: Env, k: Kernel): Dest
    requires i < |d.slot| && u.id in d.srcs
  {
    var d' := RouteChanged(UpdateStored(d, i, u, env, k), i, RouteMetric(d.slot[i]), env, k.changedOk);
    if LosesInstalled(d, i, u, env) then RouteLost(d', env, k.lostOk) else d'
  }

  // An update for a route already known, at position i; its source exists.
  function UpdateKnown(d: Dest, i: nat, u: Update, env: Env, k: Kernel): Dest
    requires i < |d.slot| && u.id in d.srcs
    requires Ok(d)
  {
    CountPositive(d.slot, i);
    UpdateDecided(d, i, u, env, k).(srcs := Release(Retain(d.srcs, u.id), d.slot[i].src))
  }

  function NewRoute(u: Update, now: int): Route {
    Route(u.key, u.id, u.refmetric, u.cost % 0x1_0000, u.addMetric, u.seqno, u.hop, now, HoldTime(u.interval), false)
  }

  function UpdateUnknown(d: Dest, u: Update, env: Env, k: Kernel): Dest
    requires u.id in d.srcs
  {
    if u.refmetric >= INFINITY then d
    else if !UpdateFeasible(Some(d.srcs[u.id]), env.now, u.seqno, u.refmetric) && !env.keepUnfeasible then d
    else
      var d1 := d.(slot := d.slot + [NewRoute(u, env.now)], srcs := Retain(d.srcs, u.id));
      ConsiderRoute(d1, |d.slot|, env, k.changedOk)
  }

  // update_route, once its prefix is known not to be martian. self is this node's router-id.
  function UpdateRoute(d: Dest, self: RouterId, u: Update, env: Env, k: Kernel): Dest
    requires Ok(d)
  {
    if u.id == self || u.addMetric >= INFINITY then d
    else
      EnsureSourceOk(d, u.id, u.seqno, env.now);
      var d1 := EnsureSource(d, u.id, u.seqno, env.now);
      match Find(d.slot, u.hop)
      case Some(i) => UpdateKnown(d1, i, u, env, k)
      case None => UpdateUnknown(d1, u, env, k)
  }

  // update_route_metric: cost and add are the link cost and input-filter result of the moment.
  function UpdateRouteMetric(d: Dest, i: nat, cost: nat, add: u16, env: Env, k: Kernel): Dest
    requires i < |d.slot| && d.slot[i].src in d.srcs
  {
    var r := d.slot[i];
    if Expired(r, env.now) then
      if r.refmetric >= INFINITY then d
      else
        var r' := RetractRoute(r.(seqno := Seqno.Plus(d.srcs[r.src].seqno, 1)), env, k.metricOk);
        var d1 := d.(slot := d.slot[i := r']);
        if RouteMetric(r) < INFINITY then RouteChanged(d1, i, RouteMetric(r), env, k.changedOk) else d1
    else
      var r' := ChangeRouteMetric(r, r.refmetric, cost, add, env, k.metricOk);
      var d1 := d.(slot := d.slot[i := r']);
      if RouteMetric(r') != RouteMetric(r) then RouteChanged(d1, i, RouteMetric(r), env, k.changedOk) else d1
  }

  // One route of the walk in retract_neighbour_routes.
  function RetractNeighbourRoute(d: Dest, i: nat, env: Env, k: Kernel): Dest
    requires i < |d.slot|
  {
    var r := d.slot[i];
    if r.refmetric == INFINITY then d
    else
      var d1 := d.(slot := d.slot[i := RetractRoute(r, env, k.metricOk)]);
      if RouteMetric(r) != INFINITY then RouteChanged(d1, i, RouteMetric(r), env, k.changedOk) else d1
  }

  function Without(s: Slot, i: nat): (t: Slot)
    requires i < |s|
    ensures |t| == |s| - 1
  {
    s[..i] + s[i + 1..]
  }

  function FlushRoute(d: Dest, i: nat, env: Env, k: Kernel): Dest
    requires i < |d.slot| && Ok(d)
  {
    var r := d.slot[i];
    var d1 := d.(slot := Without(d.slot, i));
    var d2 := if r.installed then RouteLost(d1, env, k.lostOk) else d1;
    CountPositive(d.slot, i);
    d2.(srcs := Release(d.srcs, r.src))
  }

  // xroute_add_new_route after its filters; metric is the redistribution metric.
  function AddXroute(d: Dest, metric: u16, env: Env): Dest {
    if metric >= INFINITY || (d.xroute.Some? && d.xroute.value <= metric) then d
    else
      var d1 := d.(xroute := Some(metric));
      if HasInstalled(d) && (env.allowDuplicates < 0 || metric < env.allowDuplicates)
      then UninstallRoute(d1, 0) else d1
  }

  function FlushXroute(d: Dest): Dest {
    d.(xroute := None)
  }

  // Recording in the source what was advertised for the installed route.
  function Advertised(d: Dest, now: int, metric: u16): Dest
    requires d.slot != [] && d.slot[0].src in d.srcs
  {
    var r := d.slot[0];
    d.(srcs := d.srcs[r.src := UpdateSource(d.srcs[r.src], now, r.seqno, metric)])
  }

  // expire_sources: the clock guard, then removal of stale sources no route uses.
  function ClockGuard(src: Source, now: int): Source {
    if src.time > now then src.(time := now) else src
  }

  predicate Collectable(src: Source, now: int) {
    Stale(ClockGuard(src, now), now) && src.routeCount == 0
  }

  function ExpireSources(d: Dest, now: int): Dest {
    d.(srcs := map id | id in d.srcs && !Collectable(d.srcs[id], now) :: ClockGuard(d.srcs[id], now))
  }

  // ---- counting routes per source

  lemma {:induction false} CountConcat(s: Slot, t: Slot, id: RouterId)
    ensures Count(s + t, id) == Count(s, id) + Count(t, id)
  {
    if s == [] {
      assert s + t == t;
    } else {
      assert (s + t)[1..] == s[1..] + t;
      CountConcat(s[1..], t, id);
    }
  }

  lemma CountSplit(s: Slot, i: nat, id: RouterId)
    requires i < |s|
    ensures Count(s, id) == Count(s[..i], id) + (if s[i].src == id then 1 else 0) + Count(s[i + 1..], id)
  {
    assert s == s[..i] + ([s[i]] + s[i + 1..]);
    CountConcat(s[..i], [s[i]] + s[i + 1..], id);
    CountConcat([s[i]], s[i + 1..], id);
    assert Count([s[i]], id) == if s[i].src == id then 1 else 0;
  }

  lemma CountPositive(s: Slot, i: nat)
    requires i < |s|
    ensures Count(s, s[i].src) > 0
  {
    CountSplit(s, i, s[i].src);
  }

  lemma CountZero(s: Slot, id: RouterId)
    requires forall i :: 0 <= i < |s| ==> s[i].src != id
    ensures Count(s, id) == 0
  {
    if s == [] {
    } else {
      CountZero(s[1..], id);
    }
  }

  lemma CountUpdate(s: Slot, i: nat, r: Route, id: RouterId)
    requires i < |s|
    ensures Count(s[i := r], id)
            == Count(s, id) - (if s[i].src == id then 1 else 0) + (if r.src == id then 1 else 0)
  {
    CountSplit(s, i, id);
    var t := s[i := r];
    CountSplit(t, i, id);
    assert t[..i] == s[..i] && t[i + 1..] == s[i + 1..];
  }

  lemma CountMoveToFront(s: Slot, i: nat, id: RouterId)
    requires i < |s|
    ensures Count(MoveToFront(s, i), id) == Count(s, id)
  {
    CountSplit(s, i, id);
    CountConcat([s[i]] + s[..i], s[i + 1..], id);
    CountConcat([s[i]], s[..i], id);
    assert Count([s[i]], id) == if s[i].src == id then 1 else 0;
  }

  lemma EnsureSourceOk(d: Dest, id: RouterId, seqno: u16, now: int)
    requires Ok(d)
    ensures Ok(EnsureSource(d, id, seqno, now))
  {
    if id !in d.srcs {
      CountZero(d.slot, id);
    }
  }
}
