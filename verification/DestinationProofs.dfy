// Every operation on a destination keeps its invariant, keeps exports and installed routes apart,
// and installs nothing but routes that are feasible at that moment.
module DestinationProofs {
  import opened Util
  import opened Feasibility
  import opened Destination
  import Seqno

  ghost predicate Shaped(s: Slot) {
    HopsUnique(s) && InstalledFirst(s)
  }

  // r and t are the same route, installed or not.
  predicate SameRoute(r: Route, t: Route) {
    r.(installed := false) == t.(installed := false)
  }

  // The slot holds this route, installed or not.
  ghost predicate Has(s: Slot, r: Route) {
    exists i :: 0 <= i < |s| && SameRoute(s[i], r)
  }

  ghost predicate Rearranged(s: Slot, t: Slot) {
    && |t| == |s|
    && (forall id :: Count(t, id) == Count(s, id))
    && (forall r :: Has(t, r) <==> Has(s, r))
  }

  ghost predicate NewlyInstalled(d: Dest, i: int, r: Route, now: int) {
    0 <= i < |d.slot| && !d.slot[i].installed && r == d.slot[i].(installed := true) && Feasible(d, d.slot[i], now)
  }

  // The installed route after a decision: still the one installed before, unchanged, or one that
  // was not installed but feasible, at a destination no export shadows.
  ghost predicate Chosen(d: Dest, d': Dest, env: Env) {
    HasInstalled(d') ==>
      || (HasInstalled(d) && d'.slot[0] == d.slot[0])
      || (!Shadowed(d, env)
          && exists i :: NewlyInstalled(d, i, d'.slot[0], env.now))
  }

  // A decision only rearranges the slot and changes which route is installed.
  ghost predicate Settled(d: Dest, d': Dest, env: Env) {
    && d'.srcs == d.srcs && d'.xroute == d.xroute
    && Shaped(d'.slot) && Rearranged(d.slot, d'.slot) && Chosen(d, d', env)
  }

  lemma SettledRefl(d: Dest, env: Env)
    requires Shaped(d.slot)
    ensures Settled(d, d, env)
  {
  }

  // Where position m of the slot comes from when position i is moved to the front.
  function Origin(i: nat, m: nat): nat {
    if m == 0 then i else if m <= i then m - 1 else m
  }

  lemma MoveToFrontHops(s: Slot, u: Slot, i: nat)
    requires HopsUnique(s) && i < |s| == |u| && forall j :: 0 <= j < |s| ==> u[j].hop == s[j].hop
    ensures HopsUnique(MoveToFront(u, i))
  {
    var t := MoveToFront(u, i);
    forall p: nat, q: nat | p < q < |t|
      ensures t[p].hop != t[q].hop
    {
      var a, b := Origin(i, p), Origin(i, q);
      assert t[p] == u[a] && t[q] == u[b] && a != b;
      assert s[Min(a, b)].hop != s[Max(a, b)].hop;
    }
  }

  // Marking one route as the installed one and moving it to the front, the marks of all others
  // being off, gives a well-shaped rearrangement headed by that route.
  lemma InstallAt(s: Slot, u: Slot, i: nat)
    requires HopsUnique(s) && i < |s| == |u|
    requires u[i] == s[i].(installed := true)
    requires forall j :: 0 <= j < |s| && j != i ==> u[j] == s[j].(installed := false)
    ensures Shaped(MoveToFront(u, i)) && Rearranged(s, MoveToFront(u, i))
    ensures MoveToFront(u, i)[0] == s[i].(installed := true)
  {
    var t := MoveToFront(u, i);
    MoveToFrontHops(s, u, i);
    forall r | Has(t, r)
      ensures Has(s, r)
    {
      var j: nat :| j < |t| && SameRoute(t[j], r);
      assert SameRoute(s[Origin(i, j)], r);
    }
    forall r | Has(s, r)
      ensures Has(t, r)
    {
      var k: nat :| k < |s| && SameRoute(s[k], r);
      assert SameRoute(t[if k == i then 0 else if k < i then k + 1 else k], r);
    }
    forall id
      ensures Count(t, id) == Count(s, id)
    {
      CountMoveToFront(u, i, id);
      CountSameSources(s, u, id);
    }
  }

  lemma {:induction false} CountSameSources(s: Slot, t: Slot, id: RouterId)
    requires |s| == |t| && forall i :: 0 <= i < |s| ==> s[i].src == t[i].src
    ensures Count(s, id) == Count(t, id)
  {
    if s == [] {
    } else {
      assert s[0].src == t[0].src;
      CountSameSources(s[1..], t[1..], id);
    }
  }

  lemma SwitchSettled(d: Dest, i: nat, env: Env, kernelOk: bool)
    requires Shaped(d.slot) && i < |d.slot|
    requires !d.slot[i].installed && Feasible(d, d.slot[i], env.now) && !Shadowed(d, env)
    ensures Settled(d, SwitchRoutes(d, i, kernelOk), env)
  {
    var d' := SwitchRoutes(d, i, kernelOk);
    if d' == d {
      SettledRefl(d, env);
    } else if HasInstalled(d) {
      InstallAt(d.slot, SetInstalled(SetInstalled(d.slot, 0, false), i, true), i);
      assert NewlyInstalled(d, i, d'.slot[0], env.now);
    } else {
      InstallAt(d.slot, SetInstalled(d.slot, i, true), i);
      assert NewlyInstalled(d, i, d'.slot[0], env.now);
    }
  }

  lemma ConsiderSettled(d: Dest, i: nat, env: Env, kernelOk: bool)
    requires Shaped(d.slot) && i < |d.slot|
    ensures Settled(d, ConsiderRoute(d, i, env, kernelOk), env)
  {
    SettledRefl(d, env);
    if !d.slot[i].installed && Feasible(d, d.slot[i], env.now) && !Shadowed(d, env) {
      SwitchSettled(d, i, env, kernelOk);
    }
  }

  lemma RouteChangedSettled(d: Dest, i: nat, oldmetric: u16, env: Env, kernelOk: bool)
    requires Shaped(d.slot) && i < |d.slot|
    ensures Settled(d, RouteChanged(d, i, oldmetric, env, kernelOk), env)
  {
    SettledRefl(d, env);
    ConsiderSettled(d, i, env, kernelOk);
    ConsiderSettled(d, FindBest(d, env.now), env, kernelOk);
  }

  lemma RouteLostSettled(d: Dest, env: Env, kernelOk: bool)
    requires Shaped(d.slot)
    ensures Settled(d, RouteLost(d, env, kernelOk), env)
  {
    SettledRefl(d, env);
    if d.slot != [] {
      ConsiderSettled(d, FindBest(d, env.now), env, kernelOk);
    }
  }

  lemma SettledOk(d: Dest, d': Dest, env: Env)
    requires Settled(d, d', env) && Ok(d)
    ensures Ok(d')
    ensures env.allowDuplicates < 0 && Exclusive(d) ==> Exclusive(d')
  {
    forall j | 0 <= j < |d'.slot|
      ensures d'.slot[j].src in d'.srcs
    {
      assert Has(d'.slot, d'.slot[j]) && Has(d.slot, d'.slot[j]);
    }
  }

  // find_best_route returns the head or an eligible route, and no eligible route behind the head
  // has a smaller metric.
  lemma {:induction false} BestIsBest(d: Dest, now: int, feasible: bool, exclude: Option<Neighbour>, best: nat, k: nat)
    requires best < k <= |d.slot|
    ensures var b := BestFrom(d, now, feasible, exclude, best, k);
            && (b == best || (k <= b && Eligible(d, d.slot[b], now, feasible, exclude)
                              && RouteMetric(d.slot[b]) < RouteMetric(d.slot[best])))
            && RouteMetric(d.slot[b]) <= RouteMetric(d.slot[best])
            && forall j :: k <= j < |d.slot| && Eligible(d, d.slot[j], now, feasible, exclude)
                           ==> RouteMetric(d.slot[b]) <= RouteMetric(d.slot[j])
    decreases |d.slot| - k
  {
    if k == |d.slot| {
    } else {
      if Eligible(d, d.slot[k], now, feasible, exclude) && RouteMetric(d.slot[k]) < RouteMetric(d.slot[best]) {
        BestIsBest(d, now, feasible, exclude, k, k + 1);
      } else {
        BestIsBest(d, now, feasible, exclude, best, k + 1);
      }
    }
  }

  // ---- the operations

  // Replacing a route by one through the same hop, no more installed than before, keeps the shape.
  lemma ReplaceShaped(s: Slot, i: nat, r: Route)
    requires Shaped(s) && i < |s| && r.hop == s[i].hop && (r.installed ==> s[i].installed)
    ensures Shaped(s[i := r])
  {
  }

  lemma SettledTrans(d1: Dest, d2: Dest, d3: Dest, env: Env)
    requires Shaped(d1.slot) && Settled(d1, d2, env) && Settled(d2, d3, env)
    ensures Settled(d1, d3, env)
  {
    if HasInstalled(d3) && !(HasInstalled(d2) && d3.slot[0] == d2.slot[0]) {
      var k :| NewlyInstalled(d2, k, d3.slot[0], env.now);
      assert Has(d2.slot, d2.slot[k]) && Has(d1.slot, d2.slot[k]);
      var i :| 0 <= i < |d1.slot| && SameRoute(d1.slot[i], d2.slot[k]);
      if d1.slot[i].installed {
        assert i == 0;
      } else {
        assert NewlyInstalled(d1, i, d3.slot[0], env.now);
      }
    }
  }

  // The decisions on a stored update only settle it.
  lemma UpdateDecidedSettled(d: Dest, i: nat, u: Update, env: Env, k: Kernel)
    requires Shaped(d.slot) && i < |d.slot| && u.id in d.srcs
    ensures Shaped(UpdateStored(d, i, u, env, k).slot)
    ensures Settled(UpdateStored(d, i, u, env, k), UpdateDecided(d, i, u, env, k), env)
  {
    var d1 := UpdateStored(d, i, u, env, k);
    ReplaceShaped(d.slot, i, UpdatedRoute(d, i, u, env, k));
    RouteChangedSettled(d1, i, RouteMetric(d.slot[i]), env, k.changedOk);
    if LosesInstalled(d, i, u, env) {
      var d2 := RouteChanged(d1, i, RouteMetric(d.slot[i]), env, k.changedOk);
      RouteLostSettled(d2, env, k.lostOk);
      SettledTrans(d1, d2, RouteLost(d2, env, k.lostOk), env);
    }
  }

  // A route that switches sources is counted with the new one and no longer with the old one.
  lemma UpdateKnownOk(d: Dest, i: nat, u: Update, env: Env, k: Kernel)
    requires Ok(d) && i < |d.slot| && u.id in d.srcs
    ensures Ok(UpdateKnown(d, i, u, env, k))
    ensures env.allowDuplicates < 0 && Exclusive(d) ==> Exclusive(UpdateKnown(d, i, u, env, k))
  {
    var d1, d3 := UpdateStored(d, i, u, env, k), UpdateDecided(d, i, u, env, k);
    UpdateDecidedSettled(d, i, u, env, k);
    CountPositive(d.slot, i);
    forall id | id in d.srcs
      ensures UpdateKnown(d, i, u, env, k).srcs[id].routeCount == Count(d3.slot, id)
    {
      CountUpdate(d.slot, i, UpdatedRoute(d, i, u, env, k), id);
    }
    forall j | 0 <= j < |d3.slot|
      ensures d3.slot[j].src in d.srcs
    {
      assert Has(d3.slot, d3.slot[j]) && Has(d1.slot, d3.slot[j]);
    }
  }

  lemma UpdateUnknownOk(d: Dest, u: Update, env: Env, k: Kernel)
    requires Ok(d) && u.id in d.srcs && Find(d.slot, u.hop).None?
    ensures Ok(UpdateUnknown(d, u, env, k))
    ensures env.allowDuplicates < 0 && Exclusive(d) ==> Exclusive(UpdateUnknown(d, u, env, k))
  {
    var d' := UpdateUnknown(d, u, env, k);
    if d' != d {
      var r := NewRoute(u, env.now);
      var d1 := d.(slot := d.slot + [r], srcs := Retain(d.srcs, u.id));
      forall id
        ensures Count(d1.slot, id) == Count(d.slot, id) + if id == u.id then 1 else 0
      {
        CountConcat(d.slot, [r], id);
      }
      ConsiderSettled(d1, |d.slot|, env, k.changedOk);
      SettledOk(d1, ConsiderRoute(d1, |d.slot|, env, k.changedOk), env);
    }
  }

  // update_route keeps the invariant, on every update, whatever the kernel answers.
  lemma UpdateRouteOk(d: Dest, self: RouterId, u: Update, env: Env, k: Kernel)
    requires Ok(d)
    ensures Ok(UpdateRoute(d, self, u, env, k))
    ensures env.allowDuplicates < 0 && Exclusive(d) ==> Exclusive(UpdateRoute(d, self, u, env, k))
  {
    if u.id != self && u.addMetric < INFINITY {
      EnsureSourceOk(d, u.id, u.seqno, env.now);
      var d1 := EnsureSource(d, u.id, u.seqno, env.now);
      match Find(d.slot, u.hop)
      case Some(i) => UpdateKnownOk(d1, i, u, env, k);
      case None => UpdateUnknownOk(d1, u, env, k);
    }
  }

  // Changing the data of one route but not its source, and then deciding, keeps the invariant.
  lemma ReplaceThenChangedOk(d: Dest, i: nat, r: Route, oldmetric: u16, env: Env, kernelOk: bool)
    requires Ok(d) && i < |d.slot|
    requires r.hop == d.slot[i].hop && r.src == d.slot[i].src && r.installed == d.slot[i].installed
    ensures Ok(d.(slot := d.slot[i := r]))
    ensures Ok(RouteChanged(d.(slot := d.slot[i := r]), i, oldmetric, env, kernelOk))
    ensures env.allowDuplicates < 0 && Exclusive(d)
            ==> Exclusive(d.(slot := d.slot[i := r]))
                && Exclusive(RouteChanged(d.(slot := d.slot[i := r]), i, oldmetric, env, kernelOk))
  {
    var d1 := d.(slot := d.slot[i := r]);
    forall id
      ensures Count(d1.slot, id) == Count(d.slot, id)
    {
      CountUpdate(d.slot, i, r, id);
    }
    RouteChangedSettled(d1, i, oldmetric, env, kernelOk);
    SettledOk(d1, RouteChanged(d1, i, oldmetric, env, kernelOk), env);
  }

  lemma UpdateRouteMetricOk(d: Dest, i: nat, cost: nat, add: u16, env: Env, k: Kernel)
    requires Ok(d) && i < |d.slot|
    ensures Ok(UpdateRouteMetric(d, i, cost, add, env, k))
    ensures env.allowDuplicates < 0 && Exclusive(d) ==> Exclusive(UpdateRouteMetric(d, i, cost, add, env, k))
  {
    var r := d.slot[i];
    var r' := if Expired(r, env.now)
              then RetractRoute(r.(seqno := Seqno.Plus(d.srcs[r.src].seqno, 1)), env, k.metricOk)
              else ChangeRouteMetric(r, r.refmetric, cost, add, env, k.metricOk);
    ReplaceThenChangedOk(d, i, r', RouteMetric(r), env, k.changedOk);
  }

  lemma RetractNeighbourRouteOk(d: Dest, i: nat, env: Env, k: Kernel)
    requires Ok(d) && i < |d.slot|
    ensures Ok(RetractNeighbourRoute(d, i, env, k))
    ensures env.allowDuplicates < 0 && Exclusive(d) ==> Exclusive(RetractNeighbourRoute(d, i, env, k))
  {
    ReplaceThenChangedOk(d, i, RetractRoute(d.slot[i], env, k.metricOk), RouteMetric(d.slot[i]), env, k.changedOk);
  }

  lemma CountWithout(s: Slot, i: nat, id: RouterId)
    requires i < |s|
    ensures Count(Without(s, i), id) == Count(s, id) - if id == s[i].src then 1 else 0
  {
    CountSplit(s, i, id);
    CountConcat(s[..i], s[i + 1..], id);
  }

  lemma WithoutShaped(s: Slot, i: nat)
    requires Shaped(s) && i < |s|
    ensures Shaped(Without(s, i))
    ensures forall j :: 0 <= j < |s| - 1 ==> Without(s, i)[j] == s[if j < i then j else j + 1]
    ensures HopsUnique(s) ==> forall j :: 0 <= j < |s| - 1 ==> Without(s, i)[j].hop != s[i].hop
  {
  }

  // What is left of the slot before the loss is dealt with, and after.
  lemma LossSettled(d: Dest, i: nat, env: Env, kernelOk: bool)
    requires Shaped(d.slot) && i < |d.slot|
    ensures var d1 := d.(slot := Without(d.slot, i));
            && Shaped(d1.slot)
            && Settled(d1, if d.slot[i].installed then RouteLost(d1, env, kernelOk) else d1, env)
  {
    var d1 := d.(slot := Without(d.slot, i));
    WithoutShaped(d.slot, i);
    RouteLostSettled(d1, env, kernelOk);
    SettledRefl(d1, env);
  }

  // The counts of the routes left, however rearranged, are those without the flushed one.
  lemma LeftCounted(d: Dest, i: nat, t: Slot)
    requires Ok(d) && i < |d.slot| && Rearranged(Without(d.slot, i), t)
    ensures d.slot[i].src in d.srcs && d.srcs[d.slot[i].src].routeCount > 0
    ensures Counted(t, Release(d.srcs, d.slot[i].src))
  {
    CountPositive(d.slot, i);
    WithoutShaped(d.slot, i);
    forall id
      ensures Count(t, id) == Count(d.slot, id) - if id == d.slot[i].src then 1 else 0
    {
      CountWithout(d.slot, i, id);
    }
    forall j | 0 <= j < |t|
      ensures t[j].src in d.srcs
    {
      assert Has(t, t[j]) && Has(Without(d.slot, i), t[j]);
    }
  }

  lemma FlushRouteOk(d: Dest, i: nat, env: Env, k: Kernel)
    requires Ok(d) && i < |d.slot|
    ensures Ok(FlushRoute(d, i, env, k))
    ensures env.allowDuplicates < 0 && Exclusive(d) ==> Exclusive(FlushRoute(d, i, env, k))
    ensures Rearranged(Without(d.slot, i), FlushRoute(d, i, env, k).slot)
  {
    LossSettled(d, i, env, k.lostOk);
    LeftCounted(d, i, FlushRoute(d, i, env, k).slot);
  }

  // Exporting a destination takes its installed route out of the kernel first.
  lemma AddXrouteOk(d: Dest, metric: u16, env: Env)
    requires Ok(d)
    ensures Ok(AddXroute(d, metric, env))
    ensures env.allowDuplicates < 0 && Exclusive(d) ==> Exclusive(AddXroute(d, metric, env))
  {
    if HasInstalled(d) {
      CountSameSourcesAll(d.slot, SetInstalled(d.slot, 0, false));
    }
  }

  lemma CountSameSourcesAll(s: Slot, t: Slot)
    requires |s| == |t| && forall i :: 0 <= i < |s| ==> s[i].src == t[i].src
    ensures forall id :: Count(s, id) == Count(t, id)
  {
    forall id
      ensures Count(s, id) == Count(t, id)
    {
      CountSameSources(s, t, id);
    }
  }

  // Garbage collection removes no source a route still uses.
  lemma ExpireSourcesOk(d: Dest, now: int)
    requires Ok(d)
    ensures Ok(ExpireSources(d, now))
    ensures forall i :: 0 <= i < |d.slot| ==> d.slot[i].src in ExpireSources(d, now).srcs
  {
    forall i | 0 <= i < |d.slot|
      ensures d.slot[i].src in ExpireSources(d, now).srcs
    {
      CountPositive(d.slot, i);
    }
  }

  // ---- where routes come from

  // r carries the data of update u.
  predicate FromUpdate(u: Update, r: Route) {
    r.key == u.key && r.hop == u.hop && r.src == u.id && r.seqno == u.seqno && r.refmetric == u.refmetric
    && r.cost == u.cost % 0x1_0000 && r.addMetric == u.addMetric
  }

  // The sources of d' are those of d and possibly id, with the same feasibility distances.
  ghost predicate SameDistances(d: Dest, d': Dest, id: RouterId, seqno: u16, now: int) {
    && d.srcs.Keys <= d'.srcs.Keys <= d.srcs.Keys + {id}
    && (forall s :: s in d.srcs ==> d'.srcs[s].(routeCount := 0) == d.srcs[s].(routeCount := 0))
    && (id !in d.srcs && id in d'.srcs ==> d'.srcs[id].(routeCount := 0) == NewSource(seqno, now))
  }

  lemma SameDistancesFeasible(d: Dest, d': Dest, id: RouterId, seqno: u16, r: Route, now: int)
    requires SameDistances(d, d', id, seqno, now) && r.src in d.srcs
    ensures Feasible(d, r, now) <==> Feasible(d', r, now)
  {
    assert d'.srcs[r.src].(routeCount := 0) == d.srcs[r.src].(routeCount := 0);
  }

  // The installed route of d' is feasible, or was installed before with the same hop and source and
  // is unchanged or updated by u.
  ghost predicate Justified(d: Dest, d': Dest, u: Update, now: int) {
    HasInstalled(d') ==>
      || Feasible(d', d'.slot[0], now)
      || (HasInstalled(d) && d'.slot[0].hop == d.slot[0].hop && d'.slot[0].src == d.slot[0].src
          && (d'.slot[0] == d.slot[0] || FromUpdate(u, d'.slot[0])))
  }

  // The update asks the kernel for a new metric of the route at position i, and the kernel refuses.
  predicate MetricRefused(d: Dest, i: nat, u: Update, env: Env, k: Kernel)
    requires i < |d.slot| && u.id in d.srcs
  {
    && !k.metricOk && !LosesInstalled(d, i, u, env)
    && KernelMetricChanges(d.slot[i], u.refmetric, u.cost, u.addMetric, env)
  }

  // The same for update_route as a whole.
  predicate UpdateRefused(d: Dest, self: RouterId, u: Update, env: Env, k: Kernel) {
    && u.id != self && u.addMetric < INFINITY
    && match Find(d.slot, u.hop)
       case None => false
       case Some(i) => MetricRefused(EnsureSource(d, u.id, u.seqno, env.now), i, u, env, k)
  }

  // r is the old route under the update's source and sequence number, its old distance kept.
  predicate HeldBack(was: Route, u: Update, r: Route) {
    was.hop == u.hop && was.installed
    && r == was.(src := u.id, seqno := u.seqno, time := r.time, holdTime := r.holdTime)
  }

  // A refused update only relabels the installed route.
  predicate OnlyHeldBack(d: Dest, d': Dest, u: Update) {
    |d'.slot| == |d.slot| > 0 && HeldBack(d.slot[0], u, d'.slot[0]) && d'.slot[1..] == d.slot[1..]
  }

  lemma UpdateKnownRefused(d: Dest, i: nat, u: Update, env: Env, k: Kernel)
    requires Ok(d) && i < |d.slot| && u.id in d.srcs && d.slot[i].hop == u.hop
    requires MetricRefused(d, i, u, env, k)
    ensures SameDistances(d, UpdateKnown(d, i, u, env, k), u.id, u.seqno, env.now)
    ensures OnlyHeldBack(d, UpdateKnown(d, i, u, env, k), u)
  {
    CountPositive(d.slot, i);
    assert i == 0;
    var r' := UpdatedRoute(d, 0, u, env, k);
    assert HeldBack(d.slot[0], u, r') && RouteMetric(r') == RouteMetric(d.slot[0]);
  }

  // Routes kept or carrying the update.
  ghost predicate KeptOrUpdated(d: Dest, d': Dest, u: Update) {
    forall j :: 0 <= j < |d'.slot| ==> Has(d.slot, d'.slot[j]) || FromUpdate(u, d'.slot[j])
  }

  // A rearrangement of the slot in which one route carries the update.
  lemma UpdatedKept(d: Dest, i: nat, r: Route, d': Dest, u: Update)
    requires i < |d.slot| && FromUpdate(u, r) && Rearranged(d.slot[i := r], d'.slot)
    ensures KeptOrUpdated(d, d', u)
  {
    var s := d.slot[i := r];
    forall j | 0 <= j < |d'.slot|
      ensures Has(d.slot, d'.slot[j]) || FromUpdate(u, d'.slot[j])
    {
      assert Has(d'.slot, d'.slot[j]) && Has(s, d'.slot[j]);
      var m :| 0 <= m < |s| && SameRoute(s[m], d'.slot[j]);
      assert m != i ==> SameRoute(d.slot[m], d'.slot[j]);
    }
  }

  lemma UpdateKnownDistances(d: Dest, i: nat, u: Update, env: Env, k: Kernel)
    requires Ok(d) && i < |d.slot| && u.id in d.srcs
    ensures SameDistances(d, UpdateKnown(d, i, u, env, k), u.id, u.seqno, env.now)
  {
    CountPositive(d.slot, i);
  }

  // What is chosen once the update is stored in the route at position i is justified.
  lemma StoredJustified(d: Dest, i: nat, r: Route, d1: Dest, d': Dest, u: Update, env: Env)
    requires Ok(d) && i < |d.slot| && d.slot[i].hop == u.hop && u.id in d.srcs && FromUpdate(u, r)
    requires r.installed ==> i == 0 && (r.src == d.slot[0].src || Feasible(d, r, env.now)) && d.slot[0].installed
    requires d1.slot == d.slot[i := r] && d1.srcs == Retain(d.srcs, u.id) && Chosen(d1, d', env)
    requires SameDistances(d, d', u.id, u.seqno, env.now)
    ensures Justified(d, d', u, env.now)
  {
    if HasInstalled(d') {
      if HasInstalled(d1) && d'.slot[0] == d1.slot[0] {
        if i == 0 && r.src != d.slot[0].src {
          SameDistancesFeasible(d, d', u.id, u.seqno, r, env.now);
        }
      } else {
        var m :| NewlyInstalled(d1, m, d'.slot[0], env.now);
        assert d1.slot[m].src in d.srcs;
        SameDistancesFeasible(d, d1, u.id, u.seqno, d1.slot[m], env.now);
        SameDistancesFeasible(d, d', u.id, u.seqno, d'.slot[0], env.now);
      }
    }
  }

  lemma UpdateKnownEffect(d: Dest, i: nat, u: Update, env: Env, k: Kernel)
    requires Ok(d) && i < |d.slot| && u.id in d.srcs && d.slot[i].hop == u.hop && d.slot[i].key == u.key
    requires !MetricRefused(d, i, u, env, k)
    ensures var d' := UpdateKnown(d, i, u, env, k);
            SameDistances(d, d', u.id, u.seqno, env.now) && Justified(d, d', u, env.now) && KeptOrUpdated(d, d', u)
  {
    var d', r := UpdateKnown(d, i, u, env, k), UpdatedRoute(d, i, u, env, k);
    UpdateDecidedSettled(d, i, u, env, k);
    UpdateKnownDistances(d, i, u, env, k);
    UpdatedKept(d, i, r, d', u);
    StoredJustified(d, i, r, UpdateStored(d, i, u, env, k), d', u, env);
  }

  // The effect of update_route. No feasibility distance moves. Unless the kernel refuses a new metric,
  // routes are kept or carry the update and the installed one is justified; if it refuses, the
  // installed route keeps its distance under the update's source and sequence number.
  lemma UpdateRouteEffect(d: Dest, self: RouterId, u: Update, env: Env, k: Kernel)
    requires Ok(d) && OneKey(d.slot, u.key)
    ensures var d' := UpdateRoute(d, self, u, env, k);
            && SameDistances(d, d', u.id, u.seqno, env.now)
            && if UpdateRefused(d, self, u, env, k) then OnlyHeldBack(d, d', u)
               else Justified(d, d', u, env.now) && KeptOrUpdated(d, d', u)
  {
    if u.id == self || u.addMetric >= INFINITY {
      assert forall j :: 0 <= j < |d.slot| ==> Has(d.slot, d.slot[j]);
    } else {
      EnsureSourceOk(d, u.id, u.seqno, env.now);
      var d1 := EnsureSource(d, u.id, u.seqno, env.now);
      match Find(d.slot, u.hop)
      case Some(i) =>
        if MetricRefused(d1, i, u, env, k) {
          UpdateKnownRefused(d1, i, u, env, k);
        } else {
          UpdateKnownEffect(d1, i, u, env, k);
        }
      case None => UpdateUnknownEffect(d1, u, env, k);
    }
  }

  lemma UpdateUnknownEffect(d: Dest, u: Update, env: Env, k: Kernel)
    requires Ok(d) && u.id in d.srcs && Find(d.slot, u.hop).None?
    ensures var d' := UpdateUnknown(d, u, env, k);
            SameDistances(d, d', u.id, u.seqno, env.now) && Justified(d, d', u, env.now) && KeptOrUpdated(d, d', u)
  {
    var d' := UpdateUnknown(d, u, env, k);
    if d' == d {
      assert forall j :: 0 <= j < |d.slot| ==> Has(d.slot, d.slot[j]);
    } else {
      var d1 := d.(slot := d.slot + [NewRoute(u, env.now)], srcs := Retain(d.srcs, u.id));
      WithNewShaped(d.slot, NewRoute(u, env.now));
      ConsiderSettled(d1, |d.slot|, env, k.changedOk);
      NewRouteKept(d, d', u, env.now);
      NewRouteJustified(d, d1, d', u, env);
    }
  }

  lemma WithNewShaped(s: Slot, r: Route)
    requires Shaped(s) && Find(s, r.hop).None? && !r.installed
    ensures Shaped(s + [r])
  {
  }

  lemma NewRouteKept(d: Dest, d': Dest, u: Update, now: int)
    requires Rearranged(d.slot + [NewRoute(u, now)], d'.slot)
    ensures KeptOrUpdated(d, d', u)
  {
    var s := d.slot + [NewRoute(u, now)];
    forall j | 0 <= j < |d'.slot|
      ensures Has(d.slot, d'.slot[j]) || FromUpdate(u, d'.slot[j])
    {
      assert Has(d'.slot, d'.slot[j]) && Has(s, d'.slot[j]);
      var m :| 0 <= m < |s| && SameRoute(s[m], d'.slot[j]);
      assert m < |d.slot| ==> SameRoute(d.slot[m], d'.slot[j]);
    }
  }

  // Appending an uninstalled route to a slot justifies what is then chosen.
  lemma NewRouteJustified(d: Dest, d1: Dest, d': Dest, u: Update, env: Env)
    requires u.id in d.srcs && d1.srcs == Retain(d.srcs, u.id) && d'.srcs == d1.srcs
    requires d1.slot == d.slot + [NewRoute(u, env.now)] && Chosen(d1, d', env)
    ensures Justified(d, d', u, env.now)
  {
    if HasInstalled(d') && !(HasInstalled(d1) && d'.slot[0] == d1.slot[0]) {
      var m :| NewlyInstalled(d1, m, d'.slot[0], env.now);
      assert Feasible(d', d'.slot[0], env.now);
    }
  }

  // The slot holds a route with r's hop and source and, unless r is retracted, its distance.
  ghost predicate Carries(s: Slot, r: Route) {
    exists i :: 0 <= i < |s| && Carried(s[i], r)
  }

  predicate Carried(was: Route, r: Route) {
    was.key == r.key && was.hop == r.hop && was.src == r.src
    && (r.refmetric < INFINITY ==> was.seqno == r.seqno && was.refmetric == r.refmetric)
  }

  predicate CostCounted(r: Route) {
    r.refmetric < INFINITY ==> r.cost >= 1
  }

  ghost predicate CostsCounted(s: Slot) {
    forall j :: 0 <= j < |s| ==> CostCounted(s[j])
  }

  // What an operation that hears no update can do: no feasibility distance moves, every route left
  // has the distance it had or is retracted, and the installed route is feasible or was installed.
  ghost predicate LocalEffect(d: Dest, d': Dest, now: int) {
    && d'.srcs.Keys == d.srcs.Keys
    && (forall s :: s in d.srcs ==> d'.srcs[s].(routeCount := 0) == d.srcs[s].(routeCount := 0))
    && (forall j :: 0 <= j < |d'.slot| ==> Carries(d.slot, d'.slot[j]))
    && (HasInstalled(d') ==> Feasible(d', d'.slot[0], now) || (HasInstalled(d) && Carried(d.slot[0], d'.slot[0])))
  }

  lemma SettledEffect(d: Dest, d1: Dest, d': Dest, env: Env)
    requires Ok(d) && Shaped(d1.slot) && Settled(d1, d', env) && d1.srcs == d.srcs
    requires forall j :: 0 <= j < |d1.slot| ==> Carries(d.slot, d1.slot[j])
    requires HasInstalled(d1) ==> HasInstalled(d) && Carried(d.slot[0], d1.slot[0])
    ensures LocalEffect(d, d', env.now)
    ensures CostsCounted(d1.slot) ==> CostsCounted(d'.slot)
  {
    forall j | 0 <= j < |d'.slot|
      ensures Carries(d.slot, d'.slot[j])
      ensures CostsCounted(d1.slot) ==> CostCounted(d'.slot[j])
    {
      assert Has(d'.slot, d'.slot[j]) && Has(d1.slot, d'.slot[j]);
      var m :| 0 <= m < |d1.slot| && SameRoute(d1.slot[m], d'.slot[j]);
      var i :| 0 <= i < |d.slot| && Carried(d.slot[i], d1.slot[m]);
      assert Carried(d.slot[i], d'.slot[j]);
    }
    if HasInstalled(d') && !(HasInstalled(d1) && d'.slot[0] == d1.slot[0]) {
      var m :| NewlyInstalled(d1, m, d'.slot[0], env.now);
    }
  }

  lemma ReplaceThenChangedEffect(d: Dest, i: nat, r: Route, oldmetric: u16, env: Env, kernelOk: bool)
    requires Ok(d) && i < |d.slot| && Carried(d.slot[i], r) && r.installed == d.slot[i].installed
    ensures LocalEffect(d, d.(slot := d.slot[i := r]), env.now)
    ensures LocalEffect(d, RouteChanged(d.(slot := d.slot[i := r]), i, oldmetric, env, kernelOk), env.now)
    ensures CostsCounted(d.slot) && CostCounted(r)
            ==> CostsCounted(d.slot[i := r])
                && CostsCounted(RouteChanged(d.(slot := d.slot[i := r]), i, oldmetric, env, kernelOk).slot)
  {
    var d1 := d.(slot := d.slot[i := r]);
    ReplaceShaped(d.slot, i, r);
    RouteChangedSettled(d1, i, oldmetric, env, kernelOk);
    SettledRefl(d1, env);
    forall j | 0 <= j < |d1.slot|
      ensures Carries(d.slot, d1.slot[j])
    {
      assert Carried(d.slot[j], d1.slot[j]);
    }
    SettledEffect(d, d1, d1, env);
    SettledEffect(d, d1, RouteChanged(d1, i, oldmetric, env, kernelOk), env);
  }

  lemma UnchangedEffect(d: Dest, now: int)
    ensures LocalEffect(d, d, now)
  {
    forall j | 0 <= j < |d.slot|
      ensures Carries(d.slot, d.slot[j])
    {
      assert Carried(d.slot[j], d.slot[j]);
    }
  }

  // An expired installed route is to be retracted under a new sequence number, and the kernel refuses.
  predicate ExpiryRefused(d: Dest, i: nat, env: Env, k: Kernel)
    requires i < |d.slot| && d.slot[i].src in d.srcs
  {
    var r := d.slot[i];
    && !k.metricOk && Expired(r, env.now) && r.seqno != Seqno.Plus(d.srcs[r.src].seqno, 1)
    && KernelMetricChanges(r, INFINITY, INFINITY, 0, env)
  }

  // Only the sequence number of the route at position i changes, to the one after its source's.
  function Renumbered(d: Dest, i: nat): Dest
    requires i < |d.slot| && d.slot[i].src in d.srcs
  {
    d.(slot := d.slot[i := d.slot[i].(seqno := Seqno.Plus(d.srcs[d.slot[i].src].seqno, 1))])
  }

  // The effect of update_route_metric: unless the kernel refuses to retract an expired route it is
  // local; if it does, that route keeps its distance under the next sequence number.
  lemma UpdateRouteMetricEffect(d: Dest, i: nat, cost: nat, add: u16, env: Env, k: Kernel)
    requires Ok(d) && i < |d.slot| && cost % 0x1_0000 >= 1
    ensures var d' := UpdateRouteMetric(d, i, cost, add, env, k);
            && (if ExpiryRefused(d, i, env, k) then d' == Renumbered(d, i) else LocalEffect(d, d', env.now))
            && (CostsCounted(d.slot) ==> CostsCounted(d'.slot))
  {
    var r := d.slot[i];
    if Expired(r, env.now) {
      if r.refmetric >= INFINITY {
        UnchangedEffect(d, env.now);
      } else if !ExpiryRefused(d, i, env, k) {
        var r' := RetractRoute(r.(seqno := Seqno.Plus(d.srcs[r.src].seqno, 1)), env, k.metricOk);
        ReplaceThenChangedEffect(d, i, r', RouteMetric(r), env, k.changedOk);
      }
    } else {
      var r' := ChangeRouteMetric(r, r.refmetric, cost, add, env, k.metricOk);
      ReplaceThenChangedEffect(d, i, r', RouteMetric(r), env, k.changedOk);
    }
  }

  lemma RetractNeighbourRouteEffect(d: Dest, i: nat, env: Env, k: Kernel)
    requires Ok(d) && i < |d.slot|
    ensures var d' := RetractNeighbourRoute(d, i, env, k);
            && LocalEffect(d, d', env.now)
            && (CostsCounted(d.slot) ==> CostsCounted(d'.slot))
  {
    var r' := RetractRoute(d.slot[i], env, k.metricOk);
    ReplaceThenChangedEffect(d, i, r', RouteMetric(d.slot[i]), env, k.changedOk);
    RouteChangedSettled(d.(slot := d.slot[i := r']), i, RouteMetric(d.slot[i]), env, k.changedOk);
    UnchangedEffect(d, env.now);
  }

  lemma FlushRouteEffect(d: Dest, i: nat, env: Env, k: Kernel)
    requires Ok(d) && i < |d.slot|
    ensures var d' := FlushRoute(d, i, env, k);
            && LocalEffect(d, d', env.now)
            && (CostsCounted(d.slot) ==> CostsCounted(d'.slot))
  {
    var d1 := d.(slot := Without(d.slot, i));
    var d2 := if d.slot[i].installed then RouteLost(d1, env, k.lostOk) else d1;
    CountPositive(d.slot, i);
    WithoutEffect(d.slot, i);
    LossSettled(d, i, env, k.lostOk);
    SettledEffect(d, d1, d2, env);
    ReleaseEffect(d, d2, d.slot[i].src, env.now);
  }

  // Releasing a source moves no feasibility distance.
  lemma ReleaseEffect(d: Dest, d': Dest, id: RouterId, now: int)
    requires LocalEffect(d, d', now) && d'.srcs == d.srcs && id in d.srcs && d.srcs[id].routeCount > 0
    ensures LocalEffect(d, d'.(srcs := Release(d.srcs, id)), now)
  {
    var d2 := d'.(srcs := Release(d.srcs, id));
    if HasInstalled(d') {
      assert Feasible(d', d'.slot[0], now) == Feasible(d2, d'.slot[0], now);
    }
  }

  lemma WithoutEffect(s: Slot, i: nat)
    requires Shaped(s) && i < |s|
    ensures forall j :: 0 <= j < |s| - 1 ==> Carries(s, Without(s, i)[j])
    ensures CostsCounted(s) ==> CostsCounted(Without(s, i))
    ensures Without(s, i) != [] && Without(s, i)[0].installed ==> i != 0 && Without(s, i)[0] == s[0]
  {
    WithoutShaped(s, i);
    forall j | 0 <= j < |s| - 1
      ensures Carries(s, Without(s, i)[j])
    {
      assert Carried(s[if j < i then j else j + 1], Without(s, i)[j]);
    }
  }

  lemma AddXrouteEffect(d: Dest, metric: u16, env: Env)
    requires Ok(d)
    ensures var d' := AddXroute(d, metric, env);
            && LocalEffect(d, d', env.now)
            && (CostsCounted(d.slot) ==> CostsCounted(d'.slot))
  {
    var d' := AddXroute(d, metric, env);
    forall j | 0 <= j < |d'.slot|
      ensures Carries(d.slot, d'.slot[j])
    {
      assert Carried(d.slot[j], d'.slot[j]);
    }
  }
}
