// What a node's operations on one destination bring about: updates keep routes alive, usable routes get
// installed, exports are there and stale sources are gone (qsrx/babeld/route.c, qsrx/babeld/xroute.c).
// DestinationProofs says what they leave intact.
module DestinationLaws {
  import opened Util
  import opened Feasibility
  import opened Destination
  import opened DestinationProofs
  import Seqno

  // ---- an update keeps its route alive

  // The update is one that a route lives on: finite, and feasible or kept all the same.
  predicate Accepted(d: Dest, u: Update, env: Env) {
    u.refmetric < INFINITY
    && (UpdateFeasible(SourceOf(d, u.id), env.now, u.seqno, u.refmetric) || env.keepUnfeasible)
  }

  predicate Heeded(self: RouterId, u: Update) {
    u.id != self && u.addMetric < INFINITY
  }

  // When the route through the update's hop was last heard of, and for how long it may be silent.
  predicate Timed(d: Dest, u: Update, env: Env, r: Route) {
    r.holdTime == HoldTime(u.interval)
    && r.time == if Accepted(d, u, env) then env.now
                 else match Find(d.slot, u.hop) case Some(i) => d.slot[i].time case None => env.now
  }

  // All routes through other hops are the same, installed or not.
  ghost predicate OthersKept(d: Dest, d': Dest, hop: Hop) {
    forall r: Route :: r.hop != hop ==> (Has(d'.slot, r) <==> Has(d.slot, r))
  }

  lemma HasFound(s: Slot, r: Route)
    requires Has(s, r)
    ensures Find(s, r.hop).Some?
  {
    var i :| 0 <= i < |s| && SameRoute(s[i], r);
    assert s[i].hop == r.hop;
  }

  lemma OneHop(s: Slot, i: nat, j: nat)
    requires HopsUnique(s) && i < |s| && j < |s| && s[i].hop == s[j].hop
    ensures i == j
  {
  }

  // A rearrangement of a slot in which the route at position i has been replaced.
  lemma ReplacedContent(d: Dest, i: nat, r: Route, d': Dest)
    requires HopsUnique(d.slot) && i < |d.slot| && r.hop == d.slot[i].hop && Rearranged(d.slot[i := r], d'.slot)
    ensures Find(d'.slot, r.hop).Some? && OthersKept(d, d', r.hop)
    ensures forall j :: 0 <= j < |d'.slot| && d'.slot[j].hop == r.hop ==> SameRoute(d'.slot[j], r)
  {
    var s := d.slot[i := r];
    assert SameRoute(s[i], r) && Has(s, r);
    HasFound(d'.slot, r);
    forall x: Route | x.hop != r.hop
      ensures Has(s, x) <==> Has(d.slot, x)
    {
      if Has(s, x) {
        var m :| 0 <= m < |s| && SameRoute(s[m], x);
        assert SameRoute(d.slot[m], x);
      }
      if Has(d.slot, x) {
        var m :| 0 <= m < |d.slot| && SameRoute(d.slot[m], x);
        assert SameRoute(s[m], x);
      }
    }
    forall j | 0 <= j < |d'.slot| && d'.slot[j].hop == r.hop
      ensures SameRoute(d'.slot[j], r)
    {
      assert SameRoute(d'.slot[j], d'.slot[j]) && Has(d'.slot, d'.slot[j]) && Has(s, d'.slot[j]);
      var m :| 0 <= m < |s| && SameRoute(s[m], d'.slot[j]);
      OneHop(d.slot, m, i);
    }
  }

  lemma KnownContent(d: Dest, i: nat, u: Update, env: Env, k: Kernel)
    requires Ok(d) && i < |d.slot| && u.id in d.srcs && d.slot[i].hop == u.hop
    ensures var d' := UpdateKnown(d, i, u, env, k);
            && Find(d'.slot, u.hop).Some? && OthersKept(d, d', u.hop)
            && forall j :: 0 <= j < |d'.slot| && d'.slot[j].hop == u.hop
                           ==> SameRoute(d'.slot[j], UpdatedRoute(d, i, u, env, k))
  {
    UpdateDecidedSettled(d, i, u, env, k);
    ReplacedContent(d, i, UpdatedRoute(d, i, u, env, k), UpdateKnown(d, i, u, env, k));
  }

  lemma UnknownContent(d: Dest, u: Update, env: Env, k: Kernel)
    requires Ok(d) && u.id in d.srcs && Find(d.slot, u.hop).None?
    ensures var d' := UpdateUnknown(d, u, env, k);
            && (Find(d'.slot, u.hop).Some? <==> Accepted(d, u, env)) && OthersKept(d, d', u.hop)
            && forall j :: 0 <= j < |d'.slot| && d'.slot[j].hop == u.hop
                           ==> SameRoute(d'.slot[j], NewRoute(u, env.now))
  {
    var d' := UpdateUnknown(d, u, env, k);
    if Accepted(d, u, env) {
      var d1 := d.(slot := d.slot + [NewRoute(u, env.now)], srcs := Retain(d.srcs, u.id));
      WithNewShaped(d.slot, NewRoute(u, env.now));
      ConsiderSettled(d1, |d.slot|, env, k.changedOk);
      AppendedContent(d, NewRoute(u, env.now), d');
    }
  }

  lemma AppendedContent(d: Dest, r: Route, d': Dest)
    requires Find(d.slot, r.hop).None? && Rearranged(d.slot + [r], d'.slot)
    ensures Find(d'.slot, r.hop).Some? && OthersKept(d, d', r.hop)
    ensures forall j :: 0 <= j < |d'.slot| && d'.slot[j].hop == r.hop ==> SameRoute(d'.slot[j], r)
  {
    var s := d.slot + [r];
    assert SameRoute(s[|d.slot|], r) && Has(s, r);
    HasFound(d'.slot, r);
    forall x: Route | x.hop != r.hop
      ensures Has(s, x) <==> Has(d.slot, x)
    {
      if Has(s, x) {
        var m :| 0 <= m < |s| && SameRoute(s[m], x);
        assert SameRoute(d.slot[m], x);
      }
      if Has(d.slot, x) {
        var m :| 0 <= m < |d.slot| && SameRoute(d.slot[m], x);
        assert SameRoute(s[m], x);
      }
    }
    forall j | 0 <= j < |d'.slot| && d'.slot[j].hop == r.hop
      ensures SameRoute(d'.slot[j], r)
    {
      assert SameRoute(d'.slot[j], d'.slot[j]) && Has(d'.slot, d'.slot[j]) && Has(s, d'.slot[j]);
      var m :| 0 <= m < |s| && SameRoute(s[m], d'.slot[j]);
      assert m < |d.slot| ==> d.slot[m].hop != r.hop;
    }
  }

  // A source just created constrains no finite update.
  lemma EnsuredAccepts(d: Dest, u: Update, env: Env)
    ensures Accepted(EnsureSource(d, u.id, u.seqno, env.now), u, env) <==> Accepted(d, u, env)
  {
  }

  // The route has the update's data; only a kernel that refuses the new metric keeps the old distance.
  predicate Told(d: Dest, self: RouterId, u: Update, env: Env, k: Kernel, r: Route) {
    r.src == u.id && r.seqno == u.seqno && (UpdateRefused(d, self, u, env, k) || FromUpdate(u, r))
  }

  // What an update brings about that is heeded.
  ghost predicate Content(d: Dest, self: RouterId, u: Update, env: Env, k: Kernel, d': Dest) {
    && (Find(d'.slot, u.hop).Some? <==> Find(d.slot, u.hop).Some? || Accepted(d, u, env))
    && OthersKept(d, d', u.hop)
    && forall j :: 0 <= j < |d'.slot| && d'.slot[j].hop == u.hop
         ==> Timed(d, u, env, d'.slot[j]) && Told(d, self, u, env, k, d'.slot[j])
  }

  // An update under the node's own router-id, or that the input filter refuses, changes nothing. After any other,
  // whatever the kernel answers: the route through its hop is there if it was before or the update was accepted,
  // and has the update's data; it is marked as heard now exactly if the update was accepted; and all other routes
  // are there with all their data.
  lemma UpdateRouteContent(d: Dest, self: RouterId, u: Update, env: Env, k: Kernel)
    requires Ok(d) && OneKey(d.slot, u.key)
    ensures if Heeded(self, u) then Content(d, self, u, env, k, UpdateRoute(d, self, u, env, k))
            else UpdateRoute(d, self, u, env, k) == d
  {
    if Heeded(self, u) {
      EnsureSourceOk(d, u.id, u.seqno, env.now);
      match Find(d.slot, u.hop)
      case Some(i) => HeardAgain(d, self, i, u, env, k);
      case None => HeardFirst(d, self, u, env, k);
    }
  }

  lemma HeardAgain(d: Dest, self: RouterId, i: nat, u: Update, env: Env, k: Kernel)
    requires Ok(d) && OneKey(d.slot, u.key) && Heeded(self, u) && Find(d.slot, u.hop) == Some(i)
    requires Ok(EnsureSource(d, u.id, u.seqno, env.now))
    ensures Content(d, self, u, env, k, UpdateKnown(EnsureSource(d, u.id, u.seqno, env.now), i, u, env, k))
  {
    var d1 := EnsureSource(d, u.id, u.seqno, env.now);
    EnsuredAccepts(d, u, env);
    KnownContent(d1, i, u, env, k);
    var r := UpdatedRoute(d1, i, u, env, k);
    assert Timed(d, u, env, r);
    assert Told(d, self, u, env, k, r);
  }

  lemma HeardFirst(d: Dest, self: RouterId, u: Update, env: Env, k: Kernel)
    requires Ok(d) && Heeded(self, u) && Find(d.slot, u.hop).None?
    requires Ok(EnsureSource(d, u.id, u.seqno, env.now))
    ensures Content(d, self, u, env, k, UpdateUnknown(EnsureSource(d, u.id, u.seqno, env.now), u, env, k))
  {
    var d1 := EnsureSource(d, u.id, u.seqno, env.now);
    EnsuredAccepts(d, u, env);
    UnknownContent(d1, u, env, k);
    var r := NewRoute(u, env.now);
    assert Accepted(d, u, env) ==> Timed(d, u, env, r) && Told(d, self, u, env, k, r);
  }

  // The hold time is at least 15 seconds, and otherwise six update intervals up to a second.
  lemma HoldTimeLaw(interval: u16)
    ensures 15 <= HoldTime(interval) <= Max(15, 6 * interval / 100) <= HoldTime(interval) + 1
  {
  }

  // So a route that is heard of expires exactly if it is then silent for longer than its hold time, and is old
  // from seven eighths of it on.
  lemma HeardStaysFresh(d: Dest, self: RouterId, u: Update, env: Env, k: Kernel, j: nat, now: int)
    requires Ok(d) && OneKey(d.slot, u.key) && Heeded(self, u) && Accepted(d, u, env)
    requires j < |UpdateRoute(d, self, u, env, k).slot| && UpdateRoute(d, self, u, env, k).slot[j].hop == u.hop
    ensures var r, silent := UpdateRoute(d, self, u, env, k).slot[j], now - env.now;
            && (Expired(r, now) <==> silent > HoldTime(u.interval))
            && (RouteOld(r, now) <==> 8 * silent > 7 * HoldTime(u.interval))
            && (silent <= Max(15, 6 * u.interval / 100 - 1) ==> !Expired(r, now))
  {
    UpdateRouteContent(d, self, u, env, k);
    HoldTimeLaw(u.interval);
  }

  // ---- measuring and retracting

  // The kernel may keep an installed route as it was.
  predicate Held(r: Route, k: Kernel) {
    r.installed && !k.metricOk
  }

  // A route found expired is retracted, under the sequence number after its source's; any other takes the cost and
  // the filter's result of the moment. No other route changes.
  lemma MeasuredContent(d: Dest, i: nat, cost: nat, add: u16, env: Env, k: Kernel)
    requires Ok(d) && i < |d.slot|
    ensures var d', was := UpdateRouteMetric(d, i, cost, add, env, k), d.slot[i];
            && Find(d'.slot, was.hop).Some? && OthersKept(d, d', was.hop)
            && forall j :: 0 <= j < |d'.slot| && d'.slot[j].hop == was.hop
                 ==> var r := d'.slot[j];
                     && r.src == was.src && r.time == was.time && r.holdTime == was.holdTime
                     && if Expired(was, env.now)
                        then (r.refmetric == INFINITY || Held(was, k))
                             && r.seqno == if was.refmetric < INFINITY then (d.srcs[was.src].seqno + 1) % 0x1_0000
                                           else was.seqno
                        else r.refmetric == was.refmetric && r.seqno == was.seqno
                             && (RouteMetric(r) == Min(was.refmetric + cost % 0x1_0000 + add, INFINITY) || Held(was, k))
  {
    var was, d' := d.slot[i], UpdateRouteMetric(d, i, cost, add, env, k);
    var late := Expired(was, env.now);
    var r := if !late then ChangeRouteMetric(was, was.refmetric, cost, add, env, k.metricOk)
             else if was.refmetric >= INFINITY then was
             else RetractRoute(was.(seqno := Seqno.Plus(d.srcs[was.src].seqno, 1)), env, k.metricOk);
    ReplacedAndChanged(d, i, r, d', env, k);
  }

  lemma ReplacedAndChanged(d: Dest, i: nat, r: Route, d': Dest, env: Env, k: Kernel)
    requires Ok(d) && i < |d.slot| && r.hop == d.slot[i].hop && r.installed == d.slot[i].installed
    requires var d1 := d.(slot := d.slot[i := r]);
             d' == d1 || d' == RouteChanged(d1, i, RouteMetric(d.slot[i]), env, k.changedOk)
    ensures Find(d'.slot, r.hop).Some? && OthersKept(d, d', r.hop)
    ensures forall j :: 0 <= j < |d'.slot| && d'.slot[j].hop == r.hop ==> SameRoute(d'.slot[j], r)
  {
    var d1 := d.(slot := d.slot[i := r]);
    ReplaceShaped(d.slot, i, r);
    SettledRefl(d1, env);
    RouteChangedSettled(d1, i, RouteMetric(d.slot[i]), env, k.changedOk);
    ReplacedContent(d, i, r, d');
  }

  // A wildcard retraction leaves the route of its neighbour retracted, and changes no other.
  lemma RetractedContent(d: Dest, i: nat, env: Env, k: Kernel)
    requires Ok(d) && i < |d.slot|
    ensures var d', was := RetractNeighbourRoute(d, i, env, k), d.slot[i];
            && Find(d'.slot, was.hop).Some? && OthersKept(d, d', was.hop)
            && forall j :: 0 <= j < |d'.slot| && d'.slot[j].hop == was.hop
                 ==> var r := d'.slot[j];
                     && (r.refmetric == INFINITY || Held(was, k)) && r.seqno == was.seqno
                     && r.src == was.src && r.time == was.time && r.holdTime == was.holdTime
  {
    var was := d.slot[i];
    var r := if was.refmetric == INFINITY then was else RetractRoute(was, env, k.metricOk);
    ReplacedAndChanged(d, i, r, RetractNeighbourRoute(d, i, env, k), env, k);
  }

  // ---- usable routes get installed

  // No export keeps the learned routes out of the kernel.
  predicate Free(d: Dest, env: Env) {
    d.xroute.None? || 0 <= d.xroute.value < env.allowDuplicates
  }

  // The route can be chosen: it is feasible and has not been silent for too long.
  predicate Usable(d: Dest, r: Route, now: int) {
    Feasible(d, r, now) && now - r.time <= r.holdTime
  }

  // A destination with such an export installs nothing; the routes it has stay.
  lemma ExportedStays(d: Dest, i: nat, oldmetric: u16, env: Env, kernelOk: bool)
    requires i < |d.slot| && !Free(d, env)
    ensures ConsiderRoute(d, i, env, kernelOk) == d && RouteChanged(d, i, oldmetric, env, kernelOk) == d
    ensures RouteLost(d, env, kernelOk) == d
  {
  }

  // A feasible route considered leaves the destination with an installed route, which is less than 64 worse;
  // and a route is displaced only if it was unusable or 64 worse.
  lemma ConsiderTakes(d: Dest, i: nat, env: Env)
    requires i < |d.slot| && !d.slot[i].installed && Feasible(d, d.slot[i], env.now) && Free(d, env)
    ensures var d' := ConsiderRoute(d, i, env, true);
            && HasInstalled(d')
            && (RouteMetric(d.slot[i]) < INFINITY ==> RouteMetric(d'.slot[0]) < RouteMetric(d.slot[i]) + 64)
            && (HasInstalled(d) && d'.slot[0] != d.slot[0]
                ==> RouteMetric(d.slot[0]) == INFINITY || RouteMetric(d'.slot[0]) + 64 <= RouteMetric(d.slot[0]))
            && (d'.slot == d.slot || d'.slot[0] == d.slot[i].(installed := true))
  {
  }

  // A route behind the head that can take its place and is that much better.
  ghost predicate BetterBehind(d: Dest, j: int, now: int, metric: int, margin: nat) {
    1 <= j < |d.slot| && Usable(d, d.slot[j], now) && RouteMetric(d.slot[j]) + margin <= metric
  }

  // No usable route behind the head is better.
  ghost predicate NoneBetter(d: Dest, metric: int, now: int) {
    forall j :: 1 <= j < |d.slot| && Usable(d, d.slot[j], now) ==> metric <= RouteMetric(d.slot[j])
  }

  // When the installed route got worse, it is replaced exactly if a usable one is 96 better, and then by the
  // best of these; the destination stays reachable.
  lemma ChangedReplaced(d: Dest, oldmetric: u16, env: Env)
    requires Shaped(d.slot) && HasInstalled(d) && RouteMetric(d.slot[0]) > oldmetric && Free(d, env)
    ensures var d', metric := RouteChanged(d, 0, oldmetric, env, true), RouteMetric(d.slot[0]);
            && HasInstalled(d')
            && (d'.slot[0].hop != d.slot[0].hop <==> exists j :: BetterBehind(d, j, env.now, metric, 96))
            && (d'.slot[0].hop != d.slot[0].hop ==> NoneBetter(d, RouteMetric(d'.slot[0]), env.now))
  {
    var b, metric := FindBest(d, env.now), RouteMetric(d.slot[0]);
    BestIsBest(d, env.now, true, None, 0, 1);
    if b != 0 && RouteMetric(d.slot[b]) + 96 <= metric {
      assert BetterBehind(d, b, env.now, metric, 96);
      ConsiderTakes(d, b, env);
      assert d.slot[0].hop != d.slot[b].hop;
    }
  }

  // When no route is installed and the loss is dealt with: one is installed exactly if the head is feasible
  // or a usable route behind it is better, and none of the usable ones is better than it.
  lemma LostReplaced(d: Dest, env: Env)
    requires d.slot != [] && !d.slot[0].installed && InstalledFirst(d.slot) && Free(d, env)
    ensures var d', metric := RouteLost(d, env, true), RouteMetric(d.slot[0]);
            && (HasInstalled(d') <==> Feasible(d, d.slot[0], env.now)
                                      || exists j :: BetterBehind(d, j, env.now, metric, 1))
            && (HasInstalled(d') ==> RouteMetric(d'.slot[0]) <= metric
                                     && NoneBetter(d, RouteMetric(d'.slot[0]), env.now))
  {
    var b, metric := FindBest(d, env.now), RouteMetric(d.slot[0]);
    BestIsBest(d, env.now, true, None, 0, 1);
    if b != 0 {
      assert BetterBehind(d, b, env.now, metric, 1);
    }
    if Feasible(d, d.slot[b], env.now) {
      ConsiderTakes(d, b, env);
    }
  }

  // Flushing the installed route: the same of the routes left.
  lemma FlushReplaced(d: Dest, i: nat, env: Env, k: Kernel)
    requires Ok(d) && i < |d.slot| && d.slot[i].installed && |d.slot| > 1 && k.lostOk && Free(d, env)
    ensures var left, d' := d.(slot := d.slot[1..]), FlushRoute(d, i, env, k);
            var metric := RouteMetric(left.slot[0]);
            && (HasInstalled(d') <==> Feasible(left, left.slot[0], env.now)
                                      || exists j :: BetterBehind(left, j, env.now, metric, 1))
            && (HasInstalled(d') ==> RouteMetric(d'.slot[0]) <= metric
                                     && NoneBetter(left, RouteMetric(d'.slot[0]), env.now))
  {
    assert i == 0 && Without(d.slot, 0) == d.slot[1..];
    CountPositive(d.slot, 0);
    LostReplaced(d.(slot := d.slot[1..]), env);
  }

  // The metric a route has by the update.
  function HeardMetric(u: Update): u16 {
    Min(u.refmetric + u.cost % 0x1_0000 + u.addMetric, INFINITY)
  }

  // An update that takes the installed route away, its source having changed: another usable route takes its
  // place exactly if one is better than what the update announces, and then the best of them.
  lemma UpdateReplacesLost(d: Dest, self: RouterId, u: Update, env: Env, k: Kernel)
    requires Ok(d) && Heeded(self, u) && Find(d.slot, u.hop) == Some(0) && d.slot[0].installed
    requires LosesInstalled(EnsureSource(d, u.id, u.seqno, env.now), 0, u, env) && k.lostOk && Free(d, env)
    ensures var d' := UpdateRoute(d, self, u, env, k);
            && (HasInstalled(d') <==> exists j :: BetterBehind(d, j, env.now, HeardMetric(u), 1))
            && (HasInstalled(d') ==> NoneBetter(d, RouteMetric(d'.slot[0]), env.now))
  {
    EnsureSourceOk(d, u.id, u.seqno, env.now);
    var d1 := EnsureSource(d, u.id, u.seqno, env.now);
    var d2 := UpdateStored(d1, 0, u, env, k);
    CountPositive(d.slot, 0);
    assert !Feasible(d2, d2.slot[0], env.now) && RouteMetric(d2.slot[0]) == HeardMetric(u);
    assert RouteChanged(d2, 0, RouteMetric(d.slot[0]), env, k.changedOk) == d2;
    LostReplaced(d2, env);
    forall j | 1 <= j < |d.slot|
      ensures d2.slot[j] == d.slot[j]
      ensures Usable(d2, d.slot[j], env.now) <==> Usable(d, d.slot[j], env.now)
    {
      assert d.slot[j].src in d.srcs;
    }
    assert forall j :: BetterBehind(d2, j, env.now, HeardMetric(u), 1)
                       <==> BetterBehind(d, j, env.now, HeardMetric(u), 1);
  }

  // Hearing a feasible update that makes the destination reachable leaves it with an installed route, less than
  // 64 worse than what was heard.
  lemma UpdateReaches(d: Dest, self: RouterId, u: Update, env: Env, k: Kernel)
    requires Ok(d) && Heeded(self, u) && u.refmetric + u.cost + u.addMetric < INFINITY
    requires UpdateFeasible(SourceOf(d, u.id), env.now, u.seqno, u.refmetric)
    requires Free(d, env) && k.metricOk && k.changedOk
    ensures var d' := UpdateRoute(d, self, u, env, k);
            HasInstalled(d') && RouteMetric(d'.slot[0]) < u.refmetric + u.cost + u.addMetric + 64
  {
    EnsureSourceOk(d, u.id, u.seqno, env.now);
    var d1 := EnsureSource(d, u.id, u.seqno, env.now);
    match Find(d.slot, u.hop)
    case Some(i) => KnownReaches(d1, i, u, env, k);
    case None => UnknownReaches(d1, u, env, k);
  }

  lemma UnknownReaches(d: Dest, u: Update, env: Env, k: Kernel)
    requires Ok(d) && u.id in d.srcs && u.refmetric + u.cost + u.addMetric < INFINITY
    requires UpdateFeasible(Some(d.srcs[u.id]), env.now, u.seqno, u.refmetric) && Free(d, env) && k.changedOk
    ensures var d' := UpdateUnknown(d, u, env, k);
            HasInstalled(d') && RouteMetric(d'.slot[0]) < u.refmetric + u.cost + u.addMetric + 64
  {
    var d1 := d.(slot := d.slot + [NewRoute(u, env.now)], srcs := Retain(d.srcs, u.id));
    ConsiderTakes(d1, |d.slot|, env);
  }

  lemma KnownReaches(d: Dest, i: nat, u: Update, env: Env, k: Kernel)
    requires Ok(d) && i < |d.slot| && u.id in d.srcs && u.refmetric + u.cost + u.addMetric < INFINITY
    requires UpdateFeasible(Some(d.srcs[u.id]), env.now, u.seqno, u.refmetric) && Free(d, env)
    requires k.metricOk && k.changedOk
    ensures var d' := UpdateKnown(d, i, u, env, k);
            HasInstalled(d') && RouteMetric(d'.slot[0]) < u.refmetric + u.cost + u.addMetric + 64
  {
    var d1 := UpdateStored(d, i, u, env, k);
    assert Feasible(d1, d1.slot[i], env.now) && RouteMetric(d1.slot[i]) == u.refmetric + u.cost + u.addMetric;
    assert d1.slot[i].installed ==> i == 0;
    ChangedReaches(d1, i, RouteMetric(d.slot[i]), env);
  }

  // Deciding on a feasible route leaves the destination with an installed one.
  lemma ChangedReaches(d: Dest, i: nat, oldmetric: u16, env: Env)
    requires i < |d.slot| && Feasible(d, d.slot[i], env.now) && RouteMetric(d.slot[i]) < INFINITY && Free(d, env)
    requires InstalledFirst(d.slot)
    ensures var d' := RouteChanged(d, i, oldmetric, env, true);
            HasInstalled(d') && RouteMetric(d'.slot[0]) < RouteMetric(d.slot[i]) + 64
  {
    if !d.slot[i].installed {
      ConsiderTakes(d, i, env);
    } else if RouteMetric(d.slot[i]) > oldmetric {
      BestIsBest(d, env.now, true, None, 0, 1);
      var b := FindBest(d, env.now);
      if RouteMetric(d.slot[b]) <= RouteMetric(d.slot[i]) - 96 {
        ConsiderTakes(d, b, env);
      }
    }
  }

  // Changing the data of the installed route for the worse, and deciding: it is replaced exactly if a usable route
  // is 96 better than what it is now.
  lemma WorsenedReplaced(d: Dest, d1: Dest, r: Route, oldmetric: u16, env: Env)
    requires Ok(d) && HasInstalled(d) && r.hop == d.slot[0].hop && r.installed && Free(d, env)
    requires d1.slot == d.slot[0 := r] && d1.xroute == d.xroute && RouteMetric(r) > oldmetric
    requires forall x: Route :: x in d.slot ==> (Feasible(d1, x, env.now) <==> Feasible(d, x, env.now))
    ensures var d' := RouteChanged(d1, 0, oldmetric, env, true);
            && HasInstalled(d')
            && (d'.slot[0].hop != r.hop <==> exists j :: BetterBehind(d, j, env.now, RouteMetric(r), 96))
            && (d'.slot[0].hop != r.hop ==> NoneBetter(d, RouteMetric(d'.slot[0]), env.now))
  {
    ReplaceShaped(d.slot, 0, r);
    ChangedReplaced(d1, oldmetric, env);
    forall j | 1 <= j < |d.slot|
      ensures d1.slot[j] == d.slot[j]
      ensures Usable(d1, d.slot[j], env.now) <==> Usable(d, d.slot[j], env.now)
    {
      assert d.slot[j] in d.slot;
    }
    assert forall j :: BetterBehind(d1, j, env.now, RouteMetric(r), 96)
                       <==> BetterBehind(d, j, env.now, RouteMetric(r), 96);
  }

  // The installed route is retracted.
  lemma RetractReplaced(d: Dest, env: Env, k: Kernel)
    requires Ok(d) && HasInstalled(d) && RouteMetric(d.slot[0]) < INFINITY && Free(d, env)
    requires k.metricOk && k.changedOk
    ensures var d', hop := RetractNeighbourRoute(d, 0, env, k), d.slot[0].hop;
            && HasInstalled(d')
            && (d'.slot[0].hop != hop <==> exists j :: BetterBehind(d, j, env.now, INFINITY, 96))
            && (d'.slot[0].hop != hop ==> NoneBetter(d, RouteMetric(d'.slot[0]), env.now))
  {
    var r := RetractRoute(d.slot[0], env, k.metricOk);
    WorsenedReplaced(d, d.(slot := d.slot[0 := r]), r, RouteMetric(d.slot[0]), env);
  }

  // The installed route, not expired, is measured and found worse.
  lemma MeasureReplaced(d: Dest, cost: nat, add: u16, env: Env, k: Kernel)
    requires Ok(d) && HasInstalled(d) && !Expired(d.slot[0], env.now) && Free(d, env) && k.metricOk && k.changedOk
    requires Min(d.slot[0].refmetric + cost % 0x1_0000 + add, INFINITY) > RouteMetric(d.slot[0])
    ensures var d', r := UpdateRouteMetric(d, 0, cost, add, env, k), d.slot[0];
            var metric := Min(r.refmetric + cost % 0x1_0000 + add, INFINITY);
            && HasInstalled(d')
            && (d'.slot[0].hop != r.hop <==> exists j :: BetterBehind(d, j, env.now, metric, 96))
            && (d'.slot[0].hop != r.hop ==> NoneBetter(d, RouteMetric(d'.slot[0]), env.now))
  {
    var r := ChangeRouteMetric(d.slot[0], d.slot[0].refmetric, cost, add, env, k.metricOk);
    WorsenedReplaced(d, d.(slot := d.slot[0 := r]), r, RouteMetric(d.slot[0]), env);
  }

  // The installed route expires: it is retracted.
  lemma ExpiryReplaced(d: Dest, cost: nat, add: u16, env: Env, k: Kernel)
    requires Ok(d) && HasInstalled(d) && Expired(d.slot[0], env.now) && RouteMetric(d.slot[0]) < INFINITY
    requires Free(d, env) && k.metricOk && k.changedOk
    ensures var d', hop := UpdateRouteMetric(d, 0, cost, add, env, k), d.slot[0].hop;
            && HasInstalled(d')
            && (d'.slot[0].hop != hop <==> exists j :: BetterBehind(d, j, env.now, INFINITY, 96))
            && (d'.slot[0].hop != hop ==> NoneBetter(d, RouteMetric(d'.slot[0]), env.now))
  {
    var r := RetractRoute(d.slot[0].(seqno := Seqno.Plus(d.srcs[d.slot[0].src].seqno, 1)), env, k.metricOk);
    WorsenedReplaced(d, d.(slot := d.slot[0 := r]), r, RouteMetric(d.slot[0]), env);
  }

  // The installed route takes an update that makes it worse.
  lemma UpdateReplacesWorse(d: Dest, self: RouterId, u: Update, env: Env, k: Kernel)
    requires Ok(d) && Heeded(self, u) && Find(d.slot, u.hop) == Some(0) && d.slot[0].installed
    requires !LosesInstalled(EnsureSource(d, u.id, u.seqno, env.now), 0, u, env)
    requires HeardMetric(u) > RouteMetric(d.slot[0])
    requires Free(d, env) && k.metricOk && k.changedOk
    ensures var d' := UpdateRoute(d, self, u, env, k);
            && HasInstalled(d')
            && (d'.slot[0].hop != u.hop <==> exists j :: BetterBehind(d, j, env.now, HeardMetric(u), 96))
            && (d'.slot[0].hop != u.hop ==> NoneBetter(d, RouteMetric(d'.slot[0]), env.now))
  {
    EnsureSourceOk(d, u.id, u.seqno, env.now);
    var d1 := EnsureSource(d, u.id, u.seqno, env.now);
    var r := UpdatedRoute(d1, 0, u, env, k);
    CountPositive(d.slot, 0);
    WorsenedReplaced(d, UpdateStored(d1, 0, u, env, k), r, RouteMetric(d.slot[0]), env);
  }

  // ---- metrics

  // The interference factor 256 takes the cost whole, the factor 0 not at all; in between the cost taken is
  // right to half a unit, and the metric always grows.
  lemma FactorLaw(r: Route, factor: nat)
    requires r.refmetric < INFINITY
    ensures r.cost >= 1 ==> RouteMetricNoninterfering(r, 256) == RouteMetric(r)
    ensures r.refmetric < RouteMetricNoninterfering(r, factor)
    ensures var taken := RouteMetricNoninterfering(r, factor) - r.refmetric - r.addMetric;
            r.refmetric + 1 < RouteMetricNoninterfering(r, factor) < INFINITY
            ==> -128 < 256 * taken - factor * r.cost <= 128
  {
  }

  // ---- exports and sources

  // An export is there afterwards with the smaller metric. If that is news, it takes an installed route out, unless
  // duplicates of so bad a metric are allowed. No route is lost.
  lemma AddXrouteLaw(d: Dest, metric: u16, env: Env)
    requires metric < INFINITY
    ensures var d' := AddXroute(d, metric, env);
            && d'.xroute == Some(match d.xroute case None => metric case Some(m) => Min(m, metric))
            && (HasInstalled(d') <==> HasInstalled(d)
                                      && (d'.xroute == d.xroute || 0 <= env.allowDuplicates <= metric))
            && |d'.slot| == |d.slot|
            && forall j :: 0 <= j < |d.slot| ==> SameRoute(d'.slot[j], d.slot[j])
  {
  }

  // Exactly the sources that no route uses and that were silent for more than 200 seconds go; the others stay
  // with their distances, their times not in the future.
  lemma ExpireSourcesLaw(d: Dest, now: int, id: RouterId)
    requires id in d.srcs
    ensures var d', s := ExpireSources(d, now), d.srcs[id];
            && (id !in d'.srcs <==> s.routeCount == 0 && s.time + 200 < now)
            && (id in d'.srcs ==> d'.srcs[id] == s.(time := Min(s.time, now)))
  {
  }
}
