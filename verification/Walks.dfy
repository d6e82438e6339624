// Why the walks over the route table end although they move routes under their own iterator, and what they
// leave undone (qsrx/babeld/route.c:282-325, 634-667, 862-881, 985-1019).
module Walks {
  import opened Util
  import opened Prefix
  import opened Destination
  import opened DestinationProofs
  import opened TableView
  import Seqno

  // The link cost and the input filter as they stand during the walk.
  datatype Links = Links(cost: Neighbour -> nat, filter: (RouterId, Key) -> u16)

  // update_route_metric still has something to change in this route.
  predicate OutOfDate(r: Route, links: Links, now: int) {
    if Expired(r, now) then r.refmetric < INFINITY
    else r.cost != links.cost(r.hop.neigh) % 0x1_0000 || r.addMetric != links.filter(r.src, r.key)
  }

  function Outdated(links: Links, now: int): Route -> bool {
    r => OutOfDate(r, links, now)
  }

  // The hops of the routes a walk may still have to change.
  ghost function Pending(s: Slot, todo: Route -> bool): set<Hop> {
    set r | r in s && todo(r) :: r.hop
  }

  // What is to do does not depend on which route is installed.
  ghost predicate Markless(todo: Route -> bool) {
    forall r, t :: SameRoute(r, t) ==> todo(r) == todo(t)
  }

  function Remeasured(d: Dest, j: nat, links: Links, env: Env, k: Kernel): Dest
    requires j < |d.slot| && d.slot[j].src in d.srcs
  {
    var r := d.slot[j];
    UpdateRouteMetric(d, j, links.cost(r.hop.neigh), links.filter(r.src, r.key), env, k)
  }

  lemma {:induction false} FindUnique(s: Slot, p: nat)
    requires HopsUnique(s) && p < |s|
    ensures Find(s, s[p].hop) == Some(p)
  {
    var i := Find(s, s[p].hop).value;
    assert s[i].hop == s[p].hop;
  }

  // t is s, up to installed marks, with position b moved to the front.
  ghost predicate Moved(s: Slot, t: Slot, b: nat) {
    b < |s| == |t| && forall m :: 0 <= m < |t| ==>
      SameRoute(t[m], s[Origin(b, m)])
  }

  lemma ConsiderMoves(d: Dest, b: nat, env: Env, kernelOk: bool)
    requires b < |d.slot|
    ensures var d' := ConsiderRoute(d, b, env, kernelOk);
            d'.slot == d.slot || (!d.slot[b].installed && Moved(d.slot, d'.slot, b) && d'.slot[0].installed)
  {
    if HasInstalled(d) {
      MarkedMoves(d.slot, SetInstalled(SetInstalled(d.slot, 0, false), b, true), b);
    } else {
      MarkedMoves(d.slot, SetInstalled(d.slot, b, true), b);
    }
  }

  lemma MarkedMoves(s: Slot, u: Slot, b: nat)
    requires b < |s| == |u| && forall j :: 0 <= j < |s| ==> SameRoute(u[j], s[j])
    ensures Moved(s, MoveToFront(u, b), b)
  {
    forall m: nat | m < |s|
      ensures MoveToFront(u, b)[m] == u[Origin(b, m)]
    {
    }
  }

  // A move to the front brings the mover to position 0 and no other route closer to the front.
  lemma MovedPosition(s: Slot, t: Slot, b: nat, p: nat)
    requires HopsUnique(s) && HopsUnique(t) && Moved(s, t, b) && p < |s|
    ensures Find(t, s[p].hop).Some?
    ensures p != b ==> Find(t, s[p].hop).value >= p
  {
    var q := if p == b then 0 else if p < b then p + 1 else p;
    assert t[q].hop == s[p].hop;
    FindUnique(t, q);
  }

  lemma MovedPending(s: Slot, t: Slot, b: nat, todo: Route -> bool)
    requires Moved(s, t, b) && Markless(todo)
    ensures Pending(t, todo) <= Pending(s, todo)
  {
    forall h | h in Pending(t, todo)
      ensures h in Pending(s, todo)
    {
      var r :| r in t && todo(r) && r.hop == h;
      var m :| 0 <= m < |t| && t[m] == r;
      var r' := s[Origin(b, m)];
      assert SameRoute(r, r');
      assert r' in s && todo(r') && r'.hop == h;
    }
  }

  // Changing one route, not for the worse, removes at most its hop from those pending.
  lemma ReplacedPending(s: Slot, j: nat, r: Route, todo: Route -> bool)
    requires HopsUnique(s) && j < |s| && r.hop == s[j].hop && (todo(r) ==> todo(s[j]))
    ensures Pending(s[j := r], todo) <= Pending(s, todo)
    ensures todo(s[j]) && !todo(r) ==> Pending(s[j := r], todo) < Pending(s, todo)
  {
    var t := s[j := r];
    forall h | h in Pending(t, todo)
      ensures h in Pending(s, todo)
      ensures !todo(r) ==> h != s[j].hop
    {
      var x :| x in t && todo(x) && x.hop == h;
      var m :| 0 <= m < |t| && t[m] == x;
      assert s[m] in s;
      if m != j {
        assert s[Min(m, j)].hop != s[Max(m, j)].hop;
      }
    }
    assert todo(s[j]) ==> s[j] in s && s[j].hop in Pending(s, todo);
  }

  // Changing the route at position j and perhaps deciding anew.
  ghost predicate ChangedAt(d: Dest, j: nat, r: Route, d': Dest, env: Env)
    requires j < |d.slot|
  {
    var d1 := d.(slot := d.slot[j := r]);
    && r.hop == d.slot[j].hop && r.key == d.slot[j].key && r.src == d.slot[j].src && r.installed == d.slot[j].installed
    && (d' == d1 || exists oldmetric, kernelOk :: d' == RouteChanged(d1, j, oldmetric, env, kernelOk))
  }

  // Changing a route shrinks what is pending, or leaves it and does not bring the route closer to the
  // front: a walk that goes on behind it has a smaller rest. A route not installed may itself be moved
  // to the front, so it must have been pending.
  lemma ChangeDecreases(d: Dest, j: nat, r: Route, d': Dest, env: Env, todo: Route -> bool)
    requires Ok(d) && j < |d.slot| && ChangedAt(d, j, r, d', env) && Markless(todo)
    requires todo(r) ==> todo(d.slot[j])
    requires r.installed || d' == d.(slot := d.slot[j := r]) || (todo(d.slot[j]) && !todo(r))
    ensures |d'.slot| == |d.slot| && Find(d'.slot, r.hop).Some?
    ensures Pending(d'.slot, todo) <= Pending(d.slot, todo)
    ensures Pending(d'.slot, todo) == Pending(d.slot, todo) ==> Find(d'.slot, r.hop).value >= j
  {
    var d1 := d.(slot := d.slot[j := r]);
    ReplacedPending(d.slot, j, r, todo);
    ReplaceShaped(d.slot, j, r);
    assert d1.slot[j].hop == r.hop;
    FindUnique(d1.slot, j);
    if d'.slot != d1.slot {
      var oldmetric, kernelOk :| d' == RouteChanged(d1, j, oldmetric, env, kernelOk);
      RouteChangedSettled(d1, j, oldmetric, env, kernelOk);
      var b := if r.installed then FindBest(d1, env.now) else j;
      ConsiderMoves(d1, b, env, kernelOk);
      MovedPosition(d1.slot, d'.slot, b, j);
      MovedPending(d1.slot, d'.slot, b, todo);
    }
  }

  // The route as update_route_metric leaves it, before any decision.
  function Refreshed(d: Dest, j: nat, links: Links, env: Env, k: Kernel): Route
    requires j < |d.slot| && d.slot[j].src in d.srcs
  {
    var r := d.slot[j];
    if Expired(r, env.now) then
      if r.refmetric >= INFINITY then r
      else RetractRoute(r.(seqno := Seqno.Plus(d.srcs[r.src].seqno, 1)), env, k.metricOk)
    else ChangeRouteMetric(r, r.refmetric, links.cost(r.hop.neigh), links.filter(r.src, r.key), env, k.metricOk)
  }

  lemma RefreshedIsFresh(d: Dest, j: nat, links: Links, env: Env, k: Kernel)
    requires j < |d.slot| && d.slot[j].src in d.srcs
    ensures var r := Refreshed(d, j, links, env, k);
            && r.hop == d.slot[j].hop && r.src == d.slot[j].src && r.key == d.slot[j].key
            && r.installed == d.slot[j].installed && r.time == d.slot[j].time && r.holdTime == d.slot[j].holdTime
            && (OutOfDate(r, links, env.now) ==> OutOfDate(d.slot[j], links, env.now) && r.installed)
            && (r != d.slot[j] ==> OutOfDate(d.slot[j], links, env.now))
  {
  }

  lemma RemeasuredChanged(d: Dest, j: nat, links: Links, env: Env, k: Kernel)
    requires j < |d.slot| && d.slot[j].src in d.srcs
    ensures ChangedAt(d, j, Refreshed(d, j, links, env, k), Remeasured(d, j, links, env, k), env)
    ensures Refreshed(d, j, links, env, k) == d.slot[j] ==> Remeasured(d, j, links, env, k) == d
  {
    var r, r', d' := d.slot[j], Refreshed(d, j, links, env, k), Remeasured(d, j, links, env, k);
    RefreshedIsFresh(d, j, links, env, k);
    var d1 := d.(slot := d.slot[j := r']);
    assert r' == r ==> d1 == d;
    if d' != d1 {
      assert d' == RouteChanged(d1, j, RouteMetric(r), env, k.changedOk);
    }
  }

  // Measuring a route either shrinks the set of routes still out of date, or leaves it and does not
  // bring the route closer to the front: the walk goes on from a smaller rest.
  lemma MeasureDecreases(d: Dest, j: nat, links: Links, env: Env, k: Kernel)
    requires Ok(d) && j < |d.slot|
    ensures var d', h := Remeasured(d, j, links, env, k), d.slot[j].hop;
            && |d'.slot| == |d.slot| && Find(d'.slot, h).Some?
            && Pending(d'.slot, Outdated(links, env.now)) <= Pending(d.slot, Outdated(links, env.now))
            && (Pending(d'.slot, Outdated(links, env.now)) == Pending(d.slot, Outdated(links, env.now))
                ==> Find(d'.slot, h).value >= j)
  {
    var r' := Refreshed(d, j, links, env, k);
    RefreshedIsFresh(d, j, links, env, k);
    RemeasuredChanged(d, j, links, env, k);
    assert d.slot[j := d.slot[j]] == d.slot;
    ChangeDecreases(d, j, r', Remeasured(d, j, links, env, k), env, Outdated(links, env.now));
  }

  // ---- retracting

  predicate Unretracted(r: Route) {
    r.refmetric != INFINITY
  }

  // The same for the walk that retracts routes.
  lemma RetractDecreases(d: Dest, j: nat, env: Env, k: Kernel)
    requires Ok(d) && j < |d.slot|
    ensures var d', h := RetractNeighbourRoute(d, j, env, k), d.slot[j].hop;
            && |d'.slot| == |d.slot| && Find(d'.slot, h).Some?
            && Pending(d'.slot, Unretracted) <= Pending(d.slot, Unretracted)
            && (Pending(d'.slot, Unretracted) == Pending(d.slot, Unretracted) ==> Find(d'.slot, h).value >= j)
  {
    RetractedChanged(d, j, env, k);
    assert d.slot[j := d.slot[j]] == d.slot;
    var r := if Unretracted(d.slot[j]) then RetractRoute(d.slot[j], env, k.metricOk) else d.slot[j];
    ChangeDecreases(d, j, r, RetractNeighbourRoute(d, j, env, k), env, Unretracted);
  }

  lemma RetractedChanged(d: Dest, j: nat, env: Env, k: Kernel)
    requires j < |d.slot|
    ensures var r := if Unretracted(d.slot[j]) then RetractRoute(d.slot[j], env, k.metricOk) else d.slot[j];
            ChangedAt(d, j, r, RetractNeighbourRoute(d, j, env, k), env)
  {
    assert d.slot[j := d.slot[j]] == d.slot;
  }

  // ---- what a walk leaves alone

  // Sources and exports are untouched, no route comes or goes, and the routes of neighbours not
  // selected change at most their installed mark.
  ghost predicate Walked(d: Dest, d': Dest, select: Neighbour -> bool) {
    && d'.srcs == d.srcs && d'.xroute == d.xroute && |d'.slot| == |d.slot|
    && (forall r :: Has(d'.slot, r) && !select(r.hop.neigh) <==> Has(d.slot, r) && !select(r.hop.neigh))
  }

  lemma WalkedRefl(d: Dest, select: Neighbour -> bool)
    ensures Walked(d, d, select)
  {
  }

  lemma ReplacedWalked(d: Dest, j: nat, r: Route, select: Neighbour -> bool)
    requires j < |d.slot| && select(d.slot[j].hop.neigh) && r.hop == d.slot[j].hop
    ensures Walked(d, d.(slot := d.slot[j := r]), select)
  {
    var t := d.slot[j := r];
    forall x: Route | !select(x.hop.neigh)
      ensures Has(t, x) <==> Has(d.slot, x)
    {
      if Has(t, x) {
        var m :| 0 <= m < |t| && SameRoute(t[m], x);
        assert SameRoute(d.slot[m], x);
      }
      if Has(d.slot, x) {
        var m :| 0 <= m < |d.slot| && SameRoute(d.slot[m], x);
        assert SameRoute(t[m], x);
      }
    }
  }

  lemma ChangeWalked(d: Dest, j: nat, r: Route, d': Dest, env: Env, select: Neighbour -> bool)
    requires Ok(d) && j < |d.slot| && ChangedAt(d, j, r, d', env) && select(d.slot[j].hop.neigh)
    ensures Walked(d, d', select)
  {
    var d1 := d.(slot := d.slot[j := r]);
    ReplaceShaped(d.slot, j, r);
    ReplacedWalked(d, j, r, select);
    if d' != d1 {
      var oldmetric, kernelOk :| d' == RouteChanged(d1, j, oldmetric, env, kernelOk);
      RouteChangedSettled(d1, j, oldmetric, env, kernelOk);
    }
  }

  function Only(neigh: Neighbour): Neighbour -> bool {
    n => n == neigh
  }

  function OnInterface(ifp: nat): Neighbour -> bool {
    (n: Neighbour) => n.ifp == ifp
  }

  // ---- expiring

  // expire_routes flushes routes that are old, and routes from the future, the clock having been set back.
  predicate DueForFlush(r: Route, now: int) {
    r.time > now || RouteOld(r, now)
  }

  // Exports and the set of sources are untouched, no route comes, and each route not due for flushing
  // stays, with its time and hold time.
  ghost predicate OnlyDueGone(d: Dest, d': Dest, now: int) {
    && d'.xroute == d.xroute && d'.srcs.Keys == d.srcs.Keys
    && (forall r :: r in d'.slot ==> HasLike(d.slot, r))
    && (forall r :: r in d.slot && !DueForFlush(r, now) ==> HasLike(d'.slot, r))
  }

  // The slot holds a route with r's hop, time and hold time.
  ghost predicate HasLike(s: Slot, r: Route) {
    exists t :: t in s && Like(r, t)
  }

  predicate Like(r: Route, t: Route) {
    t.hop == r.hop && t.time == r.time && t.holdTime == r.holdTime
  }

  lemma HasIsLike(s: Slot, t: Slot)
    requires forall r :: Has(t, r) ==> Has(s, r)
    ensures forall r :: r in t ==> HasLike(s, r)
  {
    forall r | r in t
      ensures HasLike(s, r)
    {
      var m :| 0 <= m < |t| && t[m] == r;
      assert SameRoute(t[m], r);
      assert Has(t, r) && Has(s, r);
      var i :| 0 <= i < |s| && SameRoute(s[i], r);
      assert s[i] in s && Like(r, s[i]);
    }
  }

  lemma OnlyDueGoneRefl(d: Dest, now: int)
    ensures OnlyDueGone(d, d, now)
  {
    assert forall r :: r in d.slot ==> Like(r, r);
  }

  lemma OnlyDueGoneTrans(d1: Dest, d2: Dest, d3: Dest, now: int)
    requires OnlyDueGone(d1, d2, now) && OnlyDueGone(d2, d3, now)
    ensures OnlyDueGone(d1, d3, now)
  {
    forall r | r in d3.slot
      ensures HasLike(d1.slot, r)
    {
      var t :| t in d2.slot && Like(r, t);
      assert HasLike(d1.slot, t);
    }
    forall r | r in d1.slot && !DueForFlush(r, now)
      ensures HasLike(d3.slot, r)
    {
      var t :| t in d2.slot && Like(r, t);
      assert HasLike(d3.slot, t);
    }
  }

  lemma FlushedDue(d: Dest, j: nat, env: Env, k: Kernel)
    requires Ok(d) && j < |d.slot| && DueForFlush(d.slot[j], env.now)
    ensures OnlyDueGone(d, FlushRoute(d, j, env, k), env.now)
  {
    var t, d' := Without(d.slot, j), FlushRoute(d, j, env, k);
    LossSettled(d, j, env, k.lostOk);
    FlushRouteOk(d, j, env, k);
    WithoutShaped(d.slot, j);
    HasIsLike(t, d'.slot);
    HasIsLike(d'.slot, t);
    forall r | r in d.slot && !DueForFlush(r, env.now)
      ensures r in t
    {
      var m :| 0 <= m < |d.slot| && d.slot[m] == r;
      assert t[if m < j then m else m - 1] == r;
    }
    forall r | r in t
      ensures r in d.slot
    {
    }
  }

  lemma MeasuredKept(d: Dest, j: nat, links: Links, env: Env, k: Kernel)
    requires Ok(d) && j < |d.slot|
    ensures OnlyDueGone(d, Remeasured(d, j, links, env, k), env.now)
  {
    var r, d' := Refreshed(d, j, links, env, k), Remeasured(d, j, links, env, k);
    RefreshedIsFresh(d, j, links, env, k);
    RemeasuredChanged(d, j, links, env, k);
    var d1 := d.(slot := d.slot[j := r]);
    ReplaceShaped(d.slot, j, r);
    ReplacedLike(d.slot, j, r);
    if d' != d1 {
      var oldmetric, kernelOk :| d' == RouteChanged(d1, j, oldmetric, env, kernelOk);
      RouteChangedSettled(d1, j, oldmetric, env, kernelOk);
    }
    HasIsLike(d1.slot, d'.slot);
    HasIsLike(d'.slot, d1.slot);
    OnlyDueGoneTrans(d, d1, d', env.now);
  }

  lemma ReplacedLike(s: Slot, j: nat, r: Route)
    requires j < |s| && Like(s[j], r)
    ensures forall x :: x in s[j := r] ==> HasLike(s, x)
    ensures forall x :: x in s ==> HasLike(s[j := r], x)
  {
    var t := s[j := r];
    forall x | x in t
      ensures HasLike(s, x)
    {
      var m :| 0 <= m < |t| && t[m] == x;
      assert s[m] in s && Like(x, s[m]);
    }
    forall x | x in s
      ensures HasLike(t, x)
    {
      var m :| 0 <= m < |s| && s[m] == x;
      assert t[m] in t && Like(x, t[m]);
    }
  }

  // ---- what a walk leaves undone

  // What a walk does to the routes it is about: it measures those of some neighbours, retracts those of
  // one neighbour, or measures all that are not flushed instead.
  datatype Task =
    | Measuring(select: Neighbour -> bool, links: Links)
    | Retracting(neigh: Neighbour)
    | Expiring(links: Links)

  predicate Concerns(task: Task, r: Route, now: int) {
    match task
    case Measuring(select, _) => select(r.hop.neigh)
    case Retracting(neigh) => r.hop.neigh == neigh
    case Expiring(_) => !DueForFlush(r, now)
  }

  // The routes that should be gone or changed when it is over.
  function Todo(task: Task, now: int): Route -> bool {
    match task
    case Measuring(select, links) => (r: Route) => select(r.hop.neigh) && OutOfDate(r, links, now)
    case Retracting(neigh) => (r: Route) => r.hop.neigh == neigh && Unretracted(r)
    case Expiring(_) => (r: Route) => DueForFlush(r, now)
  }

  function Treated(task: Task, d: Dest, j: nat, env: Env, k: Kernel): Dest
    requires j < |d.slot| && d.slot[j].src in d.srcs
  {
    match task
    case Measuring(_, links) => Remeasured(d, j, links, env, k)
    case Retracting(_) => RetractNeighbourRoute(d, j, env, k)
    case Expiring(links) => Remeasured(d, j, links, env, k)
  }

  ghost predicate TreatedStep(task: Task, d: Dest, d': Dest, env: Env) {
    exists j: nat, k :: TreatedAt(task, d, d', j, env, k)
  }

  ghost predicate TreatedAt(task: Task, d: Dest, d': Dest, j: nat, env: Env, k: Kernel) {
    Ok(d) && j < |d.slot| && Concerns(task, d.slot[j], env.now) && d' == Treated(task, d, j, env, k)
  }

  // The states of a destination during a walk.
  ghost predicate Trace(task: Task, seen: seq<Dest>, env: Env) {
    seen != [] && forall k, l :: 0 <= k && l == k + 1 < |seen| ==> TreatedStep(task, seen[k], seen[l], env)
  }

  predicate InstalledThrough(d: Dest, hop: Hop) {
    HasInstalled(d) && d.slot[0].hop == hop
  }

  ghost predicate WasInstalled(seen: seq<Dest>, hop: Hop) {
    exists k :: 0 <= k < |seen| && InstalledThrough(seen[k], hop)
  }

  // Of the first n routes, those not done have been installed at some moment.
  ghost predicate DoneTo(s: Slot, n: nat, todo: Route -> bool, seen: seq<Dest>) {
    forall m :: 0 <= m < n && m < |s| && todo(s[m]) ==> WasInstalled(seen, s[m].hop)
  }

  // A walk that started from d0 is at position j of d.
  ghost predicate Walking(task: Task, seen: seq<Dest>, d0: Dest, d: Dest, j: nat, env: Env) {
    Trace(task, seen, env) && seen[0] == d0 && seen[|seen| - 1] == d && DoneTo(d.slot, j, Todo(task, env.now), seen)
  }

  // A walk leads from d to d', and each route it did not do has been installed at some moment of it.
  ghost predicate Worked(task: Task, d: Dest, d': Dest, env: Env) {
    exists seen :: Walking(task, seen, d, d', |d'.slot|, env)
  }

  // A slot as a pass of expire_routes leaves it: each route still due was installed at some moment of it.
  ghost predicate Passed(s: Slot, links: Links, env: Env) {
    exists seen, d0, d :: PassedWith(s, links, env, seen, d0, d)
  }

  ghost predicate PassedUpTo(slots: seq<Slot>, i: nat, links: Links, env: Env) {
    i <= |slots| && forall m :: 0 <= m < i ==> Passed(slots[m], links, env)
  }

  lemma PassedKept(slots: seq<Slot>, slots': seq<Slot>, i: nat, links: Links, env: Env)
    requires PassedUpTo(slots, i, links, env) && i <= |slots'| && slots'[..i] == slots[..i]
    ensures PassedUpTo(slots', i, links, env)
  {
    forall m | 0 <= m < i
      ensures Passed(slots'[m], links, env)
    {
      assert slots'[..i][m] == slots[..i][m];
    }
  }

  ghost predicate PassedWith(s: Slot, links: Links, env: Env, seen: seq<Dest>, d0: Dest, d: Dest) {
    d.slot == s && Walking(Expiring(links), seen, d0, d, |s|, env)
  }

  lemma SeenMore(seen: seq<Dest>, d: Dest, hop: Hop)
    ensures WasInstalled(seen, hop) ==> WasInstalled(seen + [d], hop)
    ensures InstalledThrough(d, hop) ==> WasInstalled(seen + [d], hop)
  {
    var seen' := seen + [d];
    assert seen'[|seen|] == d;
    if k :| 0 <= k < |seen| && InstalledThrough(seen[k], hop) {
      assert InstalledThrough(seen'[k], hop);
    }
  }

  // The changed route itself is done, or it is the installed one.
  lemma ReplacedDone(d: Dest, j: nat, r: Route, todo: Route -> bool, seen: seq<Dest>)
    requires Ok(d) && j < |d.slot| && r.hop == d.slot[j].hop && r.installed == d.slot[j].installed
    requires seen != [] && seen[|seen| - 1] == d && DoneTo(d.slot, j, todo, seen) && (todo(r) ==> r.installed)
    ensures DoneTo(d.slot[j := r], j + 1, todo, seen)
  {
    if todo(r) {
      assert InstalledThrough(seen[|seen| - 1], r.hop);
    }
  }

  lemma MovedDone(s: Slot, d': Dest, b: nat, j: nat, todo: Route -> bool, seen: seq<Dest>)
    requires HopsUnique(s) && HopsUnique(d'.slot) && Moved(s, d'.slot, b) && j < |s| && HasInstalled(d')
    requires Markless(todo) && DoneTo(s, j + 1, todo, seen)
    ensures Find(d'.slot, s[j].hop).Some?
    ensures DoneTo(d'.slot, Find(d'.slot, s[j].hop).value + 1, todo, seen + [d'])
  {
    var t, p := d'.slot, if j == b then 0 else if j < b then j + 1 else j;
    assert t[p].hop == s[j].hop;
    FindUnique(t, p);
    forall m | 0 <= m <= p && todo(t[m])
      ensures WasInstalled(seen + [d'], t[m].hop)
    {
      SeenMore(seen, d', t[m].hop);
      if m > 0 {
        assert SameRoute(t[m], s[Origin(b, m)]) && Origin(b, m) <= j;
      }
    }
  }

  lemma ChangeKeepsDone(d: Dest, j: nat, r: Route, d': Dest, env: Env, todo: Route -> bool, seen: seq<Dest>)
    requires Ok(d) && j < |d.slot| && ChangedAt(d, j, r, d', env) && Markless(todo) && (todo(r) ==> r.installed)
    requires seen != [] && seen[|seen| - 1] == d && DoneTo(d.slot, j, todo, seen)
    ensures Find(d'.slot, r.hop).Some?
    ensures DoneTo(d'.slot, Find(d'.slot, r.hop).value + 1, todo, seen + [d'])
  {
    var d1 := d.(slot := d.slot[j := r]);
    ReplaceShaped(d.slot, j, r);
    ReplacedDone(d, j, r, todo, seen);
    FindUnique(d1.slot, j);
    if d'.slot != d1.slot {
      var oldmetric, kernelOk :| d' == RouteChanged(d1, j, oldmetric, env, kernelOk);
      RouteChangedSettled(d1, j, oldmetric, env, kernelOk);
      var b := if r.installed then FindBest(d1, env.now) else j;
      ConsiderMoves(d1, b, env, kernelOk);
      MovedDone(d1.slot, d', b, j, todo, seen);
    } else {
      forall m | 0 <= m <= j && todo(d'.slot[m])
        ensures WasInstalled(seen + [d'], d'.slot[m].hop)
      {
        SeenMore(seen, d', d'.slot[m].hop);
      }
    }
  }

  function TreatedRoute(task: Task, d: Dest, j: nat, env: Env, k: Kernel): Route
    requires j < |d.slot| && d.slot[j].src in d.srcs
  {
    match task
    case Measuring(_, links) => Refreshed(d, j, links, env, k)
    case Retracting(_) => if Unretracted(d.slot[j]) then RetractRoute(d.slot[j], env, k.metricOk) else d.slot[j]
    case Expiring(links) => Refreshed(d, j, links, env, k)
  }

  lemma TreatedChanged(task: Task, d: Dest, j: nat, env: Env, k: Kernel)
    requires Ok(d) && j < |d.slot| && Concerns(task, d.slot[j], env.now)
    ensures var r := TreatedRoute(task, d, j, env, k);
            ChangedAt(d, j, r, Treated(task, d, j, env, k), env) && (Todo(task, env.now)(r) ==> r.installed)
  {
    match task
    case Measuring(_, links) =>
      RefreshedIsFresh(d, j, links, env, k);
      RemeasuredChanged(d, j, links, env, k);
    case Retracting(_) => RetractedChanged(d, j, env, k);
    case Expiring(links) =>
      RefreshedIsFresh(d, j, links, env, k);
      RemeasuredChanged(d, j, links, env, k);
  }

  lemma TodoMarkless(task: Task, now: int)
    ensures Markless(Todo(task, now))
  {
    var todo := Todo(task, now);
    forall r, t | SameRoute(r, t)
      ensures todo(r) == todo(t)
    {
      assert r.(installed := false).time == t.(installed := false).time;
      match task
      case Measuring(_, links) => assert OutOfDate(r, links, now) == OutOfDate(t, links, now);
      case Retracting(_) =>
      case Expiring(_) => assert DueForFlush(r, now) == DueForFlush(t, now);
    }
  }

  lemma TraceGrows(task: Task, seen: seq<Dest>, d': Dest, j: nat, env: Env, k: Kernel)
    requires Trace(task, seen, env) && TreatedAt(task, seen[|seen| - 1], d', j, env, k)
    ensures Trace(task, seen + [d'], env)
  {
    var seen' := seen + [d'];
    forall m, l | 0 <= m && l == m + 1 < |seen'|
      ensures TreatedStep(task, seen'[m], seen'[l], env)
    {
      if l < |seen| {
        assert TreatedStep(task, seen[m], seen[l], env);
      }
    }
  }

  // Treating the route at position j, and going on behind it.
  lemma WalkingOn(task: Task, seen: seq<Dest>, d0: Dest, d: Dest, j: nat, env: Env, k: Kernel)
    requires Walking(task, seen, d0, d, j, env) && Ok(d) && j < |d.slot| && Concerns(task, d.slot[j], env.now)
    ensures var d', h := Treated(task, d, j, env, k), d.slot[j].hop;
            Find(d'.slot, h).Some? && Walking(task, seen + [d'], d0, d', Find(d'.slot, h).value + 1, env)
  {
    var d', r := Treated(task, d, j, env, k), TreatedRoute(task, d, j, env, k);
    TreatedChanged(task, d, j, env, k);
    TodoMarkless(task, env.now);
    ChangeKeepsDone(d, j, r, d', env, Todo(task, env.now), seen);
    assert TreatedAt(task, d, d', j, env, k);
    TraceGrows(task, seen, d', j, env, k);
  }

  // The neighbours a walk is about.
  function About(task: Task): Neighbour -> bool {
    match task
    case Measuring(select, _) => select
    case Retracting(neigh) => Only(neigh)
    case Expiring(_) => _ => true
  }

  lemma StepWalked(task: Task, d: Dest, d': Dest, env: Env)
    requires TreatedStep(task, d, d', env)
    ensures Walked(d, d', About(task))
  {
    var j: nat, k :| TreatedAt(task, d, d', j, env, k);
    TreatedChanged(task, d, j, env, k);
    ChangeWalked(d, j, TreatedRoute(task, d, j, env, k), d', env, About(task));
  }

  lemma {:induction false} TraceWalked(task: Task, seen: seq<Dest>, n: nat, env: Env)
    requires Trace(task, seen, env) && n < |seen|
    ensures Walked(seen[0], seen[n], About(task))
  {
    if n == 0 {
      WalkedRefl(seen[0], About(task));
    } else {
      TraceWalked(task, seen, n - 1, env);
      StepWalked(task, seen[n - 1], seen[n], env);
    }
  }

  // A walk leaves the routes of all other neighbours alone.
  lemma WorkedWalked(task: Task, d: Dest, d': Dest, env: Env)
    requires Worked(task, d, d', env)
    ensures Walked(d, d', About(task))
  {
    var seen :| Walking(task, seen, d, d', |d'.slot|, env);
    TraceWalked(task, seen, |seen| - 1, env);
  }

  // A pass of expire_routes that flushes nothing keeps every route.
  lemma {:induction false} TraceKept(links: Links, seen: seq<Dest>, n: nat, env: Env)
    requires Trace(Expiring(links), seen, env) && n < |seen|
    ensures OnlyDueGone(seen[0], seen[n], env.now)
  {
    if n == 0 {
      OnlyDueGoneRefl(seen[0], env.now);
    } else {
      TraceKept(links, seen, n - 1, env);
      assert TreatedStep(Expiring(links), seen[n - 1], seen[n], env);
      var j: nat, k :| TreatedAt(Expiring(links), seen[n - 1], seen[n], j, env, k);
      MeasuredKept(seen[n - 1], j, links, env, k);
      OnlyDueGoneTrans(seen[0], seen[n - 1], seen[n], env.now);
    }
  }

  // What the table holds for the destination of slot m.
  function DestAt(slots: seq<Slot>, m: nat, srcs: seq<SourceEntry>, xs: seq<Xroute>): Dest
    requires m < |slots| && slots[m] != []
  {
    Dest(slots[m], SourcesOf(srcs, slots[m][0].key), XmetricOf(xs, slots[m][0].key))
  }

  // Slot m as the walk has left it, or else as it was before.
  ghost predicate SlotWalked(task: Task, before: seq<Slot>, after: seq<Slot>, srcs: seq<SourceEntry>, xs: seq<Xroute>,
                             env: Env, done: bool, m: nat)
    requires m < |before| && before[m] != [] && m < |after| && after[m] != []
  {
    after[m][0].key == before[m][0].key
    && if done then Worked(task, DestAt(before, m, srcs, xs), DestAt(after, m, srcs, xs), env)
       else after[m] == before[m]
  }

  // The slots in done have been walked over.
  ghost predicate SlotsWalked(task: Task, before: seq<Slot>, after: seq<Slot>, srcs: seq<SourceEntry>, xs: seq<Xroute>,
                              env: Env, done: set<nat>) {
    SlotsOk(before) && SlotsOk(after) && |before| == |after|
    && forall m: nat :: m < |before| ==> SlotWalked(task, before, after, srcs, xs, env, m in done, m)
  }

  lemma NextSlotWalked(task: Task, before: seq<Slot>, mid: seq<Slot>, after: seq<Slot>, srcs: seq<SourceEntry>,
                       xs: seq<Xroute>, env: Env, done: set<nat>, i: nat)
    requires SlotsWalked(task, before, mid, srcs, xs, env, done) && i < |mid| && i !in done
    requires SlotsOk(after) && |after| == |mid| && after == mid[i := after[i]] && after[i][0].key == mid[i][0].key
    requires Worked(task, DestAt(mid, i, srcs, xs), DestAt(after, i, srcs, xs), env)
    ensures SlotsWalked(task, before, after, srcs, xs, env, done + {i})
  {
    forall m: nat | m < |before|
      ensures SlotWalked(task, before, after, srcs, xs, env, m in done + {i}, m)
    {
      assert SlotWalked(task, before, mid, srcs, xs, env, m in done, m);
      assert m != i ==> after[m] == mid[m] && DestAt(after, m, srcs, xs) == DestAt(mid, m, srcs, xs);
    }
  }

  lemma WalkOverStarts(task: Task, slots: seq<Slot>, srcs: seq<SourceEntry>, xs: seq<Xroute>, env: Env)
    requires SlotsOk(slots)
    ensures SlotsWalked(task, slots, slots, srcs, xs, env, {})
  {
  }

  // What is true of every slot is true of every destination.
  lemma KeyWalked(task: Task, before: seq<Slot>, after: seq<Slot>, srcs: seq<SourceEntry>, xs: seq<Xroute>, env: Env,
                  done: set<nat>, key: Key)
    requires SlotsWalked(task, before, after, srcs, xs, env, done)
    ensures Walked(Dest(SlotOf(before, key), SourcesOf(srcs, key), XmetricOf(xs, key)),
                   Dest(SlotOf(after, key), SourcesOf(srcs, key), XmetricOf(xs, key)), About(task))
  {
    if m: nat :| HoldsKey(before, m, key) {
      assert SlotWalked(task, before, after, srcs, xs, env, m in done, m);
      SlotOfAt(before, m);
      SlotOfAt(after, m);
      WalkedRefl(DestAt(before, m, srcs, xs), About(task));
      if m in done {
        WorkedWalked(task, DestAt(before, m, srcs, xs), DestAt(after, m, srcs, xs), env);
      }
    } else {
      forall m: nat
        ensures !HoldsKey(after, m, key)
      {
        if m < |after| {
          assert SlotWalked(task, before, after, srcs, xs, env, m in done, m) && !HoldsKey(before, m, key);
        }
      }
      WalkedRefl(Dest([], SourcesOf(srcs, key), XmetricOf(xs, key)), About(task));
    }
  }

  lemma WalkingStarts(task: Task, d: Dest, env: Env)
    ensures Walking(task, [d], d, d, 0, env)
  {
  }

  // ---- counting routes

  function Total(slots: seq<Slot>): nat {
    if slots == [] then 0 else |slots[0]| + Total(slots[1..])
  }

  lemma {:induction false} TotalReplaced(slots: seq<Slot>, i: nat, s: Slot)
    requires i < |slots|
    ensures Total(slots[i := s]) == Total(slots) - |slots[i]| + |s|
  {
    if i == 0 {
      assert slots[i := s][1..] == slots[1..];
    } else {
      assert slots[i := s][1..] == slots[1..][i - 1 := s];
      TotalReplaced(slots[1..], i - 1, s);
    }
  }

  lemma {:induction false} TotalRemoved(slots: seq<Slot>, i: nat)
    requires i < |slots|
    ensures Total(RemoveAt(slots, i)) == Total(slots) - |slots[i]|
  {
    if i == 0 {
      assert RemoveAt(slots, i) == slots[1..];
    } else {
      assert RemoveAt(slots, i)[1..] == RemoveAt(slots[1..], i - 1);
      TotalRemoved(slots[1..], i - 1);
    }
  }

  // ---- flushing

  ghost predicate NoneSelected(s: Slot, select: Hop -> bool) {
    forall m :: 0 <= m < |s| ==> !select(s[m].hop)
  }

  // Exports are untouched, no route comes, and only selected routes go.
  ghost predicate OnlySelectedGone(d: Dest, d': Dest, select: Hop -> bool) {
    && d'.xroute == d.xroute && d'.srcs.Keys == d.srcs.Keys
    && (forall r :: Has(d'.slot, r) ==> Has(d.slot, r))
    && (forall r :: Has(d.slot, r) && !select(r.hop) ==> Has(d'.slot, r))
  }

  lemma FlushedSelected(d: Dest, j: nat, env: Env, k: Kernel, select: Hop -> bool)
    requires Ok(d) && j < |d.slot| && select(d.slot[j].hop)
    ensures OnlySelectedGone(d, FlushRoute(d, j, env, k), select)
  {
    LossSettled(d, j, env, k.lostOk);
    FlushRouteOk(d, j, env, k);
    WithoutSelected(d.slot, j, select);
  }

  lemma WithoutSelected(s: Slot, j: nat, select: Hop -> bool)
    requires Shaped(s) && j < |s| && select(s[j].hop)
    ensures forall r :: Has(Without(s, j), r) ==> Has(s, r)
    ensures forall r :: Has(s, r) && !select(r.hop) ==> Has(Without(s, j), r)
  {
    var t := Without(s, j);
    WithoutShaped(s, j);
    forall r | Has(t, r)
      ensures Has(s, r)
    {
      var m :| 0 <= m < |t| && SameRoute(t[m], r);
      assert SameRoute(s[if m < j then m else m + 1], r);
    }
    forall r | Has(s, r) && !select(r.hop)
      ensures Has(t, r)
    {
      var m :| 0 <= m < |s| && SameRoute(s[m], r);
      assert m != j;
      assert SameRoute(t[if m < j then m else m - 1], r);
    }
  }

  function Through(neigh: Neighbour): Hop -> bool {
    (h: Hop) => h.neigh == neigh
  }

  function ThroughInterface(ifp: nat, v4only: bool): Hop -> bool {
    (h: Hop) => h.neigh.ifp == ifp && (!v4only || h.nexthop.v4mapped)
  }
}
