// Loop freedom of a network of Babel nodes, for one destination and any number of router-ids that
// originate it. Nodes take the steps of module Destination. An advertisement, once sent, may be
// delivered to any node at any later time, any number of times, in any order, or never.
module Network {
  import opened Util
  import opened Feasibility
  import opened Destination
  import opened DestinationProofs
  import opened Prefix
  import Seqno

  // An advertisement of the destination, as sent by a node.
  datatype Message = Message(sender: RouterId, id: RouterId, seqno: u16, metric: u16)

  // key is the destination; sent holds every advertisement ever sent for it.
  datatype Net = Net(key: Key, nodes: map<RouterId, Dest>, sent: set<Message>)

  datatype Event =
      // an advertisement arrives, over a link and with a next hop of any kind
    | Deliver(at: RouterId, msg: Message, ifp: nat, nexthop: Address, interval: u16, cost: nat, add: u16,
              env: Env, kernel: Kernel)
      // update_route_metric runs for the route at position i
    | Remeasure(at: RouterId, i: nat, cost: nat, add: u16, env: Env, kernel: Kernel)
      // a neighbour's wildcard retraction reaches the route at position i
    | Retract(at: RouterId, i: nat, env: Env, kernel: Kernel)
    | Flush(at: RouterId, i: nat, env: Env, kernel: Kernel)
    | Export(at: RouterId, metric: u16, env: Env)
    | Unexport(at: RouterId)
      // the destination is advertised under the node's own router-id, retractions included
    | AdvertiseOwn(at: RouterId, seqno: u16, metric: u16)
      // the installed route is advertised on an interface it interferes with, or not; outAdd is
      // what the output filter adds
    | AdvertiseInstalled(at: RouterId, factor: Option<nat>, outAdd: u16, env: Env)

  function UpdateOf(net: Net, e: Event): Update
    requires e.Deliver?
  {
    Update(net.key, e.msg.id, e.msg.seqno, e.msg.metric, e.interval,
           Hop(Neighbour(e.msg.sender, e.ifp), e.nexthop), e.cost, e.add)
  }

  function AdvertisedMetric(r: Route, factor: Option<nat>): u16 {
    match factor
    case None => RouteMetric(r)
    case Some(f) => RouteMetricNoninterfering(r, f)
  }

  // What is said of a route that is advertised.
  function AdvertOf(at: RouterId, r: Route, factor: Option<nat>, outAdd: u16): Message {
    Message(at, r.src, r.seqno, Min(AdvertisedMetric(r, factor) + outAdd, INFINITY))
  }

  ghost predicate Live(d: Dest, now: int) {
    forall id :: id in d.srcs ==> !Stale(d.srcs[id], now)
  }

  // Which events can happen, under the assumptions of the theorem: stored link costs are at least
  // 1, and source entries are not stale. The kernel may refuse whatever it is asked for.
  ghost predicate Enabled(net: Net, e: Event) {
    && e.at in net.nodes && Ok(net.nodes[e.at])
    && var d := net.nodes[e.at];
    match e
    case Deliver(_, msg, _, _, _, cost, _, env, k) =>
      msg in net.sent && cost % 0x1_0000 >= 1 && Live(d, env.now)
    case Remeasure(_, i, cost, _, env, k) =>
      i < |d.slot| && cost % 0x1_0000 >= 1 && Live(d, env.now)
    case Retract(_, i, env, k) => i < |d.slot| && Live(d, env.now)
    case Flush(_, i, env, k) => i < |d.slot| && Live(d, env.now)
    case Export(_, _, env) => Live(d, env.now)
    case Unexport(_) => true
    case AdvertiseOwn(_, _, _) => true
    case AdvertiseInstalled(_, _, _, env) => HasInstalled(d) && Live(d, env.now)
  }

  ghost function NodeAfter(net: Net, e: Event): Dest
    requires Enabled(net, e)
  {
    var d := net.nodes[e.at];
    match e
    case Deliver(at, _, _, _, _, _, _, env, k) => UpdateRoute(d, at, UpdateOf(net, e), env, k)
    case Remeasure(_, i, cost, add, env, k) => UpdateRouteMetric(d, i, cost, add, env, k)
    case Retract(_, i, env, k) => RetractNeighbourRoute(d, i, env, k)
    case Flush(_, i, env, k) => FlushRoute(d, i, env, k)
    case Export(_, metric, env) => AddXroute(d, metric, env)
    case Unexport(_) => FlushXroute(d)
    case AdvertiseOwn(_, _, _) => d
    case AdvertiseInstalled(_, factor, _, env) => Advertised(d, env.now, AdvertisedMetric(d.slot[0], factor))
  }

  ghost function SentBy(net: Net, e: Event): set<Message>
    requires Enabled(net, e)
  {
    match e
    case AdvertiseOwn(at, seqno, metric) => {Message(at, at, seqno, metric)}
    case AdvertiseInstalled(at, factor, outAdd, _) => {AdvertOf(at, net.nodes[at].slot[0], factor, outAdd)}
    case _ => {}
  }

  ghost function Apply(net: Net, e: Event): Net
    requires Enabled(net, e)
  {
    Net(net.key, net.nodes[e.at := NodeAfter(net, e)], net.sent + SentBy(net, e))
  }

  function ClockOf(e: Event): int {
    match e
    case Deliver(_, _, _, _, _, _, _, env, _) => env.now
    case Remeasure(_, _, _, _, env, _) => env.now
    case Retract(_, _, env, _) => env.now
    case Flush(_, _, env, _) => env.now
    case Export(_, _, env) => env.now
    case AdvertiseInstalled(_, _, _, env) => env.now
    case _ => 0
  }

  ghost predicate Initial(net: Net) {
    net.sent == {} && forall x :: x in net.nodes ==> net.nodes[x] == Dest([], map[], None)
  }

  // ---- the property

  // x forwards packets for this destination to y along a route to the source s.
  predicate Edge(net: Net, s: RouterId, x: RouterId, y: RouterId) {
    && x in net.nodes && HasInstalled(net.nodes[x])
    && net.nodes[x].slot[0].src == s && net.nodes[x].slot[0].refmetric < INFINITY
    && net.nodes[x].slot[0].hop.neigh.node == y
  }

  predicate IsPath(net: Net, s: RouterId, path: seq<RouterId>) {
    |path| < 2 || (Edge(net, s, path[0], path[1]) && IsPath(net, s, path[1..]))
  }

  ghost predicate LoopFree(net: Net) {
    forall s, path :: IsPath(net, s, path) && |path| >= 2 ==> path[0] != path[|path| - 1]
  }

  // ---- the invariant

  ghost predicate Windowed(net: Net, base: RouterId -> u16) {
    && (forall m :: m in net.sent && m.metric < INFINITY ==> Seqno.InWindow(base(m.id), m.seqno))
    && (forall x, id :: x in net.nodes && id in net.nodes[x].srcs
                        ==> Seqno.InWindow(base(id), net.nodes[x].srcs[id].seqno))
  }

  // The node at x has itself advertised (seqno, metric) or better for the source id.
  ghost predicate Recorded(net: Net, base: RouterId -> u16, x: RouterId, id: RouterId, seqno: u16, metric: u16) {
    && x in net.nodes && id in net.nodes[x].srcs
    && NoWorse(base(id), net.nodes[x].srcs[id].seqno, net.nodes[x].srcs[id].metric, seqno, metric)
  }

  // Every finite advertisement is an own one or recorded in its sender's source table.
  ghost predicate SendersRecord(net: Net, base: RouterId -> u16) {
    forall m :: m in net.sent && m.metric < INFINITY && m.sender != m.id
                ==> Recorded(net, base, m.sender, m.id, m.seqno, m.metric)
  }

  // Every route with a finite distance was heard from its neighbour.
  ghost predicate Heard(net: Net, r: Route) {
    r.refmetric < INFINITY ==> Message(r.hop.neigh.node, r.src, r.seqno, r.refmetric) in net.sent
  }

  ghost predicate NodeOk(net: Net, x: RouterId)
    requires x in net.nodes
  {
    var d := net.nodes[x];
    && Ok(d) && OneKey(d.slot, net.key) && CostsCounted(d.slot)
    && (forall j :: 0 <= j < |d.slot| ==> Heard(net, d.slot[j]) && d.slot[j].src != x)
  }

  // The neighbour y once advertised a distance to s strictly better than any x has advertised.
  ghost predicate Backed(net: Net, x: RouterId, y: RouterId, s: RouterId) {
    exists m :: Backs(net, x, y, s, m)
  }

  ghost predicate Backs(net: Net, x: RouterId, y: RouterId, s: RouterId, m: Message) {
    && m in net.sent && m.sender == y && m.id == s && m.metric < INFINITY
    && x in net.nodes && s in net.nodes[x].srcs
    && Better(m.seqno, m.metric, net.nodes[x].srcs[s].seqno, net.nodes[x].srcs[s].metric)
  }

  ghost predicate InstalledBacked(net: Net, x: RouterId)
    requires x in net.nodes
  {
    var d := net.nodes[x];
    HasInstalled(d) && d.slot[0].refmetric < INFINITY ==> Backed(net, x, d.slot[0].hop.neigh.node, d.slot[0].src)
  }

  ghost predicate Inv(net: Net, base: RouterId -> u16) {
    && SendersRecord(net, base)
    && (forall x :: x in net.nodes ==> NodeOk(net, x))
  }

  ghost predicate AllBacked(net: Net) {
    forall x :: x in net.nodes ==> InstalledBacked(net, x)
  }

  // ---- the invariant excludes loops

  // Along an edge that does not end at the origin the feasibility distance strictly improves.
  lemma EdgeImproves(net: Net, base: RouterId -> u16, s: RouterId, x: RouterId, y: RouterId)
    requires Inv(net, base) && AllBacked(net) && Windowed(net, base)
    requires Edge(net, s, x, y) && y != s
    ensures s in net.nodes[x].srcs && y in net.nodes && s in net.nodes[y].srcs
    ensures var fx, fy := net.nodes[x].srcs[s], net.nodes[y].srcs[s];
            Better(fy.seqno, fy.metric, fx.seqno, fx.metric)
  {
    assert InstalledBacked(net, x);
    var m :| Backs(net, x, y, s, m);
    assert Recorded(net, base, y, s, m.seqno, m.metric);
    var fx, fy := net.nodes[x].srcs[s], net.nodes[y].srcs[s];
    NoWorseThenBetter(base(s), fy.seqno, fy.metric, m.seqno, m.metric, fx.seqno, fx.metric);
  }

  lemma EdgeSource(net: Net, base: RouterId -> u16, s: RouterId, x: RouterId, y: RouterId)
    requires Inv(net, base) && Edge(net, s, x, y)
    ensures x != s
  {
    assert NodeOk(net, x);
  }

  lemma {:induction false} PathImproves(net: Net, base: RouterId -> u16, s: RouterId, path: seq<RouterId>)
    requires Inv(net, base) && AllBacked(net) && Windowed(net, base)
    requires IsPath(net, s, path) && |path| >= 2 && path[|path| - 1] != s
    ensures path[0] in net.nodes && s in net.nodes[path[0]].srcs
    ensures path[|path| - 1] in net.nodes && s in net.nodes[path[|path| - 1]].srcs
    ensures var first, last := net.nodes[path[0]].srcs[s], net.nodes[path[|path| - 1]].srcs[s];
            Better(last.seqno, last.metric, first.seqno, first.metric)
  {
    var x, y := path[0], path[1];
    if |path| > 2 {
      EdgeSource(net, base, s, y, path[2]);
    }
    EdgeImproves(net, base, s, x, y);
    if |path| == 2 {
    } else {
      PathImproves(net, base, s, path[1..]);
      var fx, fy, last := net.nodes[x].srcs[s], net.nodes[y].srcs[s], net.nodes[path[|path| - 1]].srcs[s];
      BetterTrans(base(s), last, fy, fx);
    }
  }

  lemma BackedIsLoopFree(net: Net, base: RouterId -> u16)
    requires Inv(net, base) && AllBacked(net) && Windowed(net, base)
    ensures LoopFree(net)
  {
    forall s, path | IsPath(net, s, path) && |path| >= 2
      ensures path[0] != path[|path| - 1]
    {
      if path[0] == path[|path| - 1] {
        EdgeSource(net, base, s, path[0], path[1]);
        PathImproves(net, base, s, path);
        assert false;
      }
    }
  }

  // ---- every step keeps the invariant

  // What one node's step must do for the whole network to stay in the invariant.
  lemma NodeStepKeepsInv(net: Net, base: RouterId -> u16, e: Event)
    requires Inv(net, base) && Enabled(net, e)
    requires NodeOk(Apply(net, e), e.at)
    requires forall id :: id in net.nodes[e.at].srcs ==>
               && id in NodeAfter(net, e).srcs
               && NoWorse(base(id), NodeAfter(net, e).srcs[id].seqno, NodeAfter(net, e).srcs[id].metric,
                          net.nodes[e.at].srcs[id].seqno, net.nodes[e.at].srcs[id].metric)
    requires forall m :: m in SentBy(net, e) && m.metric < INFINITY && m.sender != m.id
               ==> Recorded(Apply(net, e), base, m.sender, m.id, m.seqno, m.metric)
    ensures Inv(Apply(net, e), base)
  {
    var net' := Apply(net, e);
    forall m | m in net'.sent && m.metric < INFINITY && m.sender != m.id
      ensures Recorded(net', base, m.sender, m.id, m.seqno, m.metric)
    {
      if m in net.sent {
        assert Recorded(net, base, m.sender, m.id, m.seqno, m.metric);
        if m.sender == e.at {
          NoWorseTrans(base(m.id), net'.nodes[e.at].srcs[m.id], net.nodes[e.at].srcs[m.id], m.seqno, m.metric);
        }
      }
    }
    forall x | x in net'.nodes
      ensures NodeOk(net', x)
    {
      if x != e.at {
        assert NodeOk(net, x);
        assert forall j :: 0 <= j < |net.nodes[x].slot| ==> Heard(net', net.nodes[x].slot[j]);
      }
    }
  }

  // A step at one node leaves every other node's installed route backed.
  lemma OthersStayBacked(net: Net, e: Event, x: RouterId)
    requires Enabled(net, e) && x in net.nodes && x != e.at && InstalledBacked(net, x)
    ensures InstalledBacked(Apply(net, e), x)
  {
    var d := net.nodes[x];
    if HasInstalled(d) && d.slot[0].refmetric < INFINITY {
      var m :| Backs(net, x, d.slot[0].hop.neigh.node, d.slot[0].src, m);
      assert Backs(Apply(net, e), x, d.slot[0].hop.neigh.node, d.slot[0].src, m);
    }
  }

  // A feasible route that was heard is backed by the very update it was heard in.
  lemma FeasibleIsBacked(net: Net, x: RouterId, now: int)
    requires x in net.nodes && NodeOk(net, x) && HasInstalled(net.nodes[x])
    requires Feasible(net.nodes[x], net.nodes[x].slot[0], now) && Live(net.nodes[x], now)
    ensures InstalledBacked(net, x)
  {
    var r := net.nodes[x].slot[0];
    assert Heard(net, r);
    if r.refmetric < INFINITY {
      assert Backs(net, x, r.hop.neigh.node, r.src, Message(r.hop.neigh.node, r.src, r.seqno, r.refmetric));
    }
  }

  // ---- the two ways to lose it

  // An unfeasible update gives a finite distance back to the installed route while that route is
  // retracted, its source unchanged.
  predicate Revives(d: Dest, self: RouterId, u: Update, env: Env, k: Kernel) {
    && u.id != self && u.addMetric < INFINITY && u.refmetric < INFINITY && !UpdateRefused(d, self, u, env, k)
    && match Find(d.slot, u.hop)
       case None => false
       case Some(i) =>
         && d.slot[i].installed && d.slot[i].src == u.id && d.slot[i].refmetric == INFINITY
         && !UpdateFeasible(SourceOf(d, u.id), env.now, u.seqno, u.refmetric)
  }

  predicate RevivedBy(net: Net, e: Event)
    requires e.at in net.nodes
  {
    e.Deliver? && Revives(net.nodes[e.at], e.at, UpdateOf(net, e), e.env, e.kernel)
  }

  // The kernel refuses a new metric, and the installed route is left with its old finite distance
  // under another source or sequence number: by an update, or when it is retracted as expired.
  predicate MixedBy(net: Net, e: Event)
    requires e.at in net.nodes
  {
    var d := net.nodes[e.at];
    match e
    case Deliver(at, msg, _, _, _, _, _, env, k) =>
      && UpdateRefused(d, at, UpdateOf(net, e), env, k) && d.slot != [] && d.slot[0].refmetric < INFINITY
      && (msg.id, msg.seqno) != (d.slot[0].src, d.slot[0].seqno)
    case Remeasure(_, i, _, _, env, k) =>
      i < |d.slot| && d.slot[i].src in d.srcs && ExpiryRefused(d, i, env, k)
    case _ => false
  }

  // The distance the route is left with, as an advertisement of its neighbour.
  function Mixed(net: Net, e: Event): Message
    requires e.at in net.nodes && MixedBy(net, e)
  {
    var d := net.nodes[e.at];
    if e.Deliver? then e.msg.(metric := d.slot[0].refmetric)
    else
      var r := d.slot[e.i];
      Message(r.hop.neigh.node, r.src, Seqno.Plus(d.srcs[r.src].seqno, 1), r.refmetric)
  }

  // The distance m, now kept for an installed route, is one its neighbour did advertise and backs it.
  ghost predicate Vouched(net: Net, x: RouterId, m: Message)
    requires x in net.nodes
  {
    m in net.sent && (m.id in net.nodes[x].srcs ==> Backed(net, x, m.sender, m.id))
  }

  // The event revives no route and mixes no distances, unless the neighbour has advertised what makes
  // up for it.
  ghost predicate Harmless(net: Net, e: Event)
    requires e.at in net.nodes
  {
    && (RevivedBy(net, e) ==> Backed(net, e.at, e.msg.sender, e.msg.id))
    && (MixedBy(net, e) ==> Vouched(net, e.at, Mixed(net, e)))
  }

  // ---- mixed distances

  // What becomes of the route: it stays the installed head, its distance now being the mixed one.
  lemma MixedStays(net: Net, e: Event)
    requires Enabled(net, e) && MixedBy(net, e) && OneKey(net.nodes[e.at].slot, net.key)
    ensures SentBy(net, e) == {}
    ensures var d, d', m := net.nodes[e.at], NodeAfter(net, e), Mixed(net, e);
            && Ok(d') && SameDistances(d, d', m.id, m.seqno, ClockOf(e))
            && HasInstalled(d) && |d'.slot| == |d.slot| && d'.slot[1..] == d.slot[1..]
            && Relabelled(d.slot[0], m, d'.slot[0])
  {
    var d := net.nodes[e.at];
    if e.Deliver? {
      UpdateRouteOk(d, e.at, UpdateOf(net, e), e.env, e.kernel);
      UpdateRouteEffect(d, e.at, UpdateOf(net, e), e.env, e.kernel);
    } else {
      UpdateRouteMetricOk(d, e.i, e.cost, e.add, e.env, e.kernel);
      UpdateRouteMetricEffect(d, e.i, e.cost, e.add, e.env, e.kernel);
      assert e.i == 0;
    }
  }

  // The installed route now bears the distance m.
  predicate Relabelled(was: Route, m: Message, r: Route) {
    && was.installed && m.metric == was.refmetric < INFINITY && m.sender == was.hop.neigh.node
    && r == was.(src := m.id, seqno := m.seqno, time := r.time, holdTime := r.holdTime)
  }

  // All routes but the first are the same, and the first keeps its destination and cost.
  lemma RelabelledSlot(s: Slot, t: Slot, m: Message, key: Key)
    requires |s| == |t| > 0 && t[1..] == s[1..] && Relabelled(s[0], m, t[0])
    ensures forall j :: 0 < j < |t| ==> t[j] == s[j]
    ensures OneKey(s, key) ==> OneKey(t, key)
    ensures CostsCounted(s) ==> CostsCounted(t)
  {
    forall j | 0 < j < |t|
      ensures t[j] == s[j]
    {
      assert t[1..][j - 1] == s[1..][j - 1];
    }
    assert CostCounted(s[0]) ==> CostCounted(t[0]);
  }

  lemma MixedKeepsNodeOk(net: Net, e: Event)
    requires Enabled(net, e) && MixedBy(net, e) && NodeOk(net, e.at)
    ensures NodeOk(Apply(net, e), e.at) <==> Mixed(net, e) in net.sent
  {
    MixedStays(net, e);
    var s, t, net' := net.nodes[e.at].slot, NodeAfter(net, e).slot, Apply(net, e);
    RelabelledSlot(s, t, Mixed(net, e), net.key);
    assert net'.sent == net.sent && net'.nodes[e.at].slot == t && net'.key == net.key;
    assert Heard(net', t[0]) <==> Mixed(net, e) in net.sent;
    assert s[0].src != e.at && t[0].src != e.at;
    assert forall j :: 0 < j < |t| ==> Heard(net, s[j]) && Heard(net', t[j]) && s[j].src != e.at;
  }

  lemma MixedKeepsInvIff(net: Net, base: RouterId -> u16, e: Event)
    requires Inv(net, base) && Enabled(net, e) && MixedBy(net, e)
    ensures Inv(Apply(net, e), base) <==> Mixed(net, e) in net.sent
  {
    assert NodeOk(net, e.at);
    MixedStays(net, e);
    MixedKeepsNodeOk(net, e);
    if Mixed(net, e) in net.sent {
      var d, d' := net.nodes[e.at], NodeAfter(net, e);
      forall id | id in d.srcs
        ensures id in d'.srcs && d'.srcs[id].(routeCount := 0) == d.srcs[id].(routeCount := 0)
      {
      }
      NodeStepKeepsInv(net, base, e);
    }
  }

  lemma MixedBackedIff(net: Net, e: Event)
    requires Enabled(net, e) && MixedBy(net, e) && NodeOk(net, e.at) && Mixed(net, e) in net.sent
    ensures InstalledBacked(Apply(net, e), e.at) <==> Vouched(net, e.at, Mixed(net, e))
  {
    MixedStays(net, e);
    var m, d' := Mixed(net, e), NodeAfter(net, e);
    assert InstalledBacked(Apply(net, e), e.at) <==> Backed(Apply(net, e), e.at, m.sender, m.id);
    if m.id in net.nodes[e.at].srcs {
      BackedUnchanged(net, e, m.id, m.seqno, m.sender, m.id);
    } else {
      assert d'.srcs[m.id].(routeCount := 0) == NewSource(m.seqno, ClockOf(e)) by {
        assert d'.slot[0].src == m.id;
      }
      assert Backs(Apply(net, e), e.at, m.sender, m.id, m);
    }
  }

  // An event that sends nothing and moves no feasibility distance leaves the backing as it was.
  lemma BackedUnchanged(net: Net, e: Event, id: RouterId, seqno: u16, y: RouterId, s: RouterId)
    requires Enabled(net, e) && SentBy(net, e) == {} && s in net.nodes[e.at].srcs
    requires SameDistances(net.nodes[e.at], NodeAfter(net, e), id, seqno, ClockOf(e))
    ensures Backed(net, e.at, y, s) <==> Backed(Apply(net, e), e.at, y, s)
  {
    var net' := Apply(net, e);
    assert net'.nodes[e.at].srcs[s].(routeCount := 0) == net.nodes[e.at].srcs[s].(routeCount := 0);
    if m :| Backs(net, e.at, y, s, m) {
      assert Backs(net', e.at, y, s, m);
    }
    if m :| Backs(net', e.at, y, s, m) {
      assert Backs(net, e.at, y, s, m);
    }
  }

  // ---- updates

  lemma DeliverKeepsInv(net: Net, base: RouterId -> u16, e: Event)
    requires Inv(net, base) && Enabled(net, e) && e.Deliver? && !MixedBy(net, e)
    ensures Inv(Apply(net, e), base)
  {
    var d, d' := net.nodes[e.at], NodeAfter(net, e);
    assert NodeOk(net, e.at);
    DeliverKeepsNodeOk(net, e);
    UpdateRouteEffect(d, e.at, UpdateOf(net, e), e.env, e.kernel);
    forall id | id in d.srcs
      ensures id in d'.srcs && d'.srcs[id].(routeCount := 0) == d.srcs[id].(routeCount := 0)
    {
    }
    NodeStepKeepsInv(net, base, e);
  }

  lemma DeliverKeepsNodeOk(net: Net, e: Event)
    requires Enabled(net, e) && e.Deliver? && !MixedBy(net, e) && NodeOk(net, e.at)
    ensures NodeOk(Apply(net, e), e.at)
  {
    var d, u := net.nodes[e.at], UpdateOf(net, e);
    var d', net' := NodeAfter(net, e), Apply(net, e);
    UpdateRouteOk(d, e.at, u, e.env, e.kernel);
    UpdateRouteEffect(d, e.at, u, e.env, e.kernel);
    assert u.id == e.at ==> d' == d;
    forall j | 0 <= j < |d'.slot|
      ensures Heard(net', d'.slot[j]) && d'.slot[j].src != e.at && d'.slot[j].key == net.key
      ensures CostCounted(d'.slot[j])
    {
      if UpdateRefused(d, e.at, u, e.env, e.kernel) {
        assert j > 0 ==> d'.slot[1..][j - 1] == d.slot[1..][j - 1];
        assert Heard(net, d.slot[j]) && CostCounted(d.slot[j]);
      } else if Has(d.slot, d'.slot[j]) {
        var i :| 0 <= i < |d.slot| && SameRoute(d.slot[i], d'.slot[j]);
        assert Heard(net, d.slot[i]) && CostCounted(d.slot[i]);
      } else {
        assert FromUpdate(u, d'.slot[j]);
      }
    }
  }

  lemma RevivedBackedIff(net: Net, e: Event)
    requires Enabled(net, e) && RevivedBy(net, e) && OneKey(net.nodes[e.at].slot, net.key)
    ensures InstalledBacked(Apply(net, e), e.at) <==> Backed(net, e.at, e.msg.sender, e.msg.id)
  {
    var d, u := net.nodes[e.at], UpdateOf(net, e);
    RevivedStaysInstalled(d, e.at, u, e.env, e.kernel);
    UpdateRouteEffect(d, e.at, u, e.env, e.kernel);
    BackedUnchanged(net, e, u.id, u.seqno, e.msg.sender, e.msg.id);
  }

  lemma RevivedStaysInstalled(d: Dest, self: RouterId, u: Update, env: Env, k: Kernel)
    requires Ok(d) && Revives(d, self, u, env, k)
    ensures var d' := UpdateRoute(d, self, u, env, k);
            && HasInstalled(d') && d'.slot[0].refmetric == u.refmetric
            && d'.slot[0].hop == u.hop && d'.slot[0].src == u.id
    ensures u.id in d.srcs
  {
    EnsureSourceOk(d, u.id, u.seqno, env.now);
  }

  // An unfeasible installed route that took an update without being revived was not retracted.
  lemma NotRevivedWasFinite(d: Dest, self: RouterId, u: Update, env: Env, k: Kernel)
    requires Ok(d) && !Revives(d, self, u, env, k) && !UpdateRefused(d, self, u, env, k) && OneKey(d.slot, u.key)
    requires var d' := UpdateRoute(d, self, u, env, k);
             && HasInstalled(d) && HasInstalled(d') && d'.slot[0] != d.slot[0]
             && FromUpdate(u, d'.slot[0]) && d'.slot[0].src == d.slot[0].src && d'.slot[0].hop == d.slot[0].hop
             && !Feasible(d', d'.slot[0], env.now)
    ensures d.slot[0].refmetric < INFINITY
  {
    UpdateRouteEffect(d, self, u, env, k);
    var d' := UpdateRoute(d, self, u, env, k);
    SameDistancesFeasible(d, d', u.id, u.seqno, d'.slot[0], env.now);
    assert Find(d.slot, u.hop) == Some(0);
  }

  lemma NotRevivedStaysBacked(net: Net, e: Event)
    requires Enabled(net, e) && e.Deliver? && !RevivedBy(net, e) && !MixedBy(net, e)
    requires NodeOk(net, e.at) && InstalledBacked(net, e.at) && NodeOk(Apply(net, e), e.at)
    ensures InstalledBacked(Apply(net, e), e.at)
  {
    var d, u := net.nodes[e.at], UpdateOf(net, e);
    var d' := NodeAfter(net, e);
    UpdateRouteEffect(d, e.at, u, e.env, e.kernel);
    if HasInstalled(d') && d'.slot[0].refmetric < INFINITY {
      if !UpdateRefused(d, e.at, u, e.env, e.kernel) && Feasible(d', d'.slot[0], e.env.now) {
        LiveKept(d, d', u.id, u.seqno, e.env.now);
        FeasibleIsBacked(Apply(net, e), e.at, e.env.now);
      } else {
        if !UpdateRefused(d, e.at, u, e.env, e.kernel) && d'.slot[0] != d.slot[0] {
          NotRevivedWasFinite(d, e.at, u, e.env, e.kernel);
        }
        BackedUnchanged(net, e, u.id, u.seqno, d.slot[0].hop.neigh.node, d.slot[0].src);
      }
    }
  }

  lemma LiveKept(d: Dest, d': Dest, id: RouterId, seqno: u16, now: int)
    requires Live(d, now) && SameDistances(d, d', id, seqno, now)
    ensures Live(d', now)
  {
    forall s | s in d'.srcs
      ensures !Stale(d'.srcs[s], now)
    {
      if s in d.srcs {
        assert d'.srcs[s].(routeCount := 0) == d.srcs[s].(routeCount := 0);
      }
    }
  }

  predicate IsLocal(e: Event) {
    e.Remeasure? || e.Retract? || e.Flush? || e.Export? || e.Unexport?
  }

  lemma LocalNodeEffect(net: Net, e: Event)
    requires Enabled(net, e) && IsLocal(e) && !MixedBy(net, e)
    ensures Ok(NodeAfter(net, e)) && LocalEffect(net.nodes[e.at], NodeAfter(net, e), ClockOf(e))
    ensures CostsCounted(net.nodes[e.at].slot) ==> CostsCounted(NodeAfter(net, e).slot)
  {
    var d := net.nodes[e.at];
    match e
    case Remeasure(_, i, cost, add, env, k) =>
      UpdateRouteMetricOk(d, i, cost, add, env, k);
      UpdateRouteMetricEffect(d, i, cost, add, env, k);
    case Retract(_, i, env, k) =>
      RetractNeighbourRouteOk(d, i, env, k);
      RetractNeighbourRouteEffect(d, i, env, k);
    case Flush(_, i, env, k) =>
      FlushRouteOk(d, i, env, k);
      FlushRouteEffect(d, i, env, k);
    case Export(_, metric, env) =>
      AddXrouteOk(d, metric, env);
      AddXrouteEffect(d, metric, env);
    case Unexport(_) =>
      UnchangedEffect(d, 0);
  }

  lemma LocalKeepsInv(net: Net, base: RouterId -> u16, e: Event)
    requires Inv(net, base) && Enabled(net, e) && IsLocal(e) && !MixedBy(net, e)
    ensures Inv(Apply(net, e), base)
  {
    var d, d' := net.nodes[e.at], NodeAfter(net, e);
    assert NodeOk(net, e.at);
    LocalNodeEffect(net, e);
    forall j | 0 <= j < |d'.slot|
      ensures Heard(Apply(net, e), d'.slot[j]) && d'.slot[j].src != e.at && d'.slot[j].key == net.key
    {
      assert Carries(d.slot, d'.slot[j]);
      var i :| 0 <= i < |d.slot| && Carried(d.slot[i], d'.slot[j]);
      assert Heard(net, d.slot[i]);
    }
    forall id | id in d.srcs
      ensures id in d'.srcs && d'.srcs[id].(routeCount := 0) == d.srcs[id].(routeCount := 0)
    {
    }
    NodeStepKeepsInv(net, base, e);
  }

  lemma LocalStaysBacked(net: Net, e: Event)
    requires Enabled(net, e) && IsLocal(e) && !MixedBy(net, e)
    requires NodeOk(net, e.at) && NodeOk(Apply(net, e), e.at)
    requires InstalledBacked(net, e.at)
    ensures InstalledBacked(Apply(net, e), e.at)
  {
    var d, d', net' := net.nodes[e.at], NodeAfter(net, e), Apply(net, e);
    LocalNodeEffect(net, e);
    if HasInstalled(d') && d'.slot[0].refmetric < INFINITY {
      if !e.Unexport? && Feasible(d', d'.slot[0], ClockOf(e)) {
        forall s | s in d'.srcs
          ensures !Stale(d'.srcs[s], ClockOf(e))
        {
          assert d'.srcs[s].(routeCount := 0) == d.srcs[s].(routeCount := 0);
        }
        FeasibleIsBacked(net', e.at, ClockOf(e));
      } else {
        var r := d.slot[0];
        var m :| Backs(net, e.at, r.hop.neigh.node, r.src, m);
        assert d'.srcs[r.src].(routeCount := 0) == d.srcs[r.src].(routeCount := 0);
        assert Backs(net', e.at, r.hop.neigh.node, r.src, m);
      }
    }
  }

  // The metric a route is advertised with is strictly larger than the one it was heard with.
  lemma AdvertisedMetricGrows(r: Route, factor: Option<nat>)
    requires CostCounted(r) && r.refmetric < INFINITY
    ensures r.refmetric < AdvertisedMetric(r, factor)
  {
  }

  lemma AdvertiseKeepsInv(net: Net, base: RouterId -> u16, e: Event)
    requires Inv(net, base) && Windowed(net, base) && Enabled(net, e) && e.AdvertiseInstalled?
    ensures Inv(Apply(net, e), base)
  {
    var d, d', net' := net.nodes[e.at], NodeAfter(net, e), Apply(net, e);
    assert NodeOk(net, e.at);
    var r := d.slot[0];
    assert Heard(net, r);
    var metric := AdvertisedMetric(r, e.factor);
    assert forall j :: 0 <= j < |d'.slot| ==> Heard(net, d.slot[j]) && Heard(net', d'.slot[j]);
    if metric < INFINITY {
      if r.refmetric < INFINITY {
        AdvertisedMetricGrows(r, e.factor);
        UpdateSourceInWindow(base(r.src), d.srcs[r.src], e.env.now, r.seqno, metric);
      }
    }
    NodeStepKeepsInv(net, base, e);
  }

  lemma AdvertiseStaysBacked(net: Net, base: RouterId -> u16, e: Event)
    requires Windowed(net, base) && Enabled(net, e) && e.AdvertiseInstalled?
    requires NodeOk(net, e.at) && InstalledBacked(net, e.at)
    ensures InstalledBacked(Apply(net, e), e.at)
  {
    var d, net' := net.nodes[e.at], Apply(net, e);
    var r := d.slot[0];
    assert Heard(net, r);
    var metric, y := AdvertisedMetric(r, e.factor), r.hop.neigh.node;
    if r.refmetric < INFINITY {
      var m :| Backs(net, e.at, y, r.src, m);
      if metric < INFINITY {
        AdvertisedMetricGrows(r, e.factor);
        UpdateSourceInWindow(base(r.src), d.srcs[r.src], e.env.now, r.seqno, metric);
        var heard := Message(y, r.src, r.seqno, r.refmetric);
        assert Backs(net', e.at, y, r.src, m) || Backs(net', e.at, y, r.src, heard);
      } else {
        assert Backs(net', e.at, y, r.src, m);
      }
    }
  }

  lemma AdvertiseOwnKeeps(net: Net, base: RouterId -> u16, e: Event)
    requires Inv(net, base) && Enabled(net, e) && e.AdvertiseOwn?
    ensures Inv(Apply(net, e), base)
    ensures InstalledBacked(net, e.at) ==> InstalledBacked(Apply(net, e), e.at)
  {
    var d, net' := net.nodes[e.at], Apply(net, e);
    assert NodeOk(net, e.at);
    assert forall j :: 0 <= j < |d.slot| ==> Heard(net, d.slot[j]) && Heard(net', d.slot[j]);
    NodeStepKeepsInv(net, base, e);
    if HasInstalled(d) && d.slot[0].refmetric < INFINITY && InstalledBacked(net, e.at) {
      var m :| Backs(net, e.at, d.slot[0].hop.neigh.node, d.slot[0].src, m);
      assert Backs(net', e.at, d.slot[0].hop.neigh.node, d.slot[0].src, m);
    }
  }

  // ---- any step

  // Steps of one node leave all installed routes backed as soon as they leave its own backed.
  lemma AllStayBackedIff(net: Net, e: Event)
    requires Enabled(net, e) && AllBacked(net)
    ensures AllBacked(Apply(net, e)) <==> InstalledBacked(Apply(net, e), e.at)
  {
    forall x | x in net.nodes && x != e.at
      ensures InstalledBacked(Apply(net, e), x)
    {
      OthersStayBacked(net, e, x);
    }
  }

  // A step that mixes distances keeps the invariant exactly if the mixed distance is vouched for.
  lemma MixedKeepsBackedIff(net: Net, base: RouterId -> u16, e: Event)
    requires Inv(net, base) && AllBacked(net) && Enabled(net, e) && MixedBy(net, e)
    ensures Inv(Apply(net, e), base) && AllBacked(Apply(net, e)) <==> Vouched(net, e.at, Mixed(net, e))
  {
    assert NodeOk(net, e.at);
    MixedKeepsInvIff(net, base, e);
    AllStayBackedIff(net, e);
    if Mixed(net, e) in net.sent {
      MixedBackedIff(net, e);
    }
  }

  // Hearing an update keeps every finite installed route backed exactly if it is harmless. The
  // condition can be read off the state before the update.
  lemma DeliverKeepsBackedIff(net: Net, base: RouterId -> u16, e: Event)
    requires Inv(net, base) && AllBacked(net) && Enabled(net, e) && e.Deliver?
    ensures Inv(Apply(net, e), base) && AllBacked(Apply(net, e)) <==> Harmless(net, e)
  {
    if MixedBy(net, e) {
      MixedKeepsBackedIff(net, base, e);
    } else {
      DeliverKeepsInv(net, base, e);
      AllStayBackedIff(net, e);
      assert NodeOk(net, e.at) && NodeOk(Apply(net, e), e.at) && InstalledBacked(net, e.at);
      if RevivedBy(net, e) {
        RevivedBackedIff(net, e);
      } else {
        NotRevivedStaysBacked(net, e);
      }
    }
  }

  lemma OtherStepKeepsBacked(net: Net, base: RouterId -> u16, e: Event)
    requires Inv(net, base) && AllBacked(net) && Windowed(net, base) && Enabled(net, e)
    requires !e.Deliver? && !MixedBy(net, e)
    ensures Inv(Apply(net, e), base) && AllBacked(Apply(net, e))
  {
    assert NodeOk(net, e.at) && InstalledBacked(net, e.at);
    if IsLocal(e) {
      LocalKeepsInv(net, base, e);
      assert NodeOk(Apply(net, e), e.at);
      LocalStaysBacked(net, e);
    } else if e.AdvertiseOwn? {
      AdvertiseOwnKeeps(net, base, e);
    } else {
      AdvertiseKeepsInv(net, base, e);
      AdvertiseStaysBacked(net, base, e);
    }
    AllStayBackedIff(net, e);
  }

  // Any step of any node, whatever the kernel answers, keeps every finite installed route backed,
  // exactly when it is harmless.
  lemma StepKeepsBackedIff(net: Net, base: RouterId -> u16, e: Event)
    requires Inv(net, base) && AllBacked(net) && Windowed(net, base) && Enabled(net, e)
    ensures Inv(Apply(net, e), base) && AllBacked(Apply(net, e)) <==> Harmless(net, e)
  {
    if e.Deliver? {
      DeliverKeepsBackedIff(net, base, e);
    } else if MixedBy(net, e) {
      MixedKeepsBackedIff(net, base, e);
    } else {
      OtherStepKeepsBacked(net, base, e);
    }
  }

  // ---- whole runs

  // A run: enabled events, the sequence numbers of each source staying in one window.
  ghost predicate Run(net: Net, base: RouterId -> u16, es: seq<Event>)
    decreases |es|
  {
    && Windowed(net, base)
    && (es != [] ==> Enabled(net, es[0]) && Run(Apply(net, es[0]), base, es[1..]))
  }

  ghost function Final(net: Net, base: RouterId -> u16, es: seq<Event>): Net
    requires Run(net, base, es)
    decreases |es|
  {
    if es == [] then net else Final(Apply(net, es[0]), base, es[1..])
  }

  ghost predicate AllHarmless(net: Net, base: RouterId -> u16, es: seq<Event>)
    requires Run(net, base, es)
    decreases |es|
  {
    es != [] ==> Harmless(net, es[0]) && AllHarmless(Apply(net, es[0]), base, es[1..])
  }

  lemma {:induction false} RunKeepsBacked(net: Net, base: RouterId -> u16, es: seq<Event>)
    requires Run(net, base, es) && AllHarmless(net, base, es)
    requires Inv(net, base) && AllBacked(net)
    ensures Inv(Final(net, base, es), base) && AllBacked(Final(net, base, es)) && Windowed(Final(net, base, es), base)
    decreases |es|
  {
    if es == [] {
    } else {
      StepKeepsBackedIff(net, base, es[0]);
      RunKeepsBacked(Apply(net, es[0]), base, es[1..]);
    }
  }

  // Loop freedom: after every harmless run, the finite installed routes to a source form no cycle.
  lemma LoopFreedom(net: Net, base: RouterId -> u16, es: seq<Event>)
    requires Initial(net) && Run(net, base, es) && AllHarmless(net, base, es)
    ensures LoopFree(Final(net, base, es))
  {
    RunKeepsBacked(net, base, es);
    BackedIsLoopFree(Final(net, base, es), base);
  }

  // No event revives a route or mixes distances: each node can tell from its own routes and sources
  // and the kernel's answer.
  ghost predicate AllPlain(net: Net, base: RouterId -> u16, es: seq<Event>)
    requires Run(net, base, es)
    decreases |es|
  {
    es != [] ==>
      !RevivedBy(net, es[0]) && !MixedBy(net, es[0]) && AllPlain(Apply(net, es[0]), base, es[1..])
  }

  lemma {:induction false} PlainIsHarmless(net: Net, base: RouterId -> u16, es: seq<Event>)
    requires Run(net, base, es) && AllPlain(net, base, es)
    ensures AllHarmless(net, base, es)
    decreases |es|
  {
    if es == [] {
    } else {
      PlainIsHarmless(Apply(net, es[0]), base, es[1..]);
    }
  }

  // Loop freedom under a condition each node can check for itself.
  lemma PlainRunsAreLoopFree(net: Net, base: RouterId -> u16, es: seq<Event>)
    requires Initial(net) && Run(net, base, es) && AllPlain(net, base, es)
    ensures LoopFree(Final(net, base, es))
  {
    PlainIsHarmless(net, base, es);
    LoopFreedom(net, base, es);
  }
}
