// Small runs of three nodes, node 0 originating the destination: what the counterexamples to loop
// freedom are made of. Sequence numbers stay below 2 and all clocks at 0.
module NetworkRuns {
  import opened Util
  import opened Feasibility
  import opened Destination
  import opened Network
  import opened Prefix

  const KEY := Key([0, 0, 0, 0, 0, 0, 0, 0, 0, 0, 0, 0, 0, 0, 0, 0], 0)
  const ENV := Env(0, -1, false, 0)
  const ACCEPT := Kernel(true, true, true)
  const REFUSE := Kernel(false, true, true)
  const BASE: RouterId -> u16 := id => 0
  const NOTHING := Dest([], map[], None)
  const OWN := Message(0, 0, 0, 0)

  function Via(node: RouterId): Hop {
    Hop(Neighbour(node, 0), Address(false, 0))
  }

  function Learned(node: RouterId, seqno: u16, refmetric: u16, cost: u16, installed: bool): Route {
    Route(KEY, 0, refmetric, cost, 0, seqno, Via(node), 0, 24, installed)
  }

  // A node that has advertised (seqno, metric).
  function Node(slot: Slot, seqno: u16, metric: u16): Dest {
    Dest(slot, map[0 := Source(seqno, metric, 0, |slot|)], None)
  }

  function Arriving(msg: Message, cost: nat): Update {
    Update(KEY, msg.id, msg.seqno, msg.metric, 400, Via(msg.sender), cost, 0)
  }

  function Three(x: Dest, y: Dest, sent: set<Message>): Net {
    Net(KEY, map[0 := NOTHING, 1 := x, 2 := y], sent)
  }

  function Hear(at: RouterId, msg: Message, cost: nat, k: Kernel): Event {
    Deliver(at, msg, 0, Address(false, 0), 400, cost, 0, ENV, k)
  }

  // The sequence numbers stay in the window.
  ghost predicate Small(d: Dest) {
    Ok(d) && Live(d, 0) && forall id :: id in d.srcs ==> d.srcs[id].seqno < 2
  }

  ghost predicate SmallNet(x: Dest, y: Dest, sent: set<Message>) {
    Small(x) && Small(y) && forall m :: m in sent ==> m.seqno < 2
  }

  lemma NodeSmall(slot: Slot, seqno: u16, metric: u16)
    requires seqno < 2 && forall i :: 0 <= i < |slot| ==> slot[i].src == 0
    requires HopsUnique(slot) && InstalledFirst(slot)
    ensures Small(Node(slot, seqno, metric))
  {
    CountAll(slot);
  }

  lemma {:induction false} CountAll(slot: Slot)
    requires forall i :: 0 <= i < |slot| ==> slot[i].src == 0
    ensures Count(slot, 0) == |slot|
  {
    if slot == [] {
    } else {
      CountAll(slot[1..]);
    }
  }

  // ---- single steps

  // What the steps of a run must not do: mix distances, or else revive routes.
  predicate Avoided(net: Net, e: Event, mixing: bool)
    requires e.at in net.nodes
  {
    if mixing then !MixedBy(net, e) else !RevivedBy(net, e)
  }

  ghost predicate Linked(net: Net, e: Event, next: Net, mixing: bool) {
    Windowed(net, BASE) && Enabled(net, e) && Avoided(net, e, mixing) && Apply(net, e) == next
  }

  lemma ThreeWindowed(x: Dest, y: Dest, sent: set<Message>)
    requires SmallNet(x, y, sent)
    ensures Windowed(Three(x, y, sent), BASE)
    ensures forall d :: Three(d, y, sent).nodes == Three(x, y, sent).nodes[1 := d]
    ensures forall d :: Three(x, d, sent).nodes == Three(x, y, sent).nodes[2 := d]
  {
  }

  // A message arrives.
  lemma HearStep(net: Net, at: RouterId, msg: Message, cost: nat, k: Kernel, d: Dest, mixing: bool)
    requires net.key == KEY && Windowed(net, BASE) && at in net.nodes && Ok(net.nodes[at]) && Live(net.nodes[at], 0)
    requires msg in net.sent && 1 <= cost <= 100
    requires UpdateRoute(net.nodes[at], at, Arriving(msg, cost), ENV, k) == d
    requires if mixing then k.metricOk else !Revives(net.nodes[at], at, Arriving(msg, cost), ENV, k)
    ensures Linked(net, Hear(at, msg, cost, k), Net(net.key, net.nodes[at := d], net.sent), mixing)
  {
    var e := Hear(at, msg, cost, k);
    assert UpdateOf(net, e) == Arriving(msg, cost) && net.sent + {} == net.sent;
  }

  lemma Hear1(x: Dest, y: Dest, sent: set<Message>, msg: Message, k: Kernel, x': Dest, mixing: bool)
    requires SmallNet(x, y, sent) && msg in sent && UpdateRoute(x, 1, Arriving(msg, 1), ENV, k) == x'
    requires if mixing then k.metricOk else !Revives(x, 1, Arriving(msg, 1), ENV, k)
    ensures Linked(Three(x, y, sent), Hear(1, msg, 1, k), Three(x', y, sent), mixing)
  {
    ThreeWindowed(x, y, sent);
    HearStep(Three(x, y, sent), 1, msg, 1, k, x', mixing);
  }

  lemma Hear2(x: Dest, y: Dest, sent: set<Message>, msg: Message, cost: nat, y': Dest, mixing: bool)
    requires SmallNet(x, y, sent) && msg in sent
    requires 1 <= cost <= 100 && UpdateRoute(y, 2, Arriving(msg, cost), ENV, ACCEPT) == y'
    requires mixing || !Revives(y, 2, Arriving(msg, cost), ENV, ACCEPT)
    ensures Linked(Three(x, y, sent), Hear(2, msg, cost, ACCEPT), Three(x, y', sent), mixing)
  {
    ThreeWindowed(x, y, sent);
    HearStep(Three(x, y, sent), 2, msg, cost, ACCEPT, y', mixing);
  }

  // The installed route of d is advertised as msg.
  ghost predicate Advertises(d: Dest, at: RouterId, msg: Message) {
    && HasInstalled(d) && d.slot[0].src in d.srcs && msg.sender == at
    && msg.id == d.slot[0].src && msg.seqno == d.slot[0].seqno && msg.metric == RouteMetric(d.slot[0])
  }

  lemma AdvertiseStep(net: Net, at: RouterId, msg: Message, d: Dest, mixing: bool)
    requires net.key == KEY && Windowed(net, BASE) && at in net.nodes && Ok(net.nodes[at]) && Live(net.nodes[at], 0)
    requires Advertises(net.nodes[at], at, msg) && Advertised(net.nodes[at], 0, msg.metric) == d
    ensures Linked(net, AdvertiseInstalled(at, None, 0, ENV), Net(net.key, net.nodes[at := d], net.sent + {msg}),
                   mixing)
  {
  }

  lemma Advertise1(x: Dest, y: Dest, sent: set<Message>, msg: Message, x': Dest, mixing: bool)
    requires SmallNet(x, y, sent) && Advertises(x, 1, msg) && Advertised(x, 0, msg.metric) == x'
    ensures Linked(Three(x, y, sent), AdvertiseInstalled(1, None, 0, ENV), Three(x', y, sent + {msg}), mixing)
  {
    ThreeWindowed(x, y, sent);
    AdvertiseStep(Three(x, y, sent), 1, msg, x', mixing);
  }

  lemma Advertise2(x: Dest, y: Dest, sent: set<Message>, msg: Message, y': Dest, mixing: bool)
    requires SmallNet(x, y, sent) && Advertises(y, 2, msg) && Advertised(y, 0, msg.metric) == y'
    ensures Linked(Three(x, y, sent), AdvertiseInstalled(2, None, 0, ENV), Three(x, y', sent + {msg}), mixing)
  {
    ThreeWindowed(x, y, sent);
    AdvertiseStep(Three(x, y, sent), 2, msg, y', mixing);
  }

  lemma AdvertiseOrigin(x: Dest, y: Dest, sent: set<Message>, msg: Message, mixing: bool)
    requires SmallNet(x, y, sent) && msg.sender == msg.id == 0
    ensures Linked(Three(x, y, sent), AdvertiseOwn(0, msg.seqno, msg.metric), Three(x, y, sent + {msg}), mixing)
  {
    ThreeWindowed(x, y, sent);
    var net := Three(x, y, sent);
    assert net.nodes[0 := net.nodes[0]] == net.nodes;
  }

  // ---- runs

  // The run leads from one state to the other and does nothing it must not do.
  ghost predicate Leads(net: Net, es: seq<Event>, last: Net, mixing: bool) {
    Run(net, BASE, es) && Final(net, BASE, es) == last && AllAvoided(net, es, mixing)
  }

  ghost predicate AllAvoided(net: Net, es: seq<Event>, mixing: bool)
    requires Run(net, BASE, es)
    decreases |es|
  {
    es != [] ==> Avoided(net, es[0], mixing) && AllAvoided(Apply(net, es[0]), es[1..], mixing)
  }

  lemma {:induction false} Join(net: Net, es: seq<Event>, mid: Net, fs: seq<Event>, last: Net, mixing: bool)
    requires Leads(net, es, mid, mixing) && Leads(mid, fs, last, mixing)
    ensures Leads(net, es + fs, last, mixing)
    decreases |es|
  {
    if es == [] {
      assert es + fs == fs;
    } else {
      assert (es + fs)[1..] == es[1..] + fs;
      Join(Apply(net, es[0]), es[1..], mid, fs, last, mixing);
    }
  }

  lemma LeadsOne(net: Net, e: Event, last: Net, mixing: bool)
    requires Linked(net, e, last, mixing) && Windowed(last, BASE)
    ensures Leads(net, [e], last, mixing)
  {
    assert [e][1..] == [];
  }

  // Two events in a row.
  lemma LeadsTwo(net: Net, e: Event, mid: Net, f: Event, last: Net, mixing: bool)
    requires Linked(net, e, mid, mixing) && Linked(mid, f, last, mixing) && Windowed(last, BASE)
    ensures Leads(net, [e, f], last, mixing)
  {
    LeadsOne(net, e, mid, mixing);
    LeadsOne(mid, f, last, mixing);
    Join(net, [e], mid, [f], last, mixing);
    assert [e] + [f] == [e, f];
  }

  // Nobody knows anything yet.
  const START := Three(NOTHING, NOTHING, {})

  // Nodes 1 and 2 forward to each other.
  lemma EndsInLoop(x: Dest, y: Dest, sent: set<Message>)
    requires HasInstalled(x) && x.slot[0].src == 0 && x.slot[0].refmetric < INFINITY && x.slot[0].hop.neigh.node == 2
    requires HasInstalled(y) && y.slot[0].src == 0 && y.slot[0].refmetric < INFINITY && y.slot[0].hop.neigh.node == 1
    ensures !LoopFree(Three(x, y, sent))
  {
    var net, path: seq<RouterId> := Three(x, y, sent), [1, 2, 1];
    assert Edge(net, 0, 1, 2) && Edge(net, 0, 2, 1);
    assert path[1..] == [2, 1] && path[1..][1..] == [1];
    assert IsPath(net, 0, path) && path[0] == path[|path| - 1];
  }

  // Node 1 or 2, knowing nothing, hears the origin.
  lemma HearsFirst(at: RouterId, cost: nat)
    requires at != 0 && 1 <= cost <= 100
    ensures UpdateRoute(NOTHING, at, Arriving(OWN, cost), ENV, ACCEPT)
            == Node([Learned(0, 0, 0, cost, true)], 0, INFINITY)
  {
    HearsFirstFrom(0, 0, at, cost);
  }

  // A node that knows nothing hears of the origin from a neighbour.
  lemma HearsFirstFrom(neigh: RouterId, metric: u16, at: RouterId, cost: nat)
    requires at != 0 && 1 <= cost <= 100 && metric < 1000
    ensures UpdateRoute(NOTHING, at, Arriving(Message(neigh, 0, 0, metric), cost), ENV, ACCEPT)
            == Node([Learned(neigh, 0, metric, cost, true)], 0, INFINITY)
  {
    var u := Arriving(Message(neigh, 0, 0, metric), cost);
    var d1 := Dest([], map[0 := NewSource(0, 0)], None);
    assert EnsureSource(NOTHING, 0, 0, 0) == d1;
    var r := NewRoute(u, 0);
    var d2 := Dest([r], map[0 := Source(0, INFINITY, 0, 1)], None);
    assert d1.slot + [r] == d2.slot && Retain(d1.srcs, 0) == d2.srcs;
    assert MoveToFront(SetInstalled([r], 0, true), 0) == [Learned(neigh, 0, metric, cost, true)];
  }

  lemma AdvertisesBetter(slot: Slot, seqno: u16, metric: u16, seqno': u16, metric': u16)
    requires slot != [] && slot[0].src == 0 && slot[0].seqno == seqno' && metric' < INFINITY
    requires seqno <= seqno' < 2 && (seqno == seqno' ==> metric' < metric)
    ensures Advertised(Node(slot, seqno, metric), 0, metric') == Node(slot, seqno', metric')
  {
  }
}
