// A second run of three nodes that ends in a forwarding loop, this time without reviving any route: the
// kernel refuses to retract the installed route of node 1, which so keeps its old distance under the
// new sequence number and advertises what nobody told it (qsrx/babeld/route.c:468-496, 734-742).
module NetworkRefusal {
  import opened Util
  import opened Feasibility
  import opened Destination
  import opened Network
  import opened NetworkRuns

  const NEAR := Message(2, 0, 0, 1)
  const GONE := Message(0, 0, 1, INFINITY)
  const LOST := Message(2, 0, 1, INFINITY)
  const MIXED := Message(1, 0, 1, 2)

  // The routes that nodes 1 and 2 hold in turn.
  const DIRECT := Learned(0, 0, 0, 1, true)
  const THROUGH2 := Learned(2, 0, 1, 1, true)
  const RETRACTED := Learned(0, 1, INFINITY, 1, true)
  const KEPT := Learned(2, 1, 1, 1, true)
  const THROUGH1 := Learned(1, 1, 2, 1, true)

  // The origin retracts the destination under sequence number 1, and the route of node 2 stays installed.
  lemma HearsRetraction()
    ensures UpdateRoute(Node([DIRECT], 0, 1), 2, Arriving(GONE, 1), ENV, ACCEPT) == Node([RETRACTED], 0, 1)
  {
    var d, u := Node([DIRECT], 0, 1), Arriving(GONE, 1);
    NodeSmall([DIRECT], 0, 1);
    assert UpdatedRoute(d, 0, u, ENV, ACCEPT) == RETRACTED;
    assert UpdateDecided(d, 0, u, ENV, ACCEPT).slot == [RETRACTED];
    assert Release(Retain(d.srcs, 0), 0) == d.srcs;
  }

  // The kernel of node 1 refuses: a new sequence number, the old distance.
  lemma RefusesRetraction()
    ensures UpdateRoute(Node([THROUGH2], 0, INFINITY), 1, Arriving(LOST, 1), ENV, REFUSE) == Node([KEPT], 0, INFINITY)
  {
    var d, u := Node([THROUGH2], 0, INFINITY), Arriving(LOST, 1);
    NodeSmall([THROUGH2], 0, INFINITY);
    assert UpdatedRoute(d, 0, u, ENV, REFUSE) == KEPT;
    assert UpdateDecided(d, 0, u, ENV, REFUSE).slot == [KEPT];
    assert Release(Retain(d.srcs, 0), 0) == d.srcs;
  }

  // Node 2 finds that distance feasible, and switches to it from its retracted route.
  lemma HearsMixed()
    ensures UpdateRoute(Node([RETRACTED], 0, 1), 2, Arriving(MIXED, 1), ENV, ACCEPT)
            == Node([THROUGH1, RETRACTED.(installed := false)], 0, 1)
  {
    var d, u := Node([RETRACTED], 0, 1), Arriving(MIXED, 1);
    NodeSmall([RETRACTED], 0, 1);
    var stored := [RETRACTED, NewRoute(u, 0)];
    assert d.slot + [NewRoute(u, 0)] == stored;
    assert Retain(d.srcs, 0) == map[0 := Source(0, 1, 0, 2)];
    assert MoveToFront(SetInstalled(SetInstalled(stored, 0, false), 1, true), 1)
        == [THROUGH1, RETRACTED.(installed := false)];
  }

  // ---- the run

  // What the nodes hold after each event of the run; the other nodes stay as they are.
  const X1 := Node([THROUGH2], 0, INFINITY)
  const X2 := Node([KEPT], 0, INFINITY)
  const X3 := Node([KEPT], 1, 2)
  const Y1 := Node([DIRECT], 0, INFINITY)
  const Y2 := Node([DIRECT], 0, 1)
  const Y3 := Node([RETRACTED], 0, 1)
  const Y4 := Node([THROUGH1, RETRACTED.(installed := false)], 0, 1)

  const ADVERTISE1 := AdvertiseInstalled(1, None, 0, ENV)
  const ADVERTISE2 := AdvertiseInstalled(2, None, 0, ENV)

  lemma AllSmall()
    ensures Small(NOTHING) && Small(X1) && Small(X2) && Small(X3)
    ensures Small(Y1) && Small(Y2) && Small(Y3) && Small(Y4)
  {
    NodeSmall(X1.slot, 0, INFINITY);
    NodeSmall(X2.slot, 0, INFINITY);
    NodeSmall(X3.slot, 1, 2);
    NodeSmall(Y1.slot, 0, INFINITY);
    NodeSmall(Y2.slot, 0, 1);
    NodeSmall(Y3.slot, 0, 1);
    NodeSmall(Y4.slot, 0, 1);
  }

  // Node 2 hears the origin.
  lemma Opening()
    ensures Leads(START, [AdvertiseOwn(0, 0, 0), Hear(2, OWN, 1, ACCEPT)], Three(NOTHING, Y1, {OWN}), false)
  {
    AllSmall();
    AdvertiseOrigin(NOTHING, NOTHING, {}, OWN, false);
    assert {} + {OWN} == {OWN};
    HearsFirst(2, 1);
    Hear2(NOTHING, NOTHING, {OWN}, OWN, 1, Y1, false);
    ThreeWindowed(NOTHING, Y1, {OWN});
    LeadsTwo(START, AdvertiseOwn(0, 0, 0), Three(NOTHING, NOTHING, {OWN}), Hear(2, OWN, 1, ACCEPT),
             Three(NOTHING, Y1, {OWN}), false);
  }

  // Node 1 hears node 2.
  lemma Near()
    ensures Leads(Three(NOTHING, Y1, {OWN}), [ADVERTISE2, Hear(1, NEAR, 1, ACCEPT)], Three(X1, Y2, {OWN, NEAR}), false)
  {
    AllSmall();
    AdvertisesBetter(Y1.slot, 0, INFINITY, 0, 1);
    assert {OWN} + {NEAR} == {OWN, NEAR};
    Advertise2(NOTHING, Y1, {OWN}, NEAR, Y2, false);
    HearsFirstFrom(2, 1, 1, 1);
    Hear1(NOTHING, Y2, {OWN, NEAR}, NEAR, ACCEPT, X1, false);
    ThreeWindowed(X1, Y2, {OWN, NEAR});
    LeadsTwo(Three(NOTHING, Y1, {OWN}), ADVERTISE2, Three(NOTHING, Y2, {OWN, NEAR}), Hear(1, NEAR, 1, ACCEPT),
             Three(X1, Y2, {OWN, NEAR}), false);
  }

  // The origin retracts the destination, and node 2 hears it.
  lemma Retraction()
    ensures Leads(Three(X1, Y2, {OWN, NEAR}), [AdvertiseOwn(0, 1, INFINITY), Hear(2, GONE, 1, ACCEPT)],
                  Three(X1, Y3, {OWN, NEAR, GONE}), false)
  {
    AllSmall();
    var sent := {OWN, NEAR, GONE};
    AdvertiseOrigin(X1, Y2, {OWN, NEAR}, GONE, false);
    assert {OWN, NEAR} + {GONE} == sent;
    HearsRetraction();
    Hear2(X1, Y2, sent, GONE, 1, Y3, false);
    ThreeWindowed(X1, Y3, sent);
    LeadsTwo(Three(X1, Y2, {OWN, NEAR}), AdvertiseOwn(0, 1, INFINITY), Three(X1, Y2, sent), Hear(2, GONE, 1, ACCEPT),
             Three(X1, Y3, sent), false);
  }

  // Node 2 passes the retraction on, and the kernel of node 1 refuses it.
  lemma Refusal()
    ensures Leads(Three(X1, Y3, {OWN, NEAR, GONE}), [ADVERTISE2, Hear(1, LOST, 1, REFUSE)],
                  Three(X2, Y3, {OWN, NEAR, GONE, LOST}), false)
  {
    AllSmall();
    var before, sent := {OWN, NEAR, GONE}, {OWN, NEAR, GONE, LOST};
    assert before + {LOST} == sent;
    Advertise2(X1, Y3, before, LOST, Y3, false);
    RefusesRetraction();
    Hear1(X1, Y3, sent, LOST, REFUSE, X2, false);
    ThreeWindowed(X2, Y3, sent);
    LeadsTwo(Three(X1, Y3, before), ADVERTISE2, Three(X1, Y3, sent), Hear(1, LOST, 1, REFUSE),
             Three(X2, Y3, sent), false);
  }

  // Node 1 advertises what it kept, and node 2 goes through node 1.
  lemma Closing()
    ensures Leads(Three(X2, Y3, {OWN, NEAR, GONE, LOST}), [ADVERTISE1, Hear(2, MIXED, 1, ACCEPT)],
                  Three(X3, Y4, {OWN, NEAR, GONE, LOST, MIXED}), false)
  {
    AllSmall();
    var before, sent := {OWN, NEAR, GONE, LOST}, {OWN, NEAR, GONE, LOST, MIXED};
    AdvertisesBetter(X2.slot, 0, INFINITY, 1, 2);
    assert before + {MIXED} == sent;
    Advertise1(X2, Y3, before, MIXED, X3, false);
    HearsMixed();
    Hear2(X3, Y3, sent, MIXED, 1, Y4, false);
    ThreeWindowed(X3, Y4, sent);
    LeadsTwo(Three(X2, Y3, before), ADVERTISE1, Three(X3, Y3, sent), Hear(2, MIXED, 1, ACCEPT),
             Three(X3, Y4, sent), false);
  }

  // Up to the retraction, all is well.
  lemma Exchanges() returns (es: seq<Event>)
    ensures Leads(START, es, Three(X1, Y3, {OWN, NEAR, GONE}), false)
  {
    Opening();
    es := [AdvertiseOwn(0, 0, 0), Hear(2, OWN, 1, ACCEPT)];
    Near();
    Join(START, es, Three(NOTHING, Y1, {OWN}), [ADVERTISE2, Hear(1, NEAR, 1, ACCEPT)],
         Three(X1, Y2, {OWN, NEAR}), false);
    es := es + [ADVERTISE2, Hear(1, NEAR, 1, ACCEPT)];
    Retraction();
    Join(START, es, Three(X1, Y2, {OWN, NEAR}), [AdvertiseOwn(0, 1, INFINITY), Hear(2, GONE, 1, ACCEPT)],
         Three(X1, Y3, {OWN, NEAR, GONE}), false);
    es := es + [AdvertiseOwn(0, 1, INFINITY), Hear(2, GONE, 1, ACCEPT)];
  }

  // The whole run.
  lemma Looping() returns (es: seq<Event>)
    ensures Leads(START, es, Three(X3, Y4, {OWN, NEAR, GONE, LOST, MIXED}), false)
  {
    es := Exchanges();
    Refusal();
    Join(START, es, Three(X1, Y3, {OWN, NEAR, GONE}), [ADVERTISE2, Hear(1, LOST, 1, REFUSE)],
         Three(X2, Y3, {OWN, NEAR, GONE, LOST}), false);
    es := es + [ADVERTISE2, Hear(1, LOST, 1, REFUSE)];
    Closing();
    Join(START, es, Three(X2, Y3, {OWN, NEAR, GONE, LOST}), [ADVERTISE1, Hear(2, MIXED, 1, ACCEPT)],
         Three(X3, Y4, {OWN, NEAR, GONE, LOST, MIXED}), false);
    es := es + [ADVERTISE1, Hear(2, MIXED, 1, ACCEPT)];
  }

  // From the initial state a run of Network reaches a loop although no route is revived:
  // Network.LoopFreedom needs its condition that mixed distances be vouched for.
  lemma LoopReached() returns (es: seq<Event>)
    ensures Initial(START) && Run(START, BASE, es) && AllAvoided(START, es, false)
    ensures !LoopFree(Final(START, BASE, es))
  {
    es := Looping();
    EndsInLoop(X3, Y4, {OWN, NEAR, GONE, LOST, MIXED});
  }
}
