// A run of three nodes, within all the assumptions of Network and with a kernel that refuses nothing,
// that ends in a forwarding loop: a retracted route is installed because retractions count as
// feasible, and an unfeasible update then gives it a finite metric again while it stays installed
// (qsrx/babeld/route.c:724-742, 837-840).
module NetworkLoop {
  import opened Util
  import opened Feasibility
  import opened Destination
  import opened Network
  import opened NetworkRuns

  const FAR := Message(2, 0, 0, 100)
  const NEAR := Message(1, 0, 0, 1)
  const BACK := Message(2, 0, 0, 2)

  // The routes that nodes 1 and 2 hold in turn.
  const DIRECT := Learned(0, 0, 0, 1, true)
  const THROUGH2 := Learned(2, 0, 100, 1, false)
  const SLOW := Learned(0, 0, 0, 100, true)
  const THROUGH1 := Learned(1, 0, 1, 1, true)
  const RETRACTED := Learned(2, 0, INFINITY, INFINITY, true)
  const REVIVED := Learned(2, 0, 2, 1, true)

  // Node 1 also stores the slower route through node 2.
  lemma HearsFar()
    ensures UpdateRoute(Node([DIRECT], 0, INFINITY), 1, Arriving(FAR, 1), ENV, ACCEPT)
            == Node([DIRECT, THROUGH2], 0, INFINITY)
  {
    var d, u := Node([DIRECT], 0, INFINITY), Arriving(FAR, 1);
    NodeSmall([DIRECT], 0, INFINITY);
    assert d.slot + [NewRoute(u, 0)] == [DIRECT, THROUGH2];
    assert Retain(d.srcs, 0) == map[0 := Source(0, INFINITY, 0, 2)];
  }

  // Node 2 switches to the better route through node 1.
  lemma HearsNear()
    ensures UpdateRoute(Node([SLOW], 0, 100), 2, Arriving(NEAR, 1), ENV, ACCEPT)
            == Node([THROUGH1, SLOW.(installed := false)], 0, 100)
  {
    var d, u := Node([SLOW], 0, 100), Arriving(NEAR, 1);
    NodeSmall([SLOW], 0, 100);
    var stored := [SLOW, NewRoute(u, 0)];
    assert d.slot + [NewRoute(u, 0)] == stored;
    assert Retain(d.srcs, 0) == map[0 := Source(0, 100, 0, 2)];
    assert MoveToFront(SetInstalled(SetInstalled(stored, 0, false), 1, true), 1)
        == [THROUGH1, SLOW.(installed := false)];
  }

  // Node 1 loses its direct route; the other one is unfeasible and is not installed.
  lemma LosesDirect()
    ensures Ok(Node([DIRECT, THROUGH2], 0, 1))
    ensures FlushRoute(Node([DIRECT, THROUGH2], 0, 1), 0, ENV, ACCEPT) == Node([THROUGH2], 0, 1)
  {
    var d := Node([DIRECT, THROUGH2], 0, 1);
    NodeSmall(d.slot, 0, 1);
    var d1 := d.(slot := [THROUGH2]);
    assert Without(d.slot, 0) == [THROUGH2];
    assert RouteLost(d1, ENV, true) == d1;
    assert Release(d.srcs, 0) == map[0 := Source(0, 1, 0, 1)];
  }

  // The retraction makes it feasible, and it is installed.
  lemma InstallsRetracted()
    ensures RetractNeighbourRoute(Node([THROUGH2], 0, 1), 0, ENV, ACCEPT) == Node([RETRACTED], 0, 1)
  {
    var r := THROUGH2.(refmetric := INFINITY, cost := INFINITY, addMetric := 0);
    var d1 := Node([THROUGH2], 0, 1).(slot := [r]);
    assert [THROUGH2][0 := r] == [r];
    assert MoveToFront(SetInstalled([r], 0, true), 0) == [RETRACTED];
    assert RouteChanged(d1, 0, 101, ENV, true).slot == [RETRACTED];
  }

  // The unfeasible update gives the installed route a finite metric again.
  lemma RevivesRetracted()
    ensures UpdateRoute(Node([RETRACTED], 0, 1), 1, Arriving(BACK, 1), ENV, ACCEPT) == Node([REVIVED], 0, 1)
  {
    var d, u := Node([RETRACTED], 0, 1), Arriving(BACK, 1);
    NodeSmall([RETRACTED], 0, 1);
    assert UpdatedRoute(d, 0, u, ENV, ACCEPT) == REVIVED;
    assert UpdateDecided(d, 0, u, ENV, ACCEPT).slot == [REVIVED];
    assert Release(Retain(d.srcs, 0), 0) == d.srcs;
  }

  // ---- the run

  // What the nodes hold after each event of the run; the other nodes stay as they are.
  const X1 := Node([DIRECT], 0, INFINITY)
  const X2 := Node([DIRECT, THROUGH2], 0, INFINITY)
  const X3 := Node([DIRECT, THROUGH2], 0, 1)
  const X4 := Node([THROUGH2], 0, 1)
  const X5 := Node([RETRACTED], 0, 1)
  const X6 := Node([REVIVED], 0, 1)
  const Y1 := Node([SLOW], 0, INFINITY)
  const Y2 := Node([SLOW], 0, 100)
  const Y3 := Node([THROUGH1, SLOW.(installed := false)], 0, 100)
  const Y4 := Node([THROUGH1, SLOW.(installed := false)], 0, 2)

  const ADVERTISE1 := AdvertiseInstalled(1, None, 0, ENV)
  const ADVERTISE2 := AdvertiseInstalled(2, None, 0, ENV)
  const FLUSH1 := Flush(1, 0, ENV, ACCEPT)
  const RETRACT1 := Retract(1, 0, ENV, ACCEPT)

  lemma AllSmall1()
    ensures Small(NOTHING) && Small(X1) && Small(X2) && Small(X3) && Small(X4) && Small(X5) && Small(X6)
  {
    NodeSmall(X1.slot, 0, INFINITY);
    NodeSmall(X2.slot, 0, INFINITY);
    NodeSmall(X3.slot, 0, 1);
    NodeSmall(X4.slot, 0, 1);
    NodeSmall(X5.slot, 0, 1);
    NodeSmall(X6.slot, 0, 1);
  }

  lemma AllSmall2()
    ensures Small(Y1) && Small(Y2) && Small(Y3) && Small(Y4)
  {
    NodeSmall(Y1.slot, 0, INFINITY);
    NodeSmall(Y2.slot, 0, 100);
    NodeSmall(Y3.slot, 0, 100);
    NodeSmall(Y4.slot, 0, 2);
  }

  lemma FlushStep(x: Dest, y: Dest, sent: set<Message>, x': Dest)
    requires SmallNet(x, y, sent) && x.slot != [] && FlushRoute(x, 0, ENV, ACCEPT) == x'
    ensures Linked(Three(x, y, sent), FLUSH1, Three(x', y, sent), true)
  {
    ThreeWindowed(x, y, sent);
    assert sent + {} == sent;
  }

  lemma RetractStep(x: Dest, y: Dest, sent: set<Message>, x': Dest)
    requires SmallNet(x, y, sent) && x.slot != [] && RetractNeighbourRoute(x, 0, ENV, ACCEPT) == x'
    ensures Linked(Three(x, y, sent), RETRACT1, Three(x', y, sent), true)
  {
    ThreeWindowed(x, y, sent);
    assert sent + {} == sent;
  }

  // Both nodes hear the origin.
  lemma Opening() returns (es: seq<Event>)
    ensures Leads(START, es, Three(X1, Y1, {OWN}), true)
  {
    AllSmall1();
    AllSmall2();
    var net1, net2 := Three(NOTHING, NOTHING, {OWN}), Three(X1, NOTHING, {OWN});
    AdvertiseOrigin(NOTHING, NOTHING, {}, OWN, true);
    assert {} + {OWN} == {OWN};
    ThreeWindowed(NOTHING, NOTHING, {OWN});
    LeadsOne(START, AdvertiseOwn(0, 0, 0), net1, true);
    HearsFirst(1, 1);
    Hear1(NOTHING, NOTHING, {OWN}, OWN, ACCEPT, X1, true);
    HearsFirst(2, 100);
    Hear2(X1, NOTHING, {OWN}, OWN, 100, Y1, true);
    ThreeWindowed(X1, Y1, {OWN});
    LeadsTwo(net1, Hear(1, OWN, 1, ACCEPT), net2, Hear(2, OWN, 100, ACCEPT), Three(X1, Y1, {OWN}), true);
    es := [AdvertiseOwn(0, 0, 0)] + [Hear(1, OWN, 1, ACCEPT), Hear(2, OWN, 100, ACCEPT)];
    Join(START, [AdvertiseOwn(0, 0, 0)], net1, [Hear(1, OWN, 1, ACCEPT), Hear(2, OWN, 100, ACCEPT)],
         Three(X1, Y1, {OWN}), true);
  }

  // Node 2 advertises its slow route and node 1 stores it.
  lemma Far()
    ensures Leads(Three(X1, Y1, {OWN}), [ADVERTISE2, Hear(1, FAR, 1, ACCEPT)], Three(X2, Y2, {OWN, FAR}), true)
  {
    AllSmall1();
    AllSmall2();
    AdvertisesBetter(Y1.slot, 0, INFINITY, 0, 100);
    assert {OWN} + {FAR} == {OWN, FAR};
    Advertise2(X1, Y1, {OWN}, FAR, Y2, true);
    HearsFar();
    Hear1(X1, Y2, {OWN, FAR}, FAR, ACCEPT, X2, true);
    ThreeWindowed(X2, Y2, {OWN, FAR});
    LeadsTwo(Three(X1, Y1, {OWN}), ADVERTISE2, Three(X1, Y2, {OWN, FAR}), Hear(1, FAR, 1, ACCEPT),
             Three(X2, Y2, {OWN, FAR}), true);
  }

  // Node 1 advertises its route and node 2 switches to it.
  lemma Near()
    ensures Leads(Three(X2, Y2, {OWN, FAR}), [ADVERTISE1, Hear(2, NEAR, 1, ACCEPT)],
                  Three(X3, Y3, {OWN, FAR, NEAR}), true)
  {
    AllSmall1();
    AllSmall2();
    var sent := {OWN, FAR, NEAR};
    AdvertisesBetter(X2.slot, 0, INFINITY, 0, 1);
    assert {OWN, FAR} + {NEAR} == sent;
    Advertise1(X2, Y2, {OWN, FAR}, NEAR, X3, true);
    HearsNear();
    Hear2(X3, Y2, sent, NEAR, 1, Y3, true);
    ThreeWindowed(X3, Y3, sent);
    LeadsTwo(Three(X2, Y2, {OWN, FAR}), ADVERTISE1, Three(X3, Y2, sent), Hear(2, NEAR, 1, ACCEPT),
             Three(X3, Y3, sent), true);
  }

  // Node 2 advertises that route, and node 1 loses its own.
  lemma Losing()
    ensures Leads(Three(X3, Y3, {OWN, FAR, NEAR}), [ADVERTISE2, FLUSH1], Three(X4, Y4, {OWN, FAR, NEAR, BACK}), true)
  {
    AllSmall1();
    AllSmall2();
    var sent := {OWN, FAR, NEAR, BACK};
    AdvertisesBetter(Y3.slot, 0, 100, 0, 2);
    assert {OWN, FAR, NEAR} + {BACK} == sent;
    Advertise2(X3, Y3, {OWN, FAR, NEAR}, BACK, Y4, true);
    LosesDirect();
    FlushStep(X3, Y4, sent, X4);
    ThreeWindowed(X4, Y4, sent);
    LeadsTwo(Three(X3, Y3, {OWN, FAR, NEAR}), ADVERTISE2, Three(X3, Y4, sent), FLUSH1, Three(X4, Y4, sent), true);
  }

  // The other route is retracted, installed and revived.
  lemma Reviving(sent: set<Message>)
    requires BACK in sent && forall m :: m in sent ==> m.seqno < 2
    ensures Leads(Three(X4, Y4, sent), [RETRACT1, Hear(1, BACK, 1, ACCEPT)], Three(X6, Y4, sent), true)
  {
    AllSmall1();
    AllSmall2();
    InstallsRetracted();
    RetractStep(X4, Y4, sent, X5);
    RevivesRetracted();
    Hear1(X5, Y4, sent, BACK, ACCEPT, X6, true);
    ThreeWindowed(X6, Y4, sent);
    LeadsTwo(Three(X4, Y4, sent), RETRACT1, Three(X5, Y4, sent), Hear(1, BACK, 1, ACCEPT), Three(X6, Y4, sent), true);
  }

  // Up to the point where node 2 goes through node 1, and node 1 knows of the way back.
  lemma Exchanges() returns (es: seq<Event>)
    ensures Leads(START, es, Three(X3, Y3, {OWN, FAR, NEAR}), true)
  {
    es := Opening();
    Far();
    Join(START, es, Three(X1, Y1, {OWN}), [ADVERTISE2, Hear(1, FAR, 1, ACCEPT)], Three(X2, Y2, {OWN, FAR}), true);
    es := es + [ADVERTISE2, Hear(1, FAR, 1, ACCEPT)];
    Near();
    Join(START, es, Three(X2, Y2, {OWN, FAR}), [ADVERTISE1, Hear(2, NEAR, 1, ACCEPT)],
         Three(X3, Y3, {OWN, FAR, NEAR}), true);
    es := es + [ADVERTISE1, Hear(2, NEAR, 1, ACCEPT)];
  }

  // Up to the point where node 1 has lost its own route.
  lemma Loss() returns (es: seq<Event>)
    ensures Leads(START, es, Three(X4, Y4, {OWN, FAR, NEAR, BACK}), true)
  {
    es := Exchanges();
    Losing();
    Join(START, es, Three(X3, Y3, {OWN, FAR, NEAR}), [ADVERTISE2, FLUSH1], Three(X4, Y4, {OWN, FAR, NEAR, BACK}), true);
    es := es + [ADVERTISE2, FLUSH1];
  }

  // The whole run.
  lemma Looping() returns (es: seq<Event>)
    ensures Leads(START, es, Three(X6, Y4, {OWN, FAR, NEAR, BACK}), true)
  {
    var sent := {OWN, FAR, NEAR, BACK};
    es := Loss();
    Reviving(sent);
    Join(START, es, Three(X4, Y4, sent), [RETRACT1, Hear(1, BACK, 1, ACCEPT)], Three(X6, Y4, sent), true);
    es := es + [RETRACT1, Hear(1, BACK, 1, ACCEPT)];
  }

  // From the initial state a run of Network reaches a loop although no distances are mixed:
  // Network.LoopFreedom needs its condition that revived routes be backed.
  lemma LoopReached() returns (es: seq<Event>)
    ensures Initial(START) && Run(START, BASE, es) && AllAvoided(START, es, true)
    ensures !LoopFree(Final(START, BASE, es))
  {
    es := Looping();
    EndsInLoop(X6, Y4, {OWN, FAR, NEAR, BACK});
  }
}
