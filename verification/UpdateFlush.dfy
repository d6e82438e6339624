// Flushing the updates buffered on an interface (qsrx/babeld/message.c:944-1068): the route table says
// what each queued destination is advertised with, the sending buffer takes the updates, and what
// was advertised is recorded in the sources.
module UpdateFlush {
  import opened Util
  import opened Prefix
  import opened Feasibility
  import opened Destination
  import opened TableView
  import opened RouteTable
  import opened SendBuffer
  import opened UpdateOrder
  import Network
  import Receive
  import Wire
  import WireProofs

  type ChannelList = c: Bytes | |c| <= Wire.DIVERSITY_HOPS && 0 !in c witness []

  // The interface flushed and the node's own settings. wire gives the eight bytes of a router-id;
  // apart gives the interference factor of a route that does not interfere with the interface.
  datatype Sending = Sending(self: RouterId, seqno: u16, kernelMetric: int, ifp: nat, splitHorizon: bool,
                             diversity: bool, wire: RouterId -> Wire.RouterId8, apart: Route -> Option<nat>,
                             channels: Route -> ChannelList, filter: (Wire.RouterId8, Key) -> nat)

  // What is installed and exported.
  datatype Board = Board(slots: seq<Slot>, exports: seq<Xroute>)

  datatype Choice = Export(metric: u16) | Learned(route: Route) | Hidden | NoRoute

  function Choose(slot: Slot, xroute: Option<u16>, cfg: Sending): Choice {
    var installed := slot != [] && slot[0].installed;
    if xroute.Some? && (!installed || xroute.value <= cfg.kernelMetric) then Export(xroute.value)
    else if !installed then NoRoute
    else if cfg.splitHorizon && slot[0].hop.neigh.ifp == cfg.ifp then Hidden
    else Learned(slot[0])
  }

  ghost function ChoiceFor(board: Board, key: Key, cfg: Sending): Choice {
    Choose(SlotOf(board.slots, key), XmetricOf(board.exports, key), cfg)
  }

  function FoundOf(c: Choice): Found {
    match c
    case Export(_) => Live
    case Learned(_) => Live
    case Hidden => Suppressed
    case NoRoute => Gone
  }

  function MetricTo(r: Route, cfg: Sending): u16 {
    match cfg.apart(r)
    case Some(factor) => RouteMetricNoninterfering(r, factor)
    case None => RouteMetric(r)
  }

  // The update for a destination, once something is to be sent for it.
  function AdvertFor(c: Choice, key: Key, cfg: Sending): Wire.Advert
    requires !c.Hidden?
  {
    match c
    case Export(metric) =>
      Wire.Advert(cfg.wire(cfg.self), key, cfg.seqno, metric, if cfg.diversity then Some([]) else None)
    case Learned(r) =>
      Wire.Advert(cfg.wire(r.src), key, r.seqno, MetricTo(r, cfg),
                  if cfg.diversity then Some(cfg.channels(r)) else None)
    case NoRoute => Wire.Advert(cfg.wire(cfg.self), key, cfg.seqno, INFINITY, None)
  }

  // ---- what a flush sends

  function EntryFor(slot: Slot, key: Key, cfg: Sending): Entry {
    Entry(cfg.wire(if slot != [] && slot[0].installed then slot[0].src else cfg.self), key)
  }

  ghost function Entries(board: Board, queue: seq<Key>, cfg: Sending): seq<Entry> {
    seq(|queue|, i requires 0 <= i < |queue| => EntryFor(SlotOf(board.slots, queue[i]), queue[i], cfg))
  }

  ghost function Finder(board: Board, cfg: Sending): Key -> Found {
    key => FoundOf(ChoiceFor(board, key, cfg))
  }

  // The destinations handed to really_send_update, in order.
  ghost function Flushed(board: Board, queue: seq<Key>, cfg: Sending): seq<Key> {
    Visits(Sort(Entries(board, queue, cfg)), Finder(board, cfg), None)
  }

  // The items that leave for one destination.
  ghost function ItemsFor(board: Board, key: Key, cfg: Sending, ip: Option<Wire.Ip4>, interval: u16): seq<Wire.Item> {
    var c := ChoiceFor(board, key, cfg);
    if c.Hidden? then []
    else var a := AdvertFor(c, key, cfg); Emitted(a, cfg.filter(a.id, key), true, ip, interval)
  }

  ghost function AllItems(board: Board, keys: seq<Key>, cfg: Sending, ip: Option<Wire.Ip4>, interval: u16):
    seq<Wire.Item>
  {
    if keys == [] then []
    else ItemsFor(board, keys[0], cfg, ip, interval) + AllItems(board, keys[1..], cfg, ip, interval)
  }

  // However often destinations are queued, and whatever the sort does with ties: a destination with
  // an export or an installed route that split horizon lets through is handed on exactly once, a
  // suppressed one never, and one without a route as often as it was queued.
  lemma FlushedCount(board: Board, queue: seq<Key>, cfg: Sending, key: Key)
    ensures Times(Flushed(board, queue, cfg), key)
         == Expected(FoundOf(ChoiceFor(board, key, cfg)), Times(queue, key))
  {
    var es := Entries(board, queue, cfg);
    var sorted := Sort(es);
    SortSorts(es);
    forall i, j | 0 <= i < |sorted| && 0 <= j < |sorted| && sorted[i].key == sorted[j].key
      ensures sorted[i] == sorted[j]
    {
      assert sorted[i] in multiset(es) && sorted[j] in multiset(es);
    }
    VisitsCount(sorted, Finder(board, cfg), key);
    assert KeysOf(es) == queue;
    SortKeys(es);
  }

  // ---- what is said, from what the table holds

  predicate Installed(slot: Slot) {
    slot != [] && slot[0].installed
  }

  // The node says it has the destination itself, at this metric.
  predicate SaysOwn(a: Wire.Advert, cfg: Sending, metric: u16) {
    a.id == cfg.wire(cfg.self) && a.seqno == cfg.seqno && a.metric == metric && a.channels in {None, Some([])}
  }

  // The node passes the route on: what the network hears is what Network says an advertised route gives.
  predicate SaysRoute(a: Wire.Advert, r: Route, cfg: Sending, add: u16) {
    var m := Network.AdvertOf(cfg.self, r, cfg.apart(r), add);
    && a.id == cfg.wire(m.id) && a.seqno == m.seqno && a.metric == m.metric
    && a.channels == if cfg.diversity then Some(cfg.channels(r)) else None
  }

  // An export is announced as the node's own with its metric and the filter's, unless a learned route is
  // installed and the export is worse than the kernel's metric; a learned route that split horizon does not
  // hold back is passed on; anything else is retracted.
  ghost predicate Right(board: Board, cfg: Sending, ip: Option<Wire.Ip4>, interval: u16, item: Wire.Item) {
    item.Update? && item.interval == interval && (ip.Some? ==> item.ip == ip.value)
    && var a := item.advert;
    && (Wire.IsV4(a.key) ==> ip.Some?)
    && var slot, x, add := SlotOf(board.slots, a.key), XmetricOf(board.exports, a.key), cfg.filter(a.id, a.key);
    && add < INFINITY
    && (x.None? && !Installed(slot) ==> SaysOwn(a, cfg, INFINITY))
    && (x.Some? && (!Installed(slot) || x.value <= cfg.kernelMetric) ==> SaysOwn(a, cfg, Min(x.value + add, INFINITY)))
    && (Installed(slot) && (x.Some? ==> x.value > cfg.kernelMetric)
        ==> SaysRoute(a, slot[0], cfg, add) && !(cfg.splitHorizon && slot[0].hop.neigh.ifp == cfg.ifp))
  }

  lemma ItemsRight(board: Board, key: Key, cfg: Sending, ip: Option<Wire.Ip4>, interval: u16)
    ensures forall i :: 0 <= i < |ItemsFor(board, key, cfg, ip, interval)|
              ==> Right(board, cfg, ip, interval, ItemsFor(board, key, cfg, ip, interval)[i])
                  && ItemsFor(board, key, cfg, ip, interval)[i].advert.key == key
  {
  }

  // All that leaves in a flush is right, and about destinations that were queued.
  lemma {:induction false} AllRight(board: Board, keys: seq<Key>, cfg: Sending, ip: Option<Wire.Ip4>, interval: u16)
    ensures forall i :: 0 <= i < |AllItems(board, keys, cfg, ip, interval)|
              ==> Right(board, cfg, ip, interval, AllItems(board, keys, cfg, ip, interval)[i])
                  && AllItems(board, keys, cfg, ip, interval)[i].advert.key in keys
  {
    if keys == [] {
    } else {
      ItemsRight(board, keys[0], cfg, ip, interval);
      AllRight(board, keys[1..], cfg, ip, interval);
    }
  }

  // The metric a learned route is passed on with: the sum of the parts where the route interferes, and in any
  // case more than the metric it was heard with.
  lemma PassedOnMetric(a: Wire.Advert, r: Route, cfg: Sending, add: u16)
    requires SaysRoute(a, r, cfg, add)
    ensures cfg.apart(r).None? ==> a.metric == Min(r.refmetric + r.cost + r.addMetric + add, INFINITY)
    ensures r.cost >= 1 && r.refmetric < INFINITY ==> r.refmetric < a.metric
  {
  }

  // What was passed on is on record afterwards: nothing heard with this sequence number and no smaller distance
  // is feasible any more, except half the circle away.
  lemma FlushRecords(d: Dest, cfg: Sending, now: int, heard: u16)
    requires Installed(d.slot) && d.slot[0].src in d.srcs && MetricTo(d.slot[0], cfg) <= heard < INFINITY
    requires var s := d.srcs[d.slot[0].src]; Stale(s, now) || (d.slot[0].seqno - s.seqno) % 0x1_0000 != 0x8000
    ensures var d', r := AfterFlush(d, Choice.Learned(d.slot[0]), 1, cfg, now), d.slot[0];
            !UpdateFeasible(Some(d'.srcs[r.src]), now, r.seqno, heard)
  {
    var r := d.slot[0];
    AdvertisingBlocksWorse(d.srcs[r.src], now, r.seqno, MetricTo(r, cfg));
  }

  // The router-id an entry is sorted by is the one its update is sent under, unless an export takes the place of an
  // installed route. So updates under one router-id leave together: see UpdateOrder.SortedGroups.
  lemma SortedAsSent(board: Board, key: Key, cfg: Sending, ip: Option<Wire.Ip4>, interval: u16)
    requires Installed(SlotOf(board.slots, key)) ==> XmetricOf(board.exports, key).None?
    ensures forall item :: item in ItemsFor(board, key, cfg, ip, interval)
              ==> item.advert.id == EntryFor(SlotOf(board.slots, key), key, cfg).id
  {
    ItemsRight(board, key, cfg, ip, interval);
  }

  // How many updates are about a destination.
  function About(items: seq<Wire.Item>, key: Key): nat {
    if items == [] then 0
    else (if items[0].Update? && items[0].advert.key == key then 1 else 0) + About(items[1..], key)
  }

  lemma {:induction false} AboutConcat(s: seq<Wire.Item>, t: seq<Wire.Item>, key: Key)
    ensures About(s + t, key) == About(s, key) + About(t, key)
  {
    if s == [] {
      assert s + t == t;
    } else {
      assert (s + t)[1..] == s[1..] + t;
      AboutConcat(s[1..], t, key);
    }
  }

  // Whether anything can leave for a destination: split horizon, the filter and a missing address may forbid it.
  ghost predicate Passes(board: Board, key: Key, cfg: Sending, ip: Option<Wire.Ip4>) {
    var slot, x := SlotOf(board.slots, key), XmetricOf(board.exports, key);
    var learned := Installed(slot) && (x.Some? ==> x.value > cfg.kernelMetric);
    && !(learned && cfg.splitHorizon && slot[0].hop.neigh.ifp == cfg.ifp)
    && cfg.filter(cfg.wire(if learned then slot[0].src else cfg.self), key) < INFINITY
    && (Wire.IsV4(key) ==> ip.Some?)
  }

  lemma AboutOne(board: Board, key: Key, k: Key, cfg: Sending, ip: Option<Wire.Ip4>, interval: u16)
    ensures About(ItemsFor(board, k, cfg, ip, interval), key)
         == if k == key && Passes(board, key, cfg, ip) then 1 else 0
  {
    ItemsRight(board, k, cfg, ip, interval);
    var items := ItemsFor(board, k, cfg, ip, interval);
    assert |items| <= 1;
    assert items != [] ==> items[1..] == [];
  }

  lemma {:induction false} AboutAll(board: Board, keys: seq<Key>, key: Key, cfg: Sending, ip: Option<Wire.Ip4>,
                                    interval: u16)
    ensures About(AllItems(board, keys, cfg, ip, interval), key)
         == if Passes(board, key, cfg, ip) then Times(keys, key) else 0
  {
    if keys == [] {
    } else {
      AboutOne(board, key, keys[0], cfg, ip, interval);
      AboutAll(board, keys[1..], key, cfg, ip, interval);
      AboutConcat(ItemsFor(board, keys[0], cfg, ip, interval), AllItems(board, keys[1..], cfg, ip, interval), key);
      assert keys == [keys[0]] + keys[1..];
    }
  }

  // How many updates leave for a destination: one if it was queued and there is an export or an installed route,
  // and as many as it was queued otherwise; none if nothing passes.
  lemma SentCount(board: Board, queue: seq<Key>, cfg: Sending, ip: Option<Wire.Ip4>, interval: u16, key: Key)
    ensures var here := Installed(SlotOf(board.slots, key)) || XmetricOf(board.exports, key).Some?;
            About(AllItems(board, Flushed(board, queue, cfg), cfg, ip, interval), key)
            == if !Passes(board, key, cfg, ip) then 0 else if here then Min(Times(queue, key), 1) else Times(queue, key)
  {
    AboutAll(board, Flushed(board, queue, cfg), key, cfg, ip, interval);
    FlushedCount(board, queue, cfg, key);
  }

  // Retractions are not deduplicated: with an empty table, a destination queued twice goes out twice.
  lemma RetractedTwice(key: Key, cfg: Sending)
    ensures ChoiceFor(Board([], []), key, cfg) == NoRoute
    ensures Times(Flushed(Board([], []), [key, key], cfg), key) == 2
  {
    FlushedCount(Board([], []), [key, key], cfg, key);
    assert Times([key, key], key) == 2;
  }

  // ---- the flush itself

  predicate KeyOk(key: Key) {
    key.plen <= 128 && Masked(key)
  }

  // A destination after the flush: what was advertised for its installed route is on record.
  ghost function AfterFlush(d: Dest, c: Choice, times: nat, cfg: Sending, now: int): Dest
  {
    if d.slot == [] || d.slot[0].src !in d.srcs then d
    else if c.Learned? && times > 0 then Advertised(d, now, MetricTo(c.route, cfg)) else d
  }

  ghost function BoardOf(t: RouteTable): Board
    requires t.Rep()
    reads t, t.routes, t.xroutes
  {
    Board(t.Slots(), t.Exports())
  }

  // What the table holds for a destination, given its source list.
  ghost function Holding(board: Board, srcs: seq<SourceEntry>, key: Key): Dest {
    Dest(SlotOf(board.slots, key), SourcesOf(srcs, key), XmetricOf(board.exports, key))
  }

  // What a destination is advertised with, looked up in the table.
  method Look(t: RouteTable, key: Key, cfg: Sending) returns (c: Choice)
    requires t.Valid()
    ensures c == ChoiceFor(BoardOf(t), key, cfg)
    ensures c.Learned? ==> HasInstalled(t.DestOf(key)) && c.route == t.DestOf(key).slot[0]
  {
    var x := t.FindXroute(key);
    var i := t.FindInstalledRoute(key);
    if x >= 0 && (i < 0 || t.xroutes[x].metric <= cfg.kernelMetric) {
      return Export(t.xroutes[x].metric);
    }
    if i < 0 {
      return NoRoute;
    }
    if cfg.splitHorizon && t.routes[i][0].hop.neigh.ifp == cfg.ifp {
      return Hidden;
    }
    return Learned(t.routes[i][0]);
  }

  // The source list before and after key has been handed on.
  ghost predicate SourcesAfter(board: Board, srcs: seq<SourceEntry>, srcs': seq<SourceEntry>, key: Key, cfg: Sending,
                               now: int) {
    && Holding(board, srcs', key) == AfterFlush(Holding(board, srcs, key), ChoiceFor(board, key, cfg), 1, cfg, now)
    && (forall k :: k != key ==> Holding(board, srcs', k) == Holding(board, srcs, k))
  }

  // One destination.
  method SendFor(t: RouteTable, out: SendBuffer, key: Key, cfg: Sending, now: int) returns (found: Found)
    requires t.Valid() && out.Valid() && out.up && KeyOk(key)
    modifies t`srcs, out, out.sendbuf
    ensures t.Valid() && BoardOf(t) == old(BoardOf(t))
    ensures out.Valid() && out.up && out.ip == old(out.ip) && out.interval == old(out.interval)
    ensures out.sendbuf == old(out.sendbuf)
    ensures found == FoundOf(ChoiceFor(old(BoardOf(t)), key, cfg))
    ensures SourcesAfter(BoardOf(t), old(t.srcs), t.srcs, key, cfg, now)
    ensures out.History()
         == old(out.History()) + ItemsFor(old(BoardOf(t)), key, cfg, old(out.ip), old(out.interval))
  {
    var c := Look(t, key, cfg);
    found := FoundOf(c);
    if c.Hidden? {
      HiddenStays(BoardOf(t), t.srcs, key, cfg, now);
      assert out.History() + [] == out.History();
      return;
    }
    var a := AdvertFor(c, key, cfg);
    out.ReallySendUpdate(a, cfg.filter(a.id, key), now);
    Record(t, c, key, a.metric, cfg, now);
  }

  // Nothing happens for a destination suppressed by split horizon.
  lemma HiddenStays(board: Board, srcs: seq<SourceEntry>, key: Key, cfg: Sending, now: int)
    requires ChoiceFor(board, key, cfg).Hidden?
    ensures SourcesAfter(board, srcs, srcs, key, cfg, now)
  {
  }

  // The source of a learned route takes note of what was advertised for it.
  method Record(t: RouteTable, c: Choice, key: Key, metric: u16, cfg: Sending, now: int)
    requires t.Valid() && c == ChoiceFor(BoardOf(t), key, cfg)
    requires c.Learned? ==> HasInstalled(t.DestOf(key)) && c.route == t.DestOf(key).slot[0]
    requires c.Learned? ==> metric == MetricTo(c.route, cfg)
    modifies t`srcs
    ensures t.Valid() && BoardOf(t) == old(BoardOf(t))
    ensures SourcesAfter(BoardOf(t), old(t.srcs), t.srcs, key, cfg, now)
  {
    assert Ok(t.DestOf(key));
    if c.Learned? {
      t.RecordAdvertised(key, metric, now);
      forall k | k != key
        ensures Holding(BoardOf(t), t.srcs, k) == Holding(BoardOf(t), old(t.srcs), k)
      {
        assert t.DestOf(k) == old(t.DestOf(k));
      }
    }
  }

  // The source list, srcs before the flush, after the destinations in done have been handed on.
  ghost predicate Reached(board: Board, srcs: seq<SourceEntry>, srcs': seq<SourceEntry>, done: seq<Key>, cfg: Sending,
                          now: int) {
    forall key :: Holding(board, srcs', key)
               == AfterFlush(Holding(board, srcs, key), ChoiceFor(board, key, cfg), Times(done, key), cfg, now)
  }

  // Handing on one more destination, which if learned was not handed on before.
  lemma ReachedStep(board: Board, srcs: seq<SourceEntry>, srcs1: seq<SourceEntry>, srcs2: seq<SourceEntry>,
                    done: seq<Key>, key: Key, cfg: Sending, now: int)
    requires Reached(board, srcs, srcs1, done, cfg, now)
    requires FoundOf(ChoiceFor(board, key, cfg)) == Live ==> Times(done, key) == 0
    requires SourcesAfter(board, srcs1, srcs2, key, cfg, now)
    ensures Reached(board, srcs, srcs2, done + [key], cfg, now)
  {
    forall k
      ensures Holding(board, srcs2, k)
           == AfterFlush(Holding(board, srcs, k), ChoiceFor(board, k, cfg), Times(done + [key], k), cfg, now)
    {
      assert Times(done + [key], k) == Times(done, k) + if k == key then 1 else 0;
    }
  }

  lemma {:induction false} AllItemsAppend(board: Board, keys: seq<Key>, key: Key, cfg: Sending, ip: Option<Wire.Ip4>,
                                          interval: u16)
    ensures AllItems(board, keys + [key], cfg, ip, interval)
         == AllItems(board, keys, cfg, ip, interval) + ItemsFor(board, key, cfg, ip, interval)
  {
    if keys == [] {
      assert keys + [key] == [key] && [key][1..] == [];
    } else {
      assert (keys + [key])[1..] == keys[1..] + [key];
      AllItemsAppend(board, keys[1..], key, cfg, ip, interval);
      Associative(ItemsFor(board, keys[0], cfg, ip, interval), AllItems(board, keys[1..], cfg, ip, interval),
                  ItemsFor(board, key, cfg, ip, interval));
    }
  }

  // No live destination is handed on twice.
  ghost predicate OnceIfLive(board: Board, all: seq<Key>, cfg: Sending, key: Key) {
    FoundOf(ChoiceFor(board, key, cfg)) == Live ==> Times(all, key) <= 1
  }

  ghost predicate LiveOnce(board: Board, all: seq<Key>, cfg: Sending) {
    forall key :: OnceIfLive(board, all, cfg, key)
  }

  lemma FlushedOnce(board: Board, queue: seq<Key>, cfg: Sending)
    ensures LiveOnce(board, Flushed(board, queue, cfg), cfg)
  {
    forall key
      ensures OnceIfLive(board, Flushed(board, queue, cfg), cfg, key)
    {
      FlushedCount(board, queue, cfg, key);
    }
  }

  lemma NotYet(board: Board, all: seq<Key>, cfg: Sending, done: seq<Key>, key: Key, rest: seq<Key>)
    requires LiveOnce(board, all, cfg)
    requires all == done + ([key] + rest) && FoundOf(ChoiceFor(board, key, cfg)) == Live
    ensures Times(done, key) == 0
  {
    assert OnceIfLive(board, all, cfg, key);
    assert Times(done + ([key] + rest), key) == Times(done, key) + (1 + Times(rest, key));
  }

  // One more destination in what was accepted since the start.
  lemma HistoryGrows(board: Board, start: seq<Wire.Item>, done: seq<Key>, key: Key, cfg: Sending, ip: Option<Wire.Ip4>,
                     interval: u16)
    ensures start + AllItems(board, done + [key], cfg, ip, interval)
         == start + AllItems(board, done, cfg, ip, interval) + ItemsFor(board, key, cfg, ip, interval)
  {
    AllItemsAppend(board, done, key, cfg, ip, interval);
    Associative(start, AllItems(board, done, cfg, ip, interval), ItemsFor(board, key, cfg, ip, interval));
  }

  // The sending loop with rest still to do: all is what it hands on as a whole, done what it has handed on,
  // start what was accepted and srcs the source list before it.
  ghost predicate Underway(t: RouteTable, out: SendBuffer, rest: seq<Entry>, last: Option<Key>, all: seq<Key>,
                           start: seq<Wire.Item>, srcs: seq<SourceEntry>, done: seq<Key>, cfg: Sending, now: int)
    reads t, t.routes, t.xroutes, out, out.sendbuf
  {
    && t.Valid() && out.Valid() && out.up
    && all == done + Visits(rest, Finder(BoardOf(t), cfg), last) && LiveOnce(BoardOf(t), all, cfg)
    && Reached(BoardOf(t), srcs, t.srcs, done, cfg, now)
    && out.History() == start + AllItems(BoardOf(t), done, cfg, out.ip, out.interval)
  }

  // One turn of the sending loop: the entry at the head of rest is passed over or handed on.
  method Turn(t: RouteTable, out: SendBuffer, rest: seq<Entry>, last: Option<Key>, ghost all: seq<Key>,
              ghost start: seq<Wire.Item>, ghost srcs: seq<SourceEntry>, ghost done: seq<Key>, cfg: Sending, now: int)
    returns (last': Option<Key>, ghost done': seq<Key>)
    requires rest != [] && KeyOk(rest[0].key) && Underway(t, out, rest, last, all, start, srcs, done, cfg, now)
    modifies t`srcs, out, out.sendbuf
    ensures Underway(t, out, rest[1..], last', all, start, srcs, done', cfg, now)
    ensures BoardOf(t) == old(BoardOf(t)) && out.sendbuf == old(out.sendbuf)
    ensures out.ip == old(out.ip) && out.interval == old(out.interval)
  {
    var key := rest[0].key;
    last', done' := last, done;
    if last == Some(key) {
      return;
    }
    ghost var srcs1 := t.srcs;
    var found := SendFor(t, out, key, cfg, now);
    if found.Live? {
      last' := Some(key);
    }
    if !found.Suppressed? {
      done' := done + [key];
      HistoryGrows(BoardOf(t), start, done, key, cfg, out.ip, out.interval);
    } else {
      assert out.History() + [] == out.History();
    }
    TurnKeeps(BoardOf(t), all, srcs, srcs1, t.srcs, done, rest, last, cfg, now);
  }

  lemma TurnKeeps(board: Board, all: seq<Key>, srcs: seq<SourceEntry>, srcs1: seq<SourceEntry>,
                  srcs2: seq<SourceEntry>, done: seq<Key>, rest: seq<Entry>, last: Option<Key>, cfg: Sending, now: int)
    requires rest != [] && last != Some(rest[0].key)
    requires all == done + Visits(rest, Finder(board, cfg), last) && LiveOnce(board, all, cfg)
    requires Reached(board, srcs, srcs1, done, cfg, now) && SourcesAfter(board, srcs1, srcs2, rest[0].key, cfg, now)
    ensures var found := FoundOf(ChoiceFor(board, rest[0].key, cfg));
            var done' := if found.Suppressed? then done else done + [rest[0].key];
            var last' := if found.Live? then Some(rest[0].key) else last;
            && all == done' + Visits(rest[1..], Finder(board, cfg), last')
            && Reached(board, srcs, srcs2, done', cfg, now)
  {
    var key := rest[0].key;
    var found := FoundOf(ChoiceFor(board, key, cfg));
    var after := Visits(rest[1..], Finder(board, cfg), if found.Live? then Some(key) else last);
    assert Finder(board, cfg)(key) == found;
    if found.Suppressed? {
      assert forall k :: Holding(board, srcs2, k) == Holding(board, srcs1, k);
    } else {
      Associative(done, [key], after);
      if found.Live? {
        NotYet(board, all, cfg, done, key, after);
      }
      ReachedStep(board, srcs, srcs1, srcs2, done, key, cfg, now);
    }
  }

  // flushupdates, the sending loop; all is what it hands on.
  method SendSorted(t: RouteTable, out: SendBuffer, sorted: seq<Entry>, ghost all: seq<Key>, cfg: Sending, now: int)
    requires t.Valid() && out.Valid() && out.up && forall i :: 0 <= i < |sorted| ==> KeyOk(sorted[i].key)
    requires all == Visits(sorted, Finder(BoardOf(t), cfg), None) && LiveOnce(BoardOf(t), all, cfg)
    modifies t`srcs, out, out.sendbuf
    ensures t.Valid() && BoardOf(t) == old(BoardOf(t)) && out.Valid() && out.sendbuf == old(out.sendbuf)
    ensures out.ip == old(out.ip) && out.interval == old(out.interval) && out.up == old(out.up)
    ensures out.History() == old(out.History()) + AllItems(BoardOf(t), all, cfg, old(out.ip), old(out.interval))
    ensures Reached(BoardOf(t), old(t.srcs), t.srcs, all, cfg, now)
  {
    ghost var done, start, srcs := [], out.History(), t.srcs;
    var i, last := 0, None;
    assert sorted[0..] == sorted;
    NothingDone(BoardOf(t), srcs, start, all, cfg, out.ip, out.interval, now);
    while i < |sorted|
      invariant 0 <= i <= |sorted|
      invariant Underway(t, out, sorted[i..], last, all, start, srcs, done, cfg, now)
      invariant BoardOf(t) == old(BoardOf(t)) && out.sendbuf == old(out.sendbuf)
      invariant out.ip == old(out.ip) && out.interval == old(out.interval)
    {
      assert sorted[i..][1..] == sorted[i + 1..];
      last, done := Turn(t, out, sorted[i..], last, all, start, srcs, done, cfg, now);
      i := i + 1;
    }
    assert done == all;
  }

  lemma NothingDone(board: Board, srcs: seq<SourceEntry>, start: seq<Wire.Item>, all: seq<Key>, cfg: Sending,
                    ip: Option<Wire.Ip4>, interval: u16, now: int)
    ensures Reached(board, srcs, srcs, [], cfg, now)
    ensures start + AllItems(board, [], cfg, ip, interval) == start
    ensures [] + all == all
  {
  }

  // flushupdates: fill in the router-ids, sort, and send.
  method FlushUpdates(t: RouteTable, out: SendBuffer, queue: seq<Key>, cfg: Sending, now: int)
    requires t.Valid() && out.Valid() && forall k :: k in queue ==> KeyOk(k)
    modifies t`srcs, out, out.sendbuf
    ensures t.Valid() && BoardOf(t) == old(BoardOf(t)) && out.Valid() && out.sendbuf == old(out.sendbuf)
    ensures out.ip == old(out.ip) && out.interval == old(out.interval) && out.up == old(out.up)
    ensures out.History() == old(out.History())
                             + if old(out.up) then AllItems(BoardOf(t), Flushed(BoardOf(t), queue, cfg), cfg,
                                                            old(out.ip), old(out.interval))
                               else []
    ensures forall key :: t.DestOf(key)
              == AfterFlush(old(t.DestOf(key)), ChoiceFor(BoardOf(t), key, cfg),
                            if old(out.up) then Times(queue, key) else 0, cfg, now)
    ensures forall i :: |old(out.History())| <= i < |out.History()|
              ==> Right(BoardOf(t), cfg, out.ip, out.interval, out.History()[i])
  {
    if !out.up {
      return;
    }
    AllRight(BoardOf(t), Flushed(BoardOf(t), queue, cfg), cfg, out.ip, out.interval);
    var es := FillIds(t, queue, cfg);
    SortedKeys(es, queue);
    ghost var board, srcs := BoardOf(t), t.srcs;
    FlushedOnce(board, queue, cfg);
    SendSorted(t, out, Sort(es), Flushed(board, queue, cfg), cfg, now);
    QueueReached(board, srcs, t.srcs, queue, cfg, now);
  }

  // For the sources it only matters which destinations were queued.
  lemma QueueReached(board: Board, srcs: seq<SourceEntry>, srcs': seq<SourceEntry>, queue: seq<Key>, cfg: Sending,
                     now: int)
    requires Reached(board, srcs, srcs', Flushed(board, queue, cfg), cfg, now)
    ensures Reached(board, srcs, srcs', queue, cfg, now)
  {
    forall key
      ensures Holding(board, srcs', key)
           == AfterFlush(Holding(board, srcs, key), ChoiceFor(board, key, cfg), Times(queue, key), cfg, now)
    {
      FlushedCount(board, queue, cfg, key);
    }
  }

  // The first loop of flushupdates.
  method FillIds(t: RouteTable, queue: seq<Key>, cfg: Sending) returns (es: seq<Entry>)
    requires t.Valid()
    ensures es == Entries(BoardOf(t), queue, cfg)
  {
    es := [];
    for i := 0 to |queue|
      invariant es == Entries(BoardOf(t), queue[..i], cfg)
    {
      var r := t.FindInstalledRoute(queue[i]);
      es := es + [Entry(cfg.wire(if r >= 0 then t.routes[r][0].src else cfg.self), queue[i])];
      assert Entries(BoardOf(t), queue[..i + 1], cfg)
          == Entries(BoardOf(t), queue[..i], cfg) + [EntryFor(SlotOf(BoardOf(t).slots, queue[i]), queue[i], cfg)];
    }
    assert queue[..|queue|] == queue;
  }

  lemma SortedKeys(es: seq<Entry>, queue: seq<Key>)
    requires KeysOf(es) == queue
    ensures forall i :: 0 <= i < |Sort(es)| ==> Sort(es)[i].key in queue
  {
    SortKeys(es);
    forall i | 0 <= i < |Sort(es)|
      ensures Sort(es)[i].key in queue
    {
      assert KeysOf(Sort(es))[i] in multiset(KeysOf(Sort(es)));
    }
  }

  // Whoever receives all packets has heard what was accepted, in order, and nothing else.
  ghost predicate AllHeard(out: SendBuffer)
    reads out
  {
    && (forall i :: 0 <= i < |out.flushed| ==> |out.flushed[i].body| < 0x1_0000)
    && (forall rx: Wire.Receiver :: Receive.LinkLocal(rx.from)
          ==> Receive.HeardFrom(out.flushed, rx) == WireProofs.HeardAll(out.History(), rx))
  }

  // The buffer is handed over, and all that was accepted is heard.
  method Leave(out: SendBuffer, now: int)
    requires out.Valid() && out.sendbuf.Length < 0x1_0000
    modifies out
    ensures out.Valid() && out.buffered == 0 && out.sendbuf == old(out.sendbuf)
    ensures out.ip == old(out.ip) && out.interval == old(out.interval) && out.up == old(out.up)
    ensures out.History() == old(out.History()) && AllHeard(out)
  {
    out.FlushBuf(now);
    forall rx: Wire.Receiver | Receive.LinkLocal(rx.from)
      ensures Receive.HeardFrom(out.flushed, rx) == WireProofs.HeardAll(old(out.History()), rx)
    {
      Receive.EverythingHeard(out, rx);
    }
  }
}
