# Two routing daemons: Babel route selection and messages, BGP paths and interning

This project models the core of the two routing daemons under `qsrx/` and proves what they are for.

* **Babel** (`qsrx/babeld`). A node keeps the routes it hears in a sorted table, chooses among those that are
  feasible, and remembers in its sources the best distance it has advertised. `Destination` says what each
  operation does to one destination, `DestinationProofs` what that leaves intact and `DestinationLaws` what it brings
  about; `RouteTable` is the table itself with its arrays and lists updated in place,
  and `Network` lets any number of nodes exchange updates that may be lost, repeated, delayed or reordered.
  `NetworkLoop` and `NetworkRefusal` are runs of it that end in a loop, put together with `NetworkRuns`.
  `Wire`, `SendBuffer` and `Receive` are the compressed message encoding, the buffer that fills packets with it and
  the parser; `UpdateOrder` and `UpdateFlush` are the sorted, duplicate-removing flush that takes what the table
  holds to the buffer, and `Interface` is the queue of updates in front of it.
* **BGP** (`qsrx/bgpd`). `AsPath` is the list of segments and its canonical form, `AsPathWire` and `AsPathStream`
  the attribute on the wire, `AsPathText` its printed form, `As4` the way of 4-byte numbers through 2-byte speakers.
  `Community` are the sorted community lists. `Intern` counts who refers to interned paths and attributes.

Each operation that changes state is a method proved against a function on values; the theorems are lemmas about
these functions. `Util`, `Prefix`, `Text`, `SortedSet` and `Counting` hold what several modules share; `Samples`
pins the formats by example.

## Findings

Three things the code does differently from what one would like to promise. Each is stated as a theorem with an exact
condition or a concrete input.

* **Forwarding loops are reachable, in two ways.** Retractions always count as feasible, so `consider_route` installs
  a retracted route when nothing is installed (`qsrx/babeld/route.c:576-578`, `837-840`); an unfeasible update for an
  installed route of the same source is stored and the route stays installed (`qsrx/babeld/route.c:724-742`, whose
  comment says such an update is ignored). Together they *revive* a retracted route with a distance that was never
  feasible: `NetworkLoop.LoopReached`. And when the kernel refuses a new metric, `change_route_metric` keeps the old
  distance although the caller has already stored the new source and sequence number
  (`qsrx/babeld/route.c:484-492`, `615-616`, `737-742`): the route is left with a *mixed* distance that its neighbour
  need not have advertised: `NetworkRefusal.LoopReached`. Neither run does what the other one shows.
  `Network.StepKeepsBackedIff` says exactly when a step loses the guarantee, `Network.LoopFreedom` that otherwise there
  is no loop, and `Network.PlainRunsAreLoopFree` the same of runs in which no node revives a route or mixes distances,
  which each node can see for itself.
* **`aspath_put` is exact up to 510 numbers a segment.** Beyond that the splitting loop repeats the first 255 numbers
  and the returned length is larger than what was written (`qsrx/bgpd/bgp_aspath.c:902-909`):
  `AsPathWire.PutCountExact`, and `AsPathWire.LongSegmentGarbled` for a sequence of 511 numbers.
* **Retractions are not deduplicated.** In a flush only a destination with an export or an installed route is
  remembered as the last one sent (`qsrx/babeld/message.c:995-1061`); one without a route is retracted as often as it
  was queued: `UpdateFlush.FlushedCount`, and `UpdateFlush.RetractedTwice` for an empty table.

## Assumptions of the network

`Network` follows one destination. Stored link costs, reduced to 16 bits, are at least 1. No source entry gets stale.
The sequence numbers of one source stay in a window of less than 2^15. Router-ids are unique. The kernel may accept or
refuse whatever it is asked for. A route's own metric is advertised with any interference factor and any output metric
added.

## Model

| member | source | states |
|---|---|---|
| Network.LoopFreedom | qsrx/babeld/route.c:821-860 | after every run of harmless events, the installed finite routes to one source form no cycle, whatever the kernel refuses |
| Network.PlainRunsAreLoopFree | qsrx/babeld/route.c:565-582 | no cycle after any run in which no node gives an installed retracted route an unfeasible distance and none mixes distances on a refusal |
| Network.StepKeepsBackedIff | qsrx/babeld/route.c:709-752 | any step of any node, with any answers of the kernel, leaves every route with a distance its neighbour advertised and every finite installed route backed by its next hop, if and only if the step revives no unbacked route and mixes no distance that is not vouched for |
| Network.DeliverKeepsBackedIff | qsrx/babeld/route.c:724-742 | the same of hearing an update |
| Network.MixedKeepsBackedIff | qsrx/babeld/route.c:468-495 | a refused metric that leaves a finite distance under another source or sequence number keeps the guarantee if and only if the neighbour had advertised that distance and it is backed |
| Network.RunKeepsBacked | qsrx/babeld/route.c:565-582 | the backing and the bookkeeping of feasibility distances hold in every state of a harmless run |
| Network.BackedIsLoopFree | qsrx/babeld/source.c:128-146 | if every finite installed route is backed, following next hops can never return to its start |
| Network.EdgeImproves | qsrx/babeld/message.c:1019-1052 | along a forwarding edge to a node other than the origin the feasibility distance strictly improves |
| Network.AdvertiseKeepsInv | qsrx/babeld/message.c:1019-1052 | advertising the installed route records a distance no worse than the one sent |
| NetworkLoop.LoopReached | qsrx/babeld/route.c:837-852 | a concrete run with a kernel that refuses nothing ends in a forwarding loop: a retracted route is installed because retractions count as feasible, and an unfeasible update revives it; no distances are mixed |
| NetworkRefusal.LoopReached | qsrx/babeld/route.c:734-742 | another run ends in a loop without reviving any route: the kernel refuses a retraction, and the route goes on with its old distance under the new sequence number |
| Feasibility.AdvertisingKeepsRouteFeasible | qsrx/babeld/source.c:128-146 | recording the larger metric a feasible route is advertised with leaves the route feasible |
| Feasibility.AdvertisingBlocksWorse | qsrx/babeld/route.c:565-582 | after recording a distance, an update with the same sequence number and no smaller finite metric is unfeasible, except exactly when the kept sequence number is half the circle away |
| Feasibility.DistanceOnlyImproves | qsrx/babeld/source.c:128-146 | a source that is not stale keeps its distance or moves to a strictly better one |
| Feasibility.AdvertisingRefreshes | qsrx/babeld/source.c:128-146 | every finite advertisement keeps the source from getting stale for 200 seconds, and no other does |
| Feasibility.StaleForgotten | qsrx/babeld/source.c:128-146 | a source silent for more than 200 seconds constrains nothing, and the next finite advertisement replaces it |
| Feasibility.FeasibleInWindow | qsrx/babeld/route.c:565-582 | a finite update is feasible exactly if its sequence number is later, whatever its metric, or the same and its metric smaller |
| Seqno.CompareAntisymmetric | qsrx/babeld/util.h:69-76 | comparing sequence numbers is antisymmetric exactly when they are not half the circle apart |
| Seqno.CompareInWindow | qsrx/babeld/util.h:69-76 | inside a window of less than half the circle the comparison is the order of the offsets |
| Seqno.CompareIsCircular | qsrx/babeld/util.h:69-76 | without a window the comparison has cycles |
| Prefix.CompareKeysTransitive | qsrx/babeld/route.c:68-82 | route_compare is transitive, so slots can be kept sorted |
| Prefix.CompareKeysAntisymmetric | qsrx/babeld/route.c:68-82 | route_compare is antisymmetric |
| Prefix.MaskIdempotent | qsrx/babeld/util.c:223-238 | masking a prefix twice is masking it once |
| Prefix.MaskedBits | qsrx/babeld/util.c:223-238 | masking keeps the bits in front and clears those behind |
| DestinationProofs.UpdateRouteOk | qsrx/babeld/route.c:669-795 | hearing an update keeps hops unique, at most the head installed, source counts exact, and with duplicates forbidden no destination both exported and installed |
| DestinationProofs.UpdateRouteEffect | qsrx/babeld/route.c:709-752 | no feasibility distance moves; each route was there or carries the update and the installed one is feasible or the one installed before; only if the kernel refuses a new metric does the installed route keep its distance under the update's source and sequence number |
| DestinationProofs.UpdateRouteMetricOk | qsrx/babeld/route.c:609-632 | refreshing a metric keeps the same consistency |
| DestinationProofs.UpdateRouteMetricEffect | qsrx/babeld/route.c:609-632 | refreshing a metric moves no feasibility distance, only retracts or re-costs routes, and installs only feasible ones; only if the kernel refuses to retract an expired route does that route keep its distance under the next sequence number |
| DestinationProofs.RetractNeighbourRouteOk | qsrx/babeld/route.c:869-877 | retracting a route on a wildcard retraction keeps the consistency |
| DestinationProofs.RetractNeighbourRouteEffect | qsrx/babeld/route.c:869-877 | retracting a route moves no feasibility distance, whatever the kernel answers, and installs only feasible routes |
| DestinationProofs.FlushRouteOk | qsrx/babeld/route.c:211-260 | flushing a route keeps the consistency and leaves a rearrangement of the other routes |
| DestinationProofs.FlushRouteEffect | qsrx/babeld/route.c:211-260 | flushing moves no feasibility distance and installs only a feasible replacement |
| DestinationProofs.AddXrouteOk | qsrx/babeld/xroute.c:212-237 | exporting a destination keeps the consistency and takes the installed route out |
| DestinationProofs.ExpireSourcesOk | qsrx/babeld/source.c:148-166 | expiring sources frees none that a route refers to |
| DestinationProofs.BestIsBest | qsrx/babeld/route.c:584-607 | find_best_route gives the head, or an eligible route of smaller metric, no worse than any eligible route behind the head |
| DestinationLaws.UpdateRouteContent | qsrx/babeld/route.c:682-795 | an update under the own router-id or refused by the input filter changes nothing; after any other the route through its hop has the update's data, is there if it was or if the update is finite and feasible or kept all the same, is marked as heard now exactly in that case, and all other routes keep all their data |
| DestinationLaws.HeardStaysFresh | qsrx/babeld/route.c:508-518 | such a route expires exactly if it is then silent for longer than the hold time of the update, and is old exactly after seven eighths of it |
| DestinationLaws.HoldTimeLaw | qsrx/babeld/route.c:682 | the hold time is at least 15 seconds, and otherwise six update intervals up to a second |
| DestinationLaws.UpdateReaches | qsrx/babeld/route.c:709-795 | after a feasible update that makes the destination reachable a route is installed, less than 64 worse than what was heard |
| DestinationLaws.UpdateReplacesLost | qsrx/babeld/route.c:724-752 | when an update takes the installed route away, another one is installed exactly if a usable one is better than what the update announces, and then the best of them |
| DestinationLaws.UpdateReplacesWorse | qsrx/babeld/route.c:734-752 | when an update makes the installed route worse, it is replaced exactly if a usable one is 96 better, and by the best of them |
| DestinationLaws.ConsiderTakes | qsrx/babeld/route.c:820-860 | a feasible route considered leaves the destination with an installed route less than 64 worse; one is displaced only if it was retracted or at least 64 worse |
| DestinationLaws.ExportedStays | qsrx/babeld/route.c:826-835 | an export keeps every route out, unless duplicates of so good a metric are allowed |
| DestinationLaws.ChangedReplaced | qsrx/babeld/route.c:941-965 | an installed route that got worse is replaced exactly if a usable one is 96 better, and by the best of them; the destination stays reachable |
| DestinationLaws.LostReplaced | qsrx/babeld/route.c:967-983 | after a loss a route is installed exactly if the head left is feasible or a usable one behind it is better, and no usable one is better than it |
| DestinationLaws.FlushReplaced | qsrx/babeld/route.c:211-260 | flushing the installed route: the same of the routes left |
| DestinationLaws.MeasuredContent | qsrx/babeld/route.c:609-632 | measuring retracts an expired route under the sequence number after its source's, gives any other the cost and filter of the moment, and changes no other route; only a kernel that refuses keeps the old metric |
| DestinationLaws.RetractedContent | qsrx/babeld/route.c:869-877 | a wildcard retraction leaves the route retracted, unless the kernel refuses, and changes no other |
| DestinationLaws.RetractReplaced | qsrx/babeld/route.c:869-877 | a retracted installed route is replaced exactly if a usable one is 96 better than unreachable, and by the best of them |
| DestinationLaws.MeasureReplaced | qsrx/babeld/route.c:625-631 | the same for an installed route measured and found worse |
| DestinationLaws.ExpiryReplaced | qsrx/babeld/route.c:615-624 | the same for an installed route that expires |
| DestinationLaws.FactorLaw | qsrx/babeld/route.h:73-89 | the metric without interference takes the cost whole at factor 256, to half a unit in between, and always exceeds the metric heard |
| DestinationLaws.AddXrouteLaw | qsrx/babeld/xroute.c:211-237 | an export is there afterwards with the smaller metric and has displaced the installed route; no route is lost |
| DestinationLaws.ExpireSourcesLaw | qsrx/babeld/source.c:148-166 | exactly the sources without routes that were silent for more than 200 seconds go, the others keep their distances |
| RouteTable.RouteTable.constructor | qsrx/babeld/route.c:56-62 | the empty table is valid |
| RouteTable.RouteTable.FindRouteSlot | qsrx/babeld/route.c:84-116 | binary search finds the slot of a key, or where in the order it belongs |
| RouteTable.RouteTable.FindRoute | qsrx/babeld/route.c:118-137 | finds the route with this neighbour and next hop if the table has one |
| RouteTable.RouteTable.ScanSlot | qsrx/babeld/route.c:130-134 | the walk along a slot finds the first route with the hop |
| RouteTable.RouteTable.FindInstalledRoute | qsrx/babeld/route.c:139-148 | finds the head of the slot exactly when it is installed |
| RouteTable.RouteTable.InsertRoute | qsrx/babeld/route.c:179-209 | the route becomes the last of its slot or gets its own; no other destination changes |
| RouteTable.RouteTable.InsertSlot | qsrx/babeld/route.c:188-198 | a new slot is put at its place and the slots stay strictly sorted |
| RouteTable.RouteTable.ResizeRouteTable | qsrx/babeld/route.c:157-175 | resizing keeps the slots |
| RouteTable.RouteTable.RemoveRoute | qsrx/babeld/route.c:227-254 | a route is taken out of its slot, an empty slot out of the table |
| RouteTable.RouteTable.InstallRoute | qsrx/babeld/route.c:377-411 | marks and moves the route to the head, unless another is installed or the kernel refuses |
| RouteTable.RouteTable.UninstallRoute | qsrx/babeld/route.c:413-429 | clears the mark |
| RouteTable.RouteTable.SwitchRoutes | qsrx/babeld/route.c:431-466 | moves the mark and the new route to the head, unless the kernel refuses |
| RouteTable.RouteTable.RouteFeasible | qsrx/babeld/route.c:502-506 | looks up the source and decides feasibility |
| RouteTable.RouteTable.FindBestRoute | qsrx/babeld/route.c:584-607 | computes the choice that BestIsBest is about |
| RouteTable.RouteTable.ConsiderRoute | qsrx/babeld/route.c:820-860 | installs the route under exactly the conditions of the code |
| RouteTable.RouteTable.RouteChanged | qsrx/babeld/route.c:941-965 | reconsiders the best or the changed route: what ChangedReplaced is about |
| RouteTable.RouteTable.RouteLost | qsrx/babeld/route.c:967-983 | considers the best route left: what LostReplaced is about |
| RouteTable.RouteTable.UpdateRoute | qsrx/babeld/route.c:669-795 | changes its destination as UpdateRouteContent and the laws on replacement have it, no other one, and keeps the table valid |
| RouteTable.RouteTable.FlushRoute | qsrx/babeld/route.c:211-260 | the same for a flush and FlushReplaced, whatever slot and position the route is at |
| RouteTable.RouteTable.UpdateRouteMetric | qsrx/babeld/route.c:609-632 | the same for a refreshed metric and MeasuredContent |
| RouteTable.RouteTable.UpdateNeighbourMetric | qsrx/babeld/route.c:634-652 | the walk over all slots ends although routes move to the head under it; only routes of the neighbour change, and one it leaves out of date was installed at some moment of the walk, by moving to the head behind it or because the kernel refused |
| RouteTable.RouteTable.UpdateInterfaceMetric | qsrx/babeld/route.c:654-667 | the same for the routes of an interface |
| RouteTable.RouteTable.RetractNeighbourRoutes | qsrx/babeld/route.c:862-881 | the walk over every second slot ends and keeps the table valid and all other neighbours' routes; it does not touch the slots its index jumps over, and in the others a route of the neighbour that is not retracted was installed at some moment of the walk |
| RouteTable.RouteTable.ExpireRoutes | qsrx/babeld/route.c:985-1019 | the walk that flushes and measures ends, no destination loses a route that is neither old nor from the future, and a route still due for flushing was installed at some moment of the last pass over its slot |
| Walks.MeasureDecreases | qsrx/babeld/route.c:643-649 | measuring a route shrinks the set of stale ones, or leaves it and brings no route closer to the head |
| Walks.RetractDecreases | qsrx/babeld/route.c:866-880 | retracting a route shrinks the set of routes still to retract, or leaves it and brings no route closer to the head |
| Walks.WalkingOn | qsrx/babeld/route.c:643-649 | treating the route under the walk, and going on behind it, leaves before that place only routes that are done or have been installed |
| RouteTable.RouteTable.FlushNeighbourRoutes | qsrx/babeld/route.c:282-302 | ends with no route of the neighbour left and every other route still there |
| RouteTable.RouteTable.FlushInterfaceRoutes | qsrx/babeld/route.c:304-325 | ends with no matching route left and every other route still there |
| Walks.FlushedSelected | qsrx/babeld/route.c:289-298 | flushing one selected route takes away that one and no other |
| RouteTable.RouteTable.FindSource | qsrx/babeld/source.c:53-91 | finds the source of a destination or creates it |
| RouteTable.RouteTable.RetainSource | qsrx/babeld/source.c:93-99 | one more route for exactly this source |
| RouteTable.RouteTable.ReleaseSource | qsrx/babeld/source.c:101-106 | one less |
| RouteTable.RouteTable.RecordAdvertised | qsrx/babeld/source.c:128-146 | records what was advertised for the installed route |
| RouteTable.RouteTable.ExpireSources | qsrx/babeld/source.c:148-166 | drops exactly the stale sources without routes, everywhere |
| RouteTable.RouteTable.SweepSources | qsrx/babeld/source.c:148-166 | the walk that drops sources while going on is the filter of the list |
| RouteTable.RouteTable.FindXroute | qsrx/babeld/xroute.c:122-132 | finds the export of a destination |
| RouteTable.RouteTable.AddXroute | qsrx/babeld/xroute.c:162-193 | adds an export, or lowers its metric |
| RouteTable.RouteTable.FlushXroute | qsrx/babeld/xroute.c:134-160 | the last entry takes the place of the flushed one; no other export is lost |
| RouteTable.RouteTable.AddNewXroute | qsrx/babeld/xroute.c:211-237 | exports a destination and uninstalls its route, keeping both from coexisting |
| WireProofs.PacketRoundTrip | qsrx/babeld/message.c:203-445 | parsing a packet body gives exactly the updates put into it, in order, whatever was compressed away |
| WireProofs.BodyParsed | qsrx/babeld/message.c:812-908 | the same from any two states of sender and receiver that are in step |
| WireProofs.ItemParsed | qsrx/babeld/message.c:310-445 | each message is heard as sent and leaves sender and receiver in step |
| WireProofs.PrefixParsed | qsrx/babeld/message.c:71-131 | a prefix is decoded to the one sent, whatever leading bytes were omitted |
| WireProofs.AttributesParsed | qsrx/babeld/message.c:133-178 | channel bytes come back as sent |
| WireProofs.NotV4Mapped | qsrx/babeld/message.c:860-866 | a masked IPv6 prefix never looks like a mapped IPv4 one to the decoder |
| WireProofs.EventsProper | qsrx/babeld/message.c:71-131 | whatever bytes arrive, a prefix learned from them is at most 128 bits long and has no bits beyond its length |
| Wire.OmittedLongest | qsrx/babeld/message.c:860-864 | as many leading bytes are left out as agree, up to the last whole one |
| Receive.ParsePacket | qsrx/babeld/message.c:194-480 | header checks and clipping of the body length |
| Receive.ParseMessages | qsrx/babeld/message.c:246-480 | the loop over message positions computes the parse of the body |
| Receive.ParseRouteAttributes | qsrx/babeld/message.c:133-178 | the loop over attributes, truncation and zero channels included |
| Receive.EverythingHeard | qsrx/babeld/message.c:532-572 | over every run of the sender, once flushed, the packets together tell exactly what was handed to the send functions |
| Receive.CarriedHeard | qsrx/babeld/message.c:532-572 | a flushed packet is cut exactly into messages and tells the items put into it |
| Receive.OnlyFramed | qsrx/babeld/message.c:208-224 | only a packet from a link-local address with the right magic number and version tells anything |
| Receive.TrailerIgnored | qsrx/babeld/message.c:232-246 | what follows the body of a packet is ignored |
| Receive.CutHeard | qsrx/babeld/message.c:232-246 | a packet cut short between two messages tells the items in front of the cut |
| SendBuffer.BodyTiled | qsrx/babeld/message.c:618-636 | a packet body is an exact sequence of messages |
| SendBuffer.SendBuffer.constructor | qsrx/babeld/babel_interface.c:526-539 | a fresh buffer of at least 64 bytes is valid |
| SendBuffer.SendBuffer.ReallySendUpdate | qsrx/babeld/message.c:812-908 | appends exactly the update with next hop and router-id it needs; nothing is flushed between them |
| SendBuffer.SendBuffer.WriteItem | qsrx/babeld/message.c:838-907 | 60 bytes are enough for the worst case, with all assertions of end_message |
| SendBuffer.SendBuffer.Introduce | qsrx/babeld/message.c:841-883 | next hop, omitted bytes, flags and router-id in front of an update |
| SendBuffer.SendBuffer.CountOmitted | qsrx/babeld/message.c:860-864 | counts the leading bytes shared with the last prefix sent |
| SendBuffer.SendBuffer.SendNh | qsrx/babeld/message.c:846-855 | sends the next hop only if the packet lacks it |
| SendBuffer.SendBuffer.SendRouterId | qsrx/babeld/message.c:871-883 | sends the router-id only if the packet and the prefix lack it |
| SendBuffer.SendBuffer.WriteUpdate | qsrx/babeld/message.c:885-902 | writes the update message |
| SendBuffer.SendBuffer.SendWildcardRetraction | qsrx/babeld/message.c:1178-1205 | appends the wildcard retraction and forgets the router-id |
| SendBuffer.SendBuffer.SendOther | qsrx/babeld/message.c:618-636 | any other message is appended whole |
| SendBuffer.SendBuffer.StartMessage | qsrx/babeld/message.c:618-626 | flushes first exactly when the message does not fit; the buffer is never overrun |
| SendBuffer.SendBuffer.EnsureSpace | qsrx/babeld/message.c:610-616 | leaves the room asked for |
| SendBuffer.SendBuffer.FlushBuf | qsrx/babeld/message.c:532-572 | hands over the buffer and resets the compression state; nothing accepted is lost or doubled |
| SendBuffer.SendBuffer.AtEnd | qsrx/babeld/message.c:628-636 | the assertion of end_message |
| SendBuffer.SendBuffer.CheckBucket | qsrx/babeld/message.c:510-530 | one request to the token bucket |
| SendBuffer.MeteredStep | qsrx/babeld/message.c:510-530 | each request keeps packets sent, tokens left and tokens to be earned within what time has brought |
| SendBuffer.PermittedBound | qsrx/babeld/message.c:510-530 | over every run at most 200 packets, and 40 more for each second the clock moves forward |
| SendBuffer.PermittedIff | qsrx/babeld/message.c:510-530 | a request is permitted exactly if tokens are left or the clock is past the time noted |
| SendBuffer.TokensUsable | qsrx/babeld/message.c:510-530 | as many requests as there are tokens are permitted, whatever their times |
| SendBuffer.RefillUsable | qsrx/babeld/message.c:514-524 | after a request that finds the bucket empty, a pause of s seconds permits the next 40 s requests, 200 at most, whatever their times |
| SendBuffer.ForwardMonotone | qsrx/babeld/message.c:510-530 | a clock that never steps back moves forward by the time that passes |
| UpdateOrder.CompareTotal | qsrx/babeld/message.c:910-942 | ties of compare_buffered_updates are equal entries, and it is antisymmetric |
| UpdateOrder.CompareTransitive | qsrx/babeld/message.c:910-942 | it is transitive |
| UpdateOrder.SortedGroups | qsrx/babeld/message.c:910-942 | sorted entries of one router-id stand together, IPv6 before IPv4, the prefix that tells the router-id first, longer prefixes before shorter ones |
| UpdateOrder.SortUnique | qsrx/babeld/message.c:988 | every sort by it has the same outcome |
| UpdateOrder.VisitsCount | qsrx/babeld/message.c:990-1061 | over sorted entries a live destination is sent once, a suppressed one never, one without a route as often as queued |
| UpdateFlush.FlushedCount | qsrx/babeld/message.c:967-1061 | the same for every queue and table |
| UpdateFlush.AllRight | qsrx/babeld/message.c:1001-1061 | what leaves is about queued destinations and right by the table's contents: an export under the own router-id with its metric and the filter's, an installed route as the network's advertisement of it, and a retraction where there is neither |
| UpdateFlush.SentCount | qsrx/babeld/message.c:967-1061 | one update leaves for a queued destination with an export or an installed route, as many as it was queued without, and none where split horizon, the filter or a missing address forbids it |
| UpdateFlush.PassedOnMetric | qsrx/babeld/message.c:1019-1052 | a learned route is passed on with the sum of its parts where it interferes, and always with more than the metric heard |
| UpdateFlush.FlushRecords | qsrx/babeld/message.c:1030-1052 | what was passed on is on record: no update with this sequence number and no smaller metric is feasible afterwards, except half the circle away |
| UpdateFlush.SortedAsSent | qsrx/babeld/message.c:980-988 | the router-id an entry is sorted by is the one its update is sent under, unless an export takes the place of an installed route |
| UpdateFlush.RetractedTwice | qsrx/babeld/message.c:1055-1061 | a destination queued twice while the table is empty is handed on twice |
| UpdateFlush.FlushUpdates | qsrx/babeld/message.c:944-1068 | sends exactly these updates, in order, each right by what the table holds, and records each advertised route once |
| UpdateFlush.SendSorted | qsrx/babeld/message.c:990-1061 | the sending loop over the sorted entries |
| UpdateFlush.FillIds | qsrx/babeld/message.c:980-986 | each entry gets the router-id of the installed route or the own one |
| UpdateFlush.Look | qsrx/babeld/message.c:1001-1026 | export, installed route, split horizon or nothing, as the table has it |
| Interface.Interface.constructor | qsrx/babeld/babel_interface.c:526-539 | nothing queued and nothing asked for |
| Interface.Interface.FlushQueue | qsrx/babeld/message.c:944-1068 | the whole queue becomes one batch and leaves as its updates; over every run the batches and the queue together are what was queued, in order |
| Interface.Interface.FlushBuf | qsrx/babeld/message.c:532-572 | queued updates go first; whoever receives all packets has heard exactly what was accepted before followed by them |
| Interface.Interface.BufferUpdate | qsrx/babeld/message.c:1082-1118 | the update is queued behind the others, or behind none when the full queue had to be flushed first |
| Interface.Interface.SendMessage | qsrx/babeld/message.c:618-626 | a message that does not fit flushes the queued updates and the buffer before it is appended |
| Interface.Interface.SendWildcardRetraction | qsrx/babeld/message.c:1178-1205 | the same for a wildcard retraction |
| AsPath.CanonicalForm | qsrx/bgpd/bgp_aspath.c:251-314 | two paths without empty sequences have the same normal form exactly when they say the same |
| AsPath.NormaliseIdempotent | qsrx/bgpd/bgp_aspath.c:251-314 | normalising twice is normalising once |
| AsPath.MeaningKept | qsrx/bgpd/bgp_aspath.c:251-314 | normalising keeps the order of hops and the members of sets |
| AsPath.NormaliseNormal | qsrx/bgpd/bgp_aspath.c:251-314 | sets are strictly sorted and no two AS_SEQUENCEs are neighbours |
| AsPath.NormalUnique | qsrx/bgpd/bgp_aspath.c:1895-1917 | normal paths that say the same are equal |
| AsPath.EmptySequenceKept | qsrx/bgpd/bgp_aspath.c:251-314 | with an empty sequence the canonical form fails |
| AsPath.NormaliseSegments | qsrx/bgpd/bgp_aspath.c:251-314 | the loop over pinned segments computes the normal form |
| AsPath.SortMembers | qsrx/bgpd/bgp_aspath.c:268-288 | qsort and the weeding of duplicates in place give the sorted set |
| SortedSet.WeedOut | qsrx/bgpd/bgp_aspath.c:275-287 | the in-place weeding keeps the members and leaves them strictly ascending |
| SortedSet.StrictUnique | qsrx/bgpd/bgp_aspath.c:275-287 | a set has one strictly ascending listing |
| AsPath.MergeFollowing | qsrx/bgpd/bgp_aspath.c:290-311 | all following sequences are appended to the pinned one |
| AsPath.Compare | qsrx/bgpd/bgp_aspath.c:1895-1917 | aspath_cmp answers whether the paths are equal |
| AsPath.HopsKept | qsrx/bgpd/bgp_aspath.c:425-441 | normalising keeps the hop count |
| AsPath.Count | qsrx/bgpd/bgp_aspath.c:407-441 | counts hops and confederation hops |
| AsPathWire.WireRoundTrip | qsrx/bgpd/bgp_aspath.c:876-947 | a sendable path is parsed back to itself in 32-bit form, and to its normal AS_TRANS image in 16-bit form |
| AsPathWire.WireRoundTripIff | qsrx/bgpd/bgp_aspath.c:876-947 | with at most 510 numbers a segment the path comes back exactly if only sequences exceed 255 |
| AsPathWire.SentRightIff | qsrx/bgpd/bgp_aspath.c:876-947 | for every normal path with numbers in every segment, the returned length is right and the path comes back exactly if no segment has more than 510 numbers and only sequences exceed 255 |
| AsPathWire.PutCountExact | qsrx/bgpd/bgp_aspath.c:902-943 | the returned length is the number of bytes written exactly if no segment exceeds 510 numbers |
| AsPathWire.LongSegmentGarbled | qsrx/bgpd/bgp_aspath.c:902-909 | of 511 different numbers the first 255 are written twice and the next 255 not at all, and the returned length is 1020 too large |
| AsPathWire.PartsMerge | qsrx/bgpd/bgp_aspath.c:290-311 | normalising puts split sequences together again |
| AsPathStream.AspathPut | qsrx/bgpd/bgp_aspath.c:876-947 | whatever room the stream has, the loop writes what the specification says for that room, as long as it does not write beyond the stream's end, which is fatal |
| AsPathStream.PutWhole | qsrx/bgpd/bgp_aspath.c:889-895 | with room for all of it the path is written whole |
| AsPathStream.CutInFront | qsrx/bgpd/bgp_aspath.c:889-897 | a normalised path without segments over 255 numbers never breaks the stream: it is cut in front of the first segment that does not fit, and what is in front is written as a path of its own |
| AsPathStream.PutSplit | qsrx/bgpd/bgp_aspath.c:902-909 | the splitting loop |
| AsPathStream.PutPacked | qsrx/bgpd/bgp_aspath.c:916-939 | the packing loop with its patched header length |
| AsPathStream.ParseStream | qsrx/bgpd/bgp_aspath.c:688-782 | the parsing loop computes the parse, with every refusal |
| AsPathStream.ParsePart | qsrx/bgpd/bgp_aspath.c:714-777 | one segment, or the refusal of the whole |
| AsPathWire.AcceptsIff | qsrx/bgpd/bgp_aspath.c:688-782 | the parser accepts exactly the encodings of segments that can stand on the wire, and gives these segments |
| As4.Tunnel | qsrx/bgpd/bgp_aspath.c:1469-1563 | whatever 2-byte speakers prepend, the 4-byte speaker behind them gets those numbers followed by the path sent |
| As4.TunnelOverWire | qsrx/bgpd/bgp_attr.c:2918-2939 | the same through the bytes of both attributes |
| As4.TunnelThroughConfed | qsrx/bgpd/bgp_aspath.c:1469-1563 | a confederation sequence put in front of what the 2-byte speakers sent stays there whole, followed by their numbers and the path sent, exactly if it is not empty or numbers were added |
| As4.TakenLength | qsrx/bgpd/bgp_aspath.c:1502-1546 | if no confederation sequence straddles the boundary, exactly the hops to be taken are taken, confederation hops counted |
| As4.TakenStraddled | qsrx/bgpd/bgp_aspath.c:1512-1529 | one that straddles it is taken whole, with all before it and nothing behind it |
| As4.TakenIsBeginning | qsrx/bgpd/bgp_aspath.c:1502-1546 | what is taken is a beginning of AS_PATH, its last AS_SEQUENCE possibly shortened |
| As4.ReconcileKeepsHops | qsrx/bgpd/bgp_aspath.c:1469-1563 | for a path without confederations the hop count is kept exactly when AS_PATH is at least as long as AS4_PATH |
| As4.ShorterKeptWhole | qsrx/bgpd/bgp_aspath.c:1486-1500 | an AS_PATH shorter than AS4_PATH is kept whole in front of it |
| As4.ReconcileAs4 | qsrx/bgpd/bgp_aspath.c:1469-1563 | computes the reconciled path |
| As4.CopyHops | qsrx/bgpd/bgp_aspath.c:1502-1546 | the loop over segments copies as many hops as are to be taken; no copy exceeds its segment |
| As4.TakesSomething | qsrx/bgpd/bgp_aspath.c:1549-1556 | there is a segment to merge whenever the merge is reached |
| As4.AddAllAttaches | qsrx/bgpd/bgp_aspath.c:1386-1427 | adding numbers one by one is attaching them as one sequence |
| AsPathText.TextRoundTrip | qsrx/bgpd/bgp_aspath.c:1706-1835 | reading the printed string gives the path with neighbouring sequences fused and empty ones dropped |
| AsPathText.TextRoundTripIff | qsrx/bgpd/bgp_aspath.c:1706-1835 | it is the same path exactly if no sequence is empty and no two are neighbours |
| AsPathText.ReadableIff | qsrx/bgpd/bgp_aspath.c:1705-1835 | a text is read as a path exactly if it has no characters but digits, separators and brackets, whatever their order |
| AsPathText.MakeStr | qsrx/bgpd/bgp_aspath.c:501-605 | prints the path; every piece fits its buffer with the final zero, and the length ends below the size |
| AsPathText.SegmentLength | qsrx/bgpd/bgp_aspath.c:557-571 | the room reckoned for a segment is enough |
| AsPathText.Str2Aspath | qsrx/bgpd/bgp_aspath.c:1771-1835 | the token loop computes the reading |
| AsPathText.GetToken | qsrx/bgpd/bgp_aspath.c:1705-1769 | the tokenizer loop |
| Community.UniqSortCom | qsrx/bgpd/bgp_community.c:160-185 | gives the strictly sorted set of the values |
| Community.CoversSubset | qsrx/bgpd/bgp_community.c:413-440 | on sorted sets a match means subset |
| Community.CoversContains | qsrx/bgpd/bgp_community.c:413-440 | on any lists a match means every value is there |
| Community.OrderMatters | qsrx/bgpd/bgp_community.c:413-440 | on unsorted lists a subset need not match |
| Community.Match | qsrx/bgpd/bgp_community.c:413-440 | the one-pass loop, with null pointers and the size check |
| Community.TextRoundTrip | qsrx/bgpd/bgp_community.c:583-620 | reading the printed text gives the sorted set although the last value is added twice; the empty list gives nothing |
| Community.TextRoundTripIff | qsrx/bgpd/bgp_community.c:583-620 | the list comes back exactly if it is non-empty and strictly sorted |
| Community.Com2Str | qsrx/bgpd/bgp_community.c:187-293 | prints the list within the length reckoned beforehand |
| Community.PrintFits | qsrx/bgpd/bgp_community.c:220-250 | text and final zero fit that length |
| Community.Str2Com | qsrx/bgpd/bgp_community.c:583-620 | the token loop computes the reading |
| Community.GetToken | qsrx/bgpd/bgp_community.c:485-580 | the tokenizer |
| Intern.PathLives | qsrx/bgpd/bgp_aspath.c:336-353 | a path is in the table exactly as long as someone holds it or interned attributes use it |
| Intern.AttrLives | qsrx/bgpd/bgp_attr.c:688-718 | attributes are in the table exactly as long as they are held, stored in an adjacency or wait in an advert |
| Intern.InternPathsOk | qsrx/bgpd/bgp_attr.c:514-566 | interning attributes keeps each path count equal to handles plus counts of attributes using it |
| Intern.UninternPathsOk | qsrx/bgpd/bgp_attr.c:688-718 | releasing attributes does too, and the path is still there to be released |
| Intern.EnlistedOk | qsrx/bgpd/bgp_advertise.c:123-134 | an advert enters the list of its attributes and the count stays the length of the list |
| Intern.StruckOk | qsrx/bgpd/bgp_advertise.c:136-153 | an advert leaves its list; the entry goes with the last one |
| Intern.StrikeOk | qsrx/bgpd/bgp_advertise.c:136-153 | attribute counts stay handles plus adjacencies plus counts of advertisement attributes |
| Intern.QueuedKept | qsrx/bgpd/bgp_advertise.c:136-153 | attributes of a waiting advert are in the table |
| Intern.Tables.constructor | qsrx/bgpd/bgp_advertise.c:123-134 | empty tables balance |
| Intern.Tables.HoldPath | qsrx/bgpd/bgp_aspath.c:616-634 | all counts balance after interning a path |
| Intern.Tables.ReleasePath | qsrx/bgpd/bgp_aspath.c:336-353 | and after giving it back |
| Intern.Tables.HoldAttr | qsrx/bgpd/bgp_attr.c:514-566 | all counts balance after interning attributes |
| Intern.Tables.ReleaseAttr | qsrx/bgpd/bgp_attr.c:688-718 | and after giving them back |
| Intern.Tables.AdjInSet | qsrx/bgpd/bgp_advertise.c:331-353 | stores the attributes received and keeps the balance |
| Intern.Tables.AdjInUnset | qsrx/bgpd/bgp_advertise.c:364-378 | drops them and keeps the balance |
| Intern.Tables.AdjOutSet | qsrx/bgpd/bgp_advertise.c:215-267 | queues an update in place of an earlier advert and keeps the balance |
| Intern.Tables.AdjOutUnset | qsrx/bgpd/bgp_advertise.c:269-315 | queues a withdrawal exactly if something was sent |
| Intern.Tables.AdjOutRemove | qsrx/bgpd/bgp_advertise.c:317-329 | drops both pointers of an adjacency |
| Intern.Tables.Clean | qsrx/bgpd/bgp_advertise.c:181-213 | takes an advert off its list and names the next one that waits with the same attributes |
| Intern.Tables.Synchronize | qsrx/bgpd/bgp_packet.c:314-330 | turns an advert into sent attributes, which survive the release of the old ones, and names the next advert that waits with the same attributes if there is one |
| Samples.PathText | qsrx/bgpd/bgp_aspath.c:355-376 | how each kind of segment is printed |
| Samples.CommunityText | qsrx/bgpd/bgp_community.c:254-289 | how well-known and other communities are printed |
| Samples.BadCommunities | qsrx/bgpd/bgp_community.c:484-581 | unfinished and overlong pairs, unknown words and empty texts are no communities |
| Samples.PathBytes | qsrx/bgpd/bgp_aspath.c:846-874 | the bytes of each kind of segment, with two and with four bytes a number |
| Samples.UpdateBytes | qsrx/babeld/message.c:841-902 | the bytes of the first update of a packet |
| Samples.WildcardBytes | qsrx/babeld/message.c:1178-1205 | the bytes of a wildcard retraction |
| Samples.MartianSamples | qsrx/babeld/util.c:367-377 | which IPv6 prefixes are martian |
| Samples.MartianV4Samples | qsrx/babeld/util.c:367-377 | which IPv4 prefixes are martian |

## Left out

- Sending on the route table's account: triggered updates, requests and resends only follow changes of the table and do not change it; `RouteTable` models the table.
- Pointers: a route is its slot and position, a source its router-id and destination, a linked list a sequence. Aliasing between lists is not modelled.
- Memory: allocation never fails; the 16-bit limits of `route_count`, of segment lengths and of `str_len` are not modelled.
- Route channels and interference between interfaces: which routes interfere, and the channel bytes sent, are parameters of a flush.
- UpdateFlush.FlushUpdates: does not record satisfied requests, and a prefix queued for sending must be masked and at most 128 bits long, as the parser and the route table have it.
- SendBuffer.SendBuffer.FlushBuf: does not flush the queued updates of the interface first, as there are none while updates are being sent; `Interface.Interface.FlushBuf` does. The unicast buffer is not modelled.
- SendBuffer.SendBuffer.SendWildcardRetraction: does not flush queued updates first when it does not fit; `Interface.Interface.SendWildcardRetraction` does.
- Receive.ParsePacket: leaves the messages that do not touch the parser's state uninterpreted, and takes bytes beyond the end of a truncated packet as zero, where the code reads what the buffer holds.
- Receive.EverythingHeard: is about packets that all arrive; lost and repeated packets are a matter of `Network`.
- AsPathWire.WireRoundTrip: is about segments of at most 510 numbers; beyond that the returned length is wrong, and the numbers written may be others (`AsPathWire.SentRightIff`).
- As4.Tunnel: is about updates without AS4_AGGREGATOR, and paths sent without confederation segments, which the sender strips; `As4.TunnelThroughConfed` adds one sequence in front.
- Communities, clusters and unknown attributes inside interned attributes are counted like paths and are part of the rest of an attribute here; hash tables are maps keyed by contents, so identity of equal objects is not modelled.
- Intern.Tables.AdjInSet: whether the attributes passed are the stored object itself is a parameter.
- Sockets, timers, logging, the kernel and the configuration commands; filters are functions.
- `aspath_aggregate`, extended communities, route flap damping, BGPsec and the gRPC layer are not part of this model.
