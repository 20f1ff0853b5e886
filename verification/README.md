# Virtual Ring Routing: a verified model

This project models the kernel module's routing logic and proves what it keeps over whole runs.
Four coupled parts are covered:

- **Virtual set** (`RingArithmetic`, `Sorting`, `VirtualSet`, `VirtualSetTable`, `VsetAsWritten`,
  `DriftedSetups`): the admission test and the eviction rule of the small ring neighbourhood, on
  32-bit wrapped differences, as intended and with the counter that the code keeps.
- **Routing table** (`RoutingTable`, `RoutingTree`): the search tree of endpoints as mutable state,
  refined to a map from endpoint to a list of routes, newest first.
- **Neighbours and hellos** (`PhysicalSet`, `NeighbourTable`, `Wire`, `Handshake`, `CrossingHellos`): the
  neighbour list, its cached class arrays, the failure sweep, packets as bytes, the meaning of a hello
  and the convergence of the two-party handshake, also when hellos cross.
- **The network** (`Network`, `Links`, `HeardBothWays`, `SilenceAges`, `UpdateQueue`,
  `ActiveFlags`, `HandshakeRuns`, `SetupPath`, `TeardownPath`, `TeardownTraffic`, `TeardownCascade`,
  `Lifecycle`, `Frames`, `Handlers`): any number of nodes with hellos, setups and teardowns in flight over a channel that loses, duplicates and
  reorders. Every handler is an atomic step; a run is any sequence of enabled steps from freshly
  started nodes. `Lifecycle` runs six rounds of crossing hellos, and routes of two and of three nodes
  from power-up to teardown, and so shows that the hypotheses of the main theorems are met. `Frames`
  ties the packets to bytes, and `Handlers` ties the methods on one node's mutable state, which send
  and receive those bytes, to the steps.

History that no step reads is carried along to state the theorems: a log of hellos, accepted
packets and sweeps; the position in the log at which a hello was sent; and for each node the
(endpoint, path id) pairs it has ever removed.

## How the code was read

- `cmp_diff` (vrr_data.c:605-612) compares addresses; the call sites want an ascending sort of the
  values, and that is modelled.
- `vset_size` is incremented on insertion (vrr_data.c:767) and never decremented when a member leaves,
  so the arrays of `vset_size` words in vrr_data.c:619 and 656 then have slots that nothing fills.
  `VirtualSet`, `VirtualSetTable` and `Handlers` model the intended size, the length of the list.
  `VsetAsWritten` models the code as written, for any contents of those slots:
  - For any members and slots the eviction rule finds somebody exactly if a member is third on both
    sides among members and slots (`EvictionByCounting`). For five or more foreign members,
    `EvictionAsWritten` says what that means for the differences; for exactly five and one slot on each
    side, each slot must be at least the third-smallest difference there, or the second and third must
    tie (`OneSlotEviction`). With ME among five or more, `EvictionWithMe` does: two zero slots on each
    side, or exactly five members with a tie in the middle; from six members on only ME is ever found.
  - For five or more foreign members and a zero slot on each side nobody is found
    (`NeverWithZeroSlots`), and for seven or more foreign members nobody is found whatever the slots
    hold (`NeverFromSevenOn`).
  - Over runs without ME and without removals: if the slots hold 0, there is one eviction ever, six
    insertions leave five members, and the set grows without bound (`ZeroMemoryNeverEvictsTwice`,
    `SixInsertionsFail`, `SetGrowsWithoutBound`); if they hold only ones, the list is the intended one
    (`OnesHideTheDrift`).
  - After a removal the list can be below four while the counter is not. Then an offer to a set with
    room can be refused, or can cost another member its place: four offers, one removal and one offer
    leave three members (`RemovalThenOfferFails`). `OfferAsIntended` says exactly when an offer does what
    it should, for lists of any length, with ME or without.
  - The admission test never wrongly accepts. With a counter of four or more it wrongly refuses exactly
    when members and slots together beat the node on both sides (`WantedAsWritten`, `SlotsOnlyRefuse`).
  - `vset_get_all` returns the counter (vrr_data.c:734-744). From the fifth insertion on a node announces
    more than four ids in its own setups and setup requests, and for ever after the first hop of such a
    setup stores the route and sends nothing on (`DriftStopsSetups`).
- Nothing keeps ME out of the virtual set; the differences of ME are both 0. Offered to a set without
  it, ME is always admitted. With ME among five members the eviction rule works exactly if the third
  and fourth left difference tie (`BumpWithMe`), and the admission test and the rule can disagree
  (`AgreementFailsWithMe`); `AgreementIsExact` says exactly when they do.
- The two hello timers run independently, so hellos cross. From any statuses with no hello under way
  six rounds link the two nodes whatever the interleaving (`CrossingHellosConverge`). A stale hello under
  way at the beginning can keep them apart for ever (`StaleHelloCanCycle`).
- `rt_search` looks for the exact endpoint, where the comment at vrr_input.c:626-630 asks for the
  closest one. The exact match is modelled.
- `rt_add_route` accepts duplicates, and `rt_remove_route` removes only the copy under the endpoint it
  is given. One consequence is `DestinationCopiesSurvive`: after a whole path is torn down its nodes
  still forward toward the destination.
- `vrr_rcv_setup` calls `tear_down_path` when the sender is not a neighbour (vrr_input.c:377), so even a
  run without teardown packets can remove entries. The link invariant is therefore stated for all
  runs, with what a node has removed as the only exception, and without exception for runs in which
  nothing is removed.
- `vrr_rcv_teardown` uses the route even when none was found (vrr_input.c:470-473); that case is a drop
  here. `null` at vrr_input.c:377 is 0. At the source of a path the previous hop is the node itself, so
  a teardown ends there because the node is not its own neighbour, and the code after
  vrr_input.c:493 is not reached; it is at the destination.
- Where a teardown ends, `vrr_rcv_teardown` removes from the virtual set the endpoint on the far side of
  the sender (vrr_input.c:466-474, 494). At the destination of a path that is the destination itself, so
  the source stays a member there (`TeardownCutsOffItself`). It then offers id 0 (vrr_input.c:496).
- The id array and the MAC array of each cached class are one array of pairs. The arrays hold 20
  entries while the list is unbounded; methods that refresh them require that each class fits.
- Node ids are non-zero, each node has one interface with its own address, a broadcast is not
  received by its sender, and allocation succeeds.

## Model

| member | source | states |
|---|---|---|
| RingArithmetic.DiffIsArcLength | vrr_data.c:748-755 | the wrapped difference is the arc length on a ring of 2^32 points, at most 2^31: that many unit steps join the two ids and fewer do not |
| RingArithmetic.DiffIsMetric | vrr_data.c:748-755 | symmetric, zero only on equal ids, triangle inequality |
| RingArithmetic.DiffsAreComplementary | vrr_data.c:657-660 | left and right difference of a foreign node sum to UINT_MAX and the one on its side of ME is the arc length; both are 0 for ME |
| Sorting.SortIsAscendingPermutation | vrr_data.c:632-634 | sorting gives an ascending permutation |
| Sorting.AscendingIsUnique | vrr_data.c:632-634 | there is only one ascending arrangement of the values, so any correct sort gives this result |
| Sorting.SortOfComplement | vrr_data.c:632-634 | sorting complementary values gives the mirror image of the sorted values |
| Sorting.SortInPlace | vrr_data.c:632-634 | the array ends up as the sorted form of what it held |
| VirtualSet.RightsMirrorLefts | vrr_data.c:757-768 | for a set without ME, the order by right difference is the order by left difference reversed |
| VirtualSet.BumpIsInfallible | vrr_data.c:614-650 | with five members, ME not among them, the rule always finds a member matching both medians and removes exactly it; the differences that stay are the two smallest left and the two smallest right ones |
| VirtualSet.BumpWithMe | vrr_data.c:614-650 | with ME among five members the rule finds somebody exactly if the third and fourth left difference tie |
| VirtualSet.EvictedIsUnwanted | vrr_data.c:636-646 | inserted into a full set without ME, the evicted id is the newcomer's exactly when the admission test refuses the newcomer, and somebody is evicted unless the newcomer is ME |
| VirtualSet.AdmissionAgreesWithEviction | vrr_data.c:652-697 | for every node, ME included, the admission test of a set without ME accepts it exactly when adding it changes the set, exactly when it is a new member afterwards; ties included |
| VirtualSet.WantedUnlessBeaten | vrr_data.c:652-697 | any set of four or more, ME in it or not, wants exactly the absent nodes for which fewer than two members are as near on one side |
| VirtualSet.AgreementIsExact | vrr_data.c:652-697 | for any four members or more, ME in it or not: test and rule agree exactly unless the node is absent, beaten on both sides and not third on both; a wanted node is always in the set afterwards |
| VirtualSet.AgreementFailsWithMe | vrr_data.c:652-697 | a full set with ME that refuses a node which would stay if inserted |
| VirtualSet.OfferedStaysOrIsBeaten | vrr_data.c:575-603 | after any run of vset_add, of ME too, every offered node is a member or beaten by two members on each side; without ME the set stays within four members |
| VirtualSet.AdmittedStaysOrIsBeaten | vrr_core.c:660-667 | the same for runs of vrr_add, which asks first and ignores 0xFFFFFFFF; without ME and that id the runs are those of vset_add |
| VirtualSet.VsetKeepsTheNearest | vrr_data.c:575-603 | after any run of offers, of ME too, an offered node that is no member is beaten by two members on the left and by two on the right |
| VsetAsWritten.EvictionByCounting | vrr_data.c:614-650 | for any members, ME among them or not, and any contents of the unfilled slots: the rule evicts the first member that is third on both sides among members and slots, and nobody exactly if there is none |
| VsetAsWritten.EvictionAsWritten | vrr_data.c:614-650 | for five foreign members or more and any slots: somebody is found exactly if the third-smallest and third-largest member difference coincide and the slots disturb neither; it is then the member at both medians |
| VsetAsWritten.OneSlotEviction | vrr_data.c:614-650 | for five foreign members and one slot on each side: found exactly if on each side the slot is at least the third-smallest difference or the second and third tie, and then the intended member |
| VsetAsWritten.EvictionWithMe | vrr_data.c:614-650 | with ME among five members or more and any slots: somebody is found exactly if two slots on each side are 0, or there are five members, the third and fourth left difference tie and the slots disturb neither side; with six or more it is ME |
| VsetAsWritten.NeverWithZeroSlots | vrr_data.c:614-650 | for five foreign members or more: with a slot that holds 0 on each side nobody is found |
| VsetAsWritten.NeverFromSevenOn | vrr_data.c:614-650 | for seven foreign members or more nobody is found, whatever the slots hold |
| VsetAsWritten.SixMembersOnlyGrow | vrr_data.c:575-603 | inserting a foreign node into six foreign members or more never evicts |
| VsetAsWritten.WantedAsWritten | vrr_data.c:652-697 | once the counter has reached four, an absent node is wanted exactly if fewer than two of members and slots are as near on one side |
| VsetAsWritten.SlotsOnlyRefuse | vrr_data.c:652-697 | the slots never make the test accept a node that the members alone refuse |
| VsetAsWritten.TwoZeroSlotsRefuseAll | vrr_data.c:652-697 | with a counter of four or more and at least two slots, all of them 0, every node is refused |
| VsetAsWritten.CounterDrifts | vrr_data.c:757-768 | over every run of offers and removals with any slots no id occurs twice; unless ME is offered, the counter is too high from the fifth insertion on, and without removals it is right before that and at least four members stay |
| VsetAsWritten.OfferAsIntended | vrr_core.c:660-667 | for every list without repeated ids, short or long, ME in it or not, every counter and all slots: an offer does what vrr_add should do exactly if the counter is below four, or the node is not to be admitted, or the test as written still accepts it and the slots do not change who is third on both sides |
| VsetAsWritten.ForeignSameThirds | vrr_data.c:614-650 | for five foreign members the last condition is that the slots disturb neither median |
| VsetAsWritten.RoomIsLost | vrr_data.c:614-650 | four foreign members with a zero slot on the left and ones on the right always lose one |
| VsetAsWritten.RemovalThenOfferFails | vrr_data.c:699-718 | for every ME a run of four offers, a removal and an offer that should leave four members and leaves three |
| VsetAsWritten.ZeroMemoryNeverEvictsTwice | vrr_data.c:575-603 | over every run of offers of foreign nodes without removals and with zero slots, the list is one shorter than the counter from the fifth insertion on: one eviction ever |
| VsetAsWritten.SetGrowsWithoutBound | vrr_core.c:660-667 | any run of foreign nodes other than 0xFFFFFFFF that come nearer on the left is admitted in full with zero slots, and from the fifth on all but one stay |
| VsetAsWritten.SixInsertionsFail | vrr_core.c:660-667 | for every ME a run of six insertions that leaves five members |
| VsetAsWritten.OnesHideTheDrift | vrr_core.c:660-667 | over every run of offers of foreign nodes without removals and with slots that hold only ones, the list is the intended one |
| DriftedSetups.AnnouncedIsReadable | vrr_data.c:725-745 | a packet with the ids of vset_get_all is readable exactly if the counter is at most four |
| DriftedSetups.DriftStopsSetups | vrr_input.c:397-405 | from the fifth insertion on, and after any further events, the first hop of a setup of this node stores the route if it knows the sender, sends nothing on and does not become active |
| VirtualSetTable.VsetTable.SortedDiffs | vrr_data.c:625-634 | the two arrays hold the sorted left and right differences |
| VirtualSetTable.VsetTable.Wants | vrr_data.c:652-697 | the loops compute the admission test |
| VirtualSetTable.VsetTable.BumpOne | vrr_data.c:614-650 | evicts exactly the member at both medians when there are too many and returns its id; the failure value exactly when nobody is there, and never for five members without ME |
| VirtualSetTable.VsetTable.AddNode | vrr_data.c:575-603 | for every node: return values -1, 0, 1 as it was present, fitted, or was one too many; in a set without ME the evicted id is a foreign newcomer's exactly if it was not wanted |
| VirtualSetTable.VsetTable.RemoveNode | vrr_data.c:699-718 | removes the node and no other, and says whether it was there |
| VirtualSetTable.VsetTable.GetAll | vrr_data.c:725-745 | the ids in list order |
| VirtualSetTable.VsetTable.VrrAdd | vrr_core.c:647-670 | for every source, ME included: requests a path to exactly the wanted ids if there is a proxy; reports the source as added exactly if it is wanted, and then it is a member afterwards |
| VirtualSetTable.WantedExactly | vrr_core.c:652-658 | of the announced ids exactly those are requested that are no members and for which there is room or that are not beaten on both sides, each as often as announced and in that order |
| RoutingTable.AddKeepsValid | vrr_data.c:236-285 | key 0 never occurs and every entry is stored under one of its endpoints, after an addition |
| RoutingTable.RemoveKeepsValid | vrr_data.c:335-338 | the same after a removal |
| RoutingTable.AddThenRemoveRestores | vrr_data.c:236-285 | adding a route and removing it under both endpoints restores every list, for endpoints 0 or equal and any duplicates |
| RoutingTable.BestIsNewestHighest | vrr_data.c:176-194 | the scan yields the newest entry with the highest unsigned path id, or none if all ids are 0 |
| RoutingTable.NewestHighestIsUnique | vrr_data.c:176-194 | only one entry of a list qualifies |
| RoutingTable.NextHopLeadsToDestination | vrr_data.c:77-110 | for a destination other than ME the next hop is the hop toward it on that entry, or 0 if there is none; the fallback for ME plays no part; for ME itself it is 0, whatever is stored |
| RoutingTree.OrderedListsModel | vrr_data.c:28-36 | an ordered tree lists each endpoint of its table once, in increasing order |
| RoutingTree.RebalancingIsInvisible | vrr_data.c:323-326 | any rearrangement that keeps the in-order sequence keeps the ordering and the table |
| RoutingTree.PlugStores | vrr_data.c:291-327 | storing a list where the walk for an endpoint ends changes the table there and nowhere else, and keeps the ordering |
| RoutingTree.EndpointTree.Walk | vrr_data.c:299-314 | the loop ends at the endpoint's node, or at an empty link exactly if there is none |
| RoutingTree.EndpointTree.FindInsertNode | vrr_data.c:291-327 | afterwards the endpoint has exactly one node, holding what it held or an empty list, for every rebalancing |
| RoutingTree.EndpointTree.Add | vrr_data.c:236-285 | the tree then stands for the table with the route added |
| RoutingTree.EndpointTree.Remove | vrr_data.c:112-128 | the tree then stands for the table without the first entry with that path id under that endpoint, which is returned |
| RoutingTree.EndpointTree.GetNext | vrr_data.c:77-110 | the loops compute the next hop of the table, whatever the tree's shape |
| RoutingTree.EndpointTree.SearchList | vrr_data.c:176-209 | the running maximum computes the hop on the best entry |
| RoutingTree.ExcludingAbsentSource | vrr_data.c:148-170 | the excluding search is the plain search when the source has no node |
| RoutingTree.ExclusionDependsOnShape | vrr_data.c:148-170 | with a node for the source, two trees for the same table give different answers |
| PhysicalSet.UpdateKeepsValid | vrr_input.c:55-78 | a handled update keeps one entry per node, moves that node's status as the table says, and no other |
| PhysicalSet.UpdateStoresFlag | vrr_input.c:55-70 | a handled update stores the node's active flag, new neighbour or not; other flags, all stored addresses and fail counts and the order stay, with a new neighbour in front |
| PhysicalSet.ResetKeepsValid | vrr_data.c:502-520 | resetting a fail count keeps the list valid and every status and address |
| PhysicalSet.SweepAges | vrr_core.c:113-133 | the surviving entries are exactly the aged forms of those that did not expire |
| PhysicalSet.SweepKeepsValid | vrr_core.c:113-133 | the sweep keeps one entry per node |
| PhysicalSet.ListedByStatus | vrr_core.c:79-111 | a node is listed in a class exactly when the set holds it with that status and flag |
| PhysicalSet.LookupFindsMac | vrr_data.c:433-454 | the lookup returns a node with that address, or there is none |
| NeighbourTable.Neighbours.StateUpdate | vrr_core.c:79-111 | the cached arrays and sizes are the list-order projections of the neighbour list |
| NeighbourTable.Neighbours.AgeEntry | vrr_core.c:119-126 | one entry ages and is marked at the threshold; the cache stays coherent |
| NeighbourTable.Neighbours.UnlinkEntry | vrr_core.c:127-131 | unlinking a failed entry without a refresh leaves the cache coherent |
| NeighbourTable.Neighbours.DetectFailures | vrr_core.c:113-133 | the in-place sweep with deletions leaves the swept list and a coherent cache |
| NeighbourTable.Neighbours.GetStatus | vrr_data.c:395-411 | the status of the first entry for the node, or unknown |
| NeighbourTable.Neighbours.GetActive | vrr_data.c:456-474 | the active flag of the first entry for the node, or 0 |
| NeighbourTable.Neighbours.GetMac | vrr_data.c:476-493 | the address of the first entry for the node, or none |
| NeighbourTable.Neighbours.FindMac | vrr_data.c:433-454 | the loop computes the lookup by address |
| NeighbourTable.Neighbours.Accept | vrr_input.c:538-539 | resets the active timeout and that node's fail count; the cache stays coherent |
| NeighbourTable.Neighbours.HandleOne | vrr_input.c:55-78 | one update applied and the cache coherent; whether a setup request goes out |
| Handshake.RequestsAreToLinkedActive | vrr_input.c:73-74 | a setup request goes out exactly if this node is inactive and holds the other, after the update, as linked and active |
| Handshake.RequestsInOrder | vrr_input.c:46-81 | each update of a queue adds at most that one request, in order |
| Handshake.RequestsExactly | vrr_input.c:46-81 | over a whole queue: a node gets a request exactly if one of its updates does that |
| NeighbourTable.Neighbours.HandleUpdates | vrr_input.c:46-81 | the whole queue is applied in order and emptied, the cache is coherent, and the setup requests are those of its rounds |
| NeighbourTable.Neighbours.SendHello | vrr_core.c:484-547 | the payload built from the cached arrays is the encoding of the hello that the neighbour list calls for |
| NeighbourTable.Neighbours.RcvHello | vrr_input.c:115-220 | queues what the decoded hello says about this node, or drops it |
| NeighbourTable.Neighbours.HasProxy | vrr_data.c:527-550 | whether some neighbour is linked and active |
| NeighbourTable.Neighbours.ActiveTimeout | vrr_core.c:135-140 | the node becomes active on the eighth quiet tick |
| NeighbourTable.Neighbours.Tick | vrr_mod.c:194-199 | sweep, timeout, hello in this order: the hello describes the neighbours the sweep left |
| Wire.NetworkOrder | vrr_core.c:228-243 | on either host byte order a converted word is stored most significant byte first and read back unchanged |
| Wire.HeaderLayout | vrr.h:144-154 | where the fields of the header lie |
| Wire.BodyLayout | vrr_core.c:216-359 | type and order of the words of each control payload |
| Wire.HelloLayout | vrr_core.c:502-530 | the order of the words of a hello |
| Wire.WordsRoundTrip | vrr_core.c:228-247 | the words read from a payload are the words written |
| Wire.HeaderRoundTrip | vrr_core.c:418-442 | the header fields read back are those written |
| Wire.BodyRoundTrip | vrr_input.c:358-416 | decoding an encoded setup, setup_req, setup_fail or teardown gives it back when its vset has at most four ids, and rejects it otherwise |
| Wire.ControlPacketRoundTrip | vrr_core.c:216-263 | the same for whole packets with their header |
| Wire.SendWords | vrr_core.c:502-530 | words converted at a running index and copied form the encoded payload |
| Wire.EncodeBody | vrr_core.c:311-359 | the payload is the encoding of fields, size and vset |
| Wire.DecodeBody | vrr_input.c:452-489 | reading at a running offset computes the decoding, including the size check |
| Wire.HelloRoundTrip | vrr_input.c:140-203 | a hello decodes to itself with at most twenty ids per list, and is rejected otherwise |
| Wire.ScanHello | vrr_input.c:172-203 | the three scans compute what the hello says about the receiver, the last match winning |
| Wire.PendingWins | vrr_input.c:172-203 | what a hello says for any lists, also if they overlap: pending over linked over missing |
| Wire.DecodeHello | vrr_input.c:140-203 | reading at a running offset computes the decoding, including the size checks |
| Handshake.ReachedIsValid | vrr_data.c:343-374 | every reachable neighbour set has one entry per node and no stored unknown status |
| Handshake.HelloSaysStatus | vrr_core.c:79-111 | the lists of a hello name the receiver exactly as the sender's status for it |
| Handshake.HelloListsExactly | vrr_core.c:79-111 | the three lists of a hello name exactly the linked active, the linked inactive and the pending neighbours |
| Handshake.HelloMeansStatus | vrr_input.c:115-220 | end to end, for every reachable sender state: with at most twenty neighbours per class the decoded hello says linked, pending or missing as the sender holds the receiver linked, pending or neither, and its active word is non-zero exactly if the sender is active; otherwise it is dropped |
| Handshake.ExchangeLowersRank | vrr_input.c:22-27 | a hello changes nothing or lowers the rank of the status pair; only linked/linked is kept by both directions |
| Handshake.SixRoundsConverge | vrr_input.c:22-27 | from every status pair any six rounds with both directions end in linked/linked, which no further hello changes |
| Handshake.TurnsAreExact | vrr_input.c:22-27 | from every status pair, the exact number of hellos in turn after which both are linked and before which they are not: three from power-up, at most six |
| CrossingHellos.StepPays | vrr_input.c:22-27 | with at most one hello under way each way, whatever it says: sending and handling keep the states possible, and a finished round lowers the rounds still owed |
| CrossingHellos.CrossingHellosConverge | vrr_input.c:22-27 | from any statuses with no hello under way, any order of sending and handling, with hellos crossing, late or lost, ends in linked/linked after six rounds |
| CrossingHellos.StaleHelloCanCycle | vrr_input.c:22-27 | with one stale hello under way, three rounds lead from a state that is not linked/linked back to it |
| HandshakeRuns.ConversationHolds | vrr_mod.c:194-199 | over every run in which the hellos of two nodes are received in order, each sent by a tick that sweeps first, with all other steps free: views and statuses follow the crossing handshake |
| HandshakeRuns.NetworkConverges | vrr_mod.c:194-199 | from every reachable state with no hello between the two waiting, they hold each other linked after six rounds, crossing or not, as long as only the latest hello of each is received and each hears the other between its first two ticks and never ticks four times in a row without hearing it |
| Links.StepKeepsTruePairs | vrr_input.c:205-213 | hellos only ever put true pairs of id and address into queues and physical sets, and never a node into its own |
| Links.SenderIsTrue | vrr_input.c:368-381 | the sender looked up for a frame is the node that sent it |
| Links.LinksHold | vrr_input.c:343-436 | over every run: a setup in flight has its entries at its sender with the receiver as next hop, and an entry that came from another node matches one there, unless that node removed it |
| Links.TeardownFreeLinks | vrr_input.c:368-422 | over every run in which nothing is removed: the same without exception |
| HeardBothWays.HearingHolds | vrr_input.c:172-217 | over every run: neighbours were heard, hellos name only heard nodes, linked ones heard back |
| HeardBothWays.LinkedMeansHeardBothWays | vrr_input.c:46-81 | over every run: if a holds b linked, a received a hello that b sent after receiving one from a |
| SilenceAges.SilenceAgesAreExact | vrr_core.c:113-133 | over every run: each fail count is the number of sweeps since the neighbour was added or last heard of, and at most 7 |
| SilenceAges.SweepMarksAndRemoves | vrr_core.c:113-133 | after a sweep neighbours silent for four sweeps are failed, and a neighbour is gone exactly on its eighth silent sweep |
| SilenceAges.OnlySweepsRemove | vrr_core.c:127-131 | no other step removes a neighbour |
| SilenceAges.IdleTimeIsExact | vrr_core.c:135-144 | over every run: an inactive node's timeout is the number of its ticks since it last accepted a packet, and below eight |
| SilenceAges.ActivationIsExact | vrr_core.c:135-140 | over every run: a node is active after a step exactly if it was before, or this was its eighth idle tick, or a readable setup from a neighbour ended at it and its source was admitted |
| UpdateQueue.UpdatesInOrder | vrr_input.c:205-215 | over every run: what a node received in readable hellos is what it has handled followed by what is queued, in order and unchanged |
| UpdateQueue.DrainIsRounds | vrr_input.c:46-81 | draining the queue at once is the same as one round after the other |
| ActiveFlags.FlagsAreTrue | vrr_input.c:46-81 | over every run: each neighbour's active flag is the word of the last hello handled from it, and is what that neighbour was after one of its ticks; the same for hellos in flight and queued updates |
| ActiveFlags.ActiveNeighbourIsActive | vrr_data.c:527-550 | over every run: whoever is flagged active is active, so every possible proxy is |
| Network.OwnProxyEnds | vrr_input.c:383-386 | a setup that names this node as proxy and has a destination it does not know ends there, or does not leave |
| SetupPath.AddedRouteLeads | vrr_data.c:236-285 | an added route with the largest path id leads under both endpoints |
| SetupPath.LeaderIsFollowed | vrr_data.c:176-209 | a leading entry decides the next hop |
| SetupPath.TravelInstalls | vrr_input.c:343-436 | after k hops of a setup, copies of them, and any steps that do not interfere, its entry leads at the first k nodes |
| SetupPath.SetupBuildsTwoWayRoute | vrr_input.c:554-581 | once a setup with the largest path id has travelled a path of distinct nodes, next hops lead from every node to the destination and to the source in exactly the remaining number of hops |
| SetupPath.DataFollowsRoute | vrr_output.c:58-77 | on such a path data frames are addressed to the next node of the path |
| SetupPath.SetupTravels | vrr_input.c:343-422 | delivered hop by hop, a setup travels the whole of a path whose nodes would pass it on |
| TeardownPath.RemovesExactlyOne | vrr_data.c:211-230 | a removal takes exactly the returned entry out of its list and leaves all other lists |
| TeardownPath.StartSends | vrr_core.c:361-394 | tear_down_path on an established path tells exactly the neighbours on the path |
| TeardownPath.TearDownTells | vrr_core.c:361-394 | for any entry and sender: exactly the two hops and the sender are told, once each, as far as they are neighbours, with the vset only if a sender is given; nothing without an entry |
| TeardownPath.Passes | vrr_input.c:438-493 | a received teardown with a matching entry goes on with its vset to the other side, and nowhere if its vset is too long, there is no hop or the hop is no neighbour |
| TeardownPath.StrayTeardownIsDropped | vrr_input.c:464-474 | a teardown without a matching entry only counts as a sign of life |
| TeardownPath.StrangerTearsDown | vrr_input.c:368-381 | a setup from a node that is no neighbour removes the entry under its source and tells the hops; nothing is stored or passed on and the node does not become active |
| TeardownPath.TeardownRemovesWholePath | vrr_input.c:438-503 | started anywhere on an established path, with nothing but its own teardowns delivered, in any order: never more deliveries than other nodes, never stuck before, and at the end every node of the path has lost exactly the path's entry and nothing else changed |
| TeardownTraffic.RemovalTakesFirst | vrr_data.c:211-230 | a removal takes the newest entry of its route and leaves the entries of every other route |
| TeardownTraffic.TeardownAmidTraffic | vrr_input.c:438-503 | the same amid any other traffic that does not concern the route and no sweep that removes a neighbour on the path: never stuck, and at the end every node of the path has lost exactly one entry of the route, the path's, and no other node any |
| TeardownPath.InstalledIsEstablished | vrr_core.c:361-394 | a path that a setup installed can be torn down while its nodes hold their neighbours |
| TeardownPath.DestinationCopiesSurvive | vrr_data.c:335-338 | after that the copies under the destination still lead every node of the path to it |
| TeardownCascade.ReceiveDecreases | vrr_input.c:438-503 | each reception lowers entries plus packets, and the pair (entries, packets) lexicographically |
| TeardownCascade.CascadesAreBounded | vrr_input.c:438-503 | in every run the number of receptions is bounded by three times the entries plus the packets at its start, plus six for each setup started or received and one for each copy the channel makes |
| TeardownCascade.PureCascadeIsBounded | vrr_input.c:438-503 | when only teardowns are delivered, by the entries plus the packets |
| Lifecycle.FreshNodesLink | vrr_mod.c:194-199 | any two nodes of a freshly started network can run six rounds of crossing hellos that meet every hypothesis of the convergence theorem, and are linked |
| Lifecycle.ActivityIsTold | vrr_core.c:502 | from any reachable state: after a tick, its delivery and its handling the receiver's flag is what the sender is |
| Lifecycle.Meet | vrr_input.c:46-81 | any two nodes of a freshly started network become neighbours by one hello each way |
| Lifecycle.RoutesLiveAndDie | vrr_input.c:554-581 | they can then run a setup that meets every hypothesis of the route theorem, after which each is the other's next hop, and the path meets every hypothesis of the teardown theorem |
| Lifecycle.RelayedRoutesLiveAndDie | vrr_input.c:383-422 | any three nodes can meet in a row, and a setup through the middle one as proxy meets every hypothesis of the route theorem; the ends reach each other in two hops, and the path meets every hypothesis of the teardown theorems |
| Frames.EncodeFrame | vrr_core.c:216-263 | the frame is header and payload of the control packet, byte by byte |
| Frames.EncodeHello | vrr_core.c:484-547 | the frame is the broadcast header and the payload of the hello |
| Frames.SetupFrameIsDelivery | vrr_input.c:514-552 | a setup frame does to its receiver what the network's delivery of that setup does, also when its vset is too long |
| Frames.TeardownFrameIsDelivery | vrr_input.c:514-552 | the same for a teardown frame |
| Frames.HelloFrameIsDelivery | vrr_input.c:514-552 | the same for a hello frame, also when its lists are too long |
| Frames.OtherFrameIsDelivery | vrr_input.c:538-539 | a data, setup_req or setup_fail frame with any payload leaves the source's fail count and the active timeout at 0 and changes nothing else |
| Frames.UnknownFrameIsDropped | vrr_input.c:533-536 | a frame of an unknown type or without a whole header changes nothing |
| Frames.FrameHeaders | vrr_core.c:418-442 | type, payload length, source, destination and hardware address in the headers of setups and teardowns |
| Frames.HelloHeader | vrr_core.c:418-442 | the same for hellos, which are broadcast |
| Handlers.Router.SendSetup | vrr_core.c:216-263 | one encoded frame to the neighbour's address, nothing to a node outside the physical set |
| Handlers.Router.SendTeardown | vrr_core.c:311-359 | one encoded frame to the neighbour's address, nothing to a node outside the physical set |
| Handlers.Router.Forward | vrr_output.c:58-77 | the address of the next hop's neighbour entry, none when there is no hop or no neighbour |
| Handlers.Router.LocalRcvSetup | vrr_input.c:554-581 | the method on tree and list does what the network's step does |
| Handlers.Router.TearDownPath | vrr_core.c:361-394 | the method on tree and list does what the network's step does, with the ids of the virtual set if a sender is given |
| Handlers.Router.VrrAdd | vrr_core.c:647-670 | admits the source exactly if this node's virtual set wants it, and asks for paths to the wanted ids if there is a linked active neighbour |
| Handlers.AskedExactly | vrr_core.c:652-658 | paths are asked for exactly to the announced ids that are missing from the set, if there is a linked active neighbour |
| Handlers.SetupEffectExactly | vrr_input.c:424-431 | where a setup ends its source becomes a member exactly if it is missing, and paths are asked for; elsewhere the virtual set stays |
| Handlers.TeardownEffectExactly | vrr_input.c:493-501 | where a teardown ends the cut-off endpoint leaves the set, id 0 is offered and paths are asked for; elsewhere the set stays |
| Handlers.TeardownCutsOffItself | vrr_input.c:466-494 | a teardown along a path ends at the destination only, and cuts off the destination itself |
| Handlers.FramesHaveTheirEffect | vrr_input.c:514-552 | setup and teardown frames have the effect of the packets in them on the virtual set |
| Handlers.OtherFramesHaveNone | vrr_input.c:90-220 | data and hello frames, and what is no packet, leave the virtual set alone |
| Handlers.Router.PassSetup | vrr_input.c:383-431 | the method on tree, list and virtual set does what the network's step does with the answer of vrr_add, and states the new virtual set and the paths asked for |
| Handlers.Router.RcvSetup | vrr_input.c:343-436 | the same with the sender's lookup and the prologue |
| Handlers.Router.Tick | vrr_mod.c:194-199 | the method on list and arrays does what the network's step does, and its frame is the readable hello of the new state |
| Handlers.Router.RcvHello | vrr_input.c:115-220 | the method on the payload bytes does what the network's step does with the decoded hello |
| Handlers.Router.HandleRound | vrr_input.c:55-78 | the method on list and arrays does what the network's step does |
| Handlers.Router.RcvTeardown | vrr_input.c:438-503 | the method does what the network's step does; where the path ends, the cut-off endpoint leaves the virtual set and id 0 and the ids that came along are offered to it |
| Handlers.Router.RcvFrame | vrr_input.c:514-552 | dispatch on the bytes of a frame does what the network does with the packet in it, with the new virtual set and the paths asked for; unknown types are dropped before the prologue |

## Left out

- Socket family code (af_vrr.c), sysfs display, timers and module registration (vrr_mod.c): plumbing and I/O; only the order of the tick is kept.
- The device loop, cloning and transmission of `vrr_output`: a frame reaches the node that owns its destination address, or is lost.
- Spinlocks, allocation failure and memory release: handlers are atomic steps and allocation succeeds.
- Red-black colouring and the kernel's sort algorithm: any rearrangement that keeps the in-order sequence, and the sorted permutation.
- Tree nodes and list cells as heap pointers: the tree is a value in a mutable field and each route list a sequence, so aliasing between nodes is not captured.
- Payloads shorter than their sizes announce: the code then reads uninitialised memory; the decoders here reject them.
- `rt_search_exclude` as a true exclusion: its answer depends on the tree's shape; only the case without a node for the source is specified.
- Setup requests and setup failures in flight: a setup may start at any node for any destination, path id and proxy at any time, which includes every start that a request causes; their other effects on tables are none.
- The virtual set inside the network: whether a source is admitted at the end of a setup is a free choice there, so the theorems about runs hold for the intended and for the written virtual set alike; `Handlers` computes it.
- Setup requests that a virtual set causes: only the list of ids they ask for, because the proxy each goes to is chosen at random. Path ids are random too, hence parameters.
- VirtualSetTable.VsetTable.VrrAdd: does not model which proxy each request goes to, because the choice is random.
- VirtualSetTable.VsetTable.BumpOne: decrements the counter as intended; the counter as written is in `VsetAsWritten`.
- VirtualSet.BumpIsInfallible: is stated for a list without ME; `BumpWithMe` is the exact condition for one with it.
- NeighbourTable.Neighbours.StateUpdate: needs at most 20 neighbours per class, because the code writes past the ends of its arrays otherwise.
- NeighbourTable.Neighbours.HandleOne: the same for the list after the update.
- NeighbourTable.Neighbours.HandleUpdates: the same after each update of the queue.
- Handlers.Router.HandleRound: the same for the list after the update.
- Handlers.Router.SendSetup: needs a vset whose size is a 32-bit word, as its type in the code is.
- VsetAsWritten.CounterDrifts: says nothing about the size of the counter once ME is offered, because the eviction rule then often finds nobody and the counter stays right; `EvictionWithMe`, `OfferAsIntended` and `WantedAsWritten` cover ME.
- VsetAsWritten.OnesHideTheDrift: is stated without removals, because after one the admission test refuses nodes for which there is room.
- NeighbourTable.Neighbours.HasProxy: does not say which proxy is chosen, because the choice is random.
- HandshakeRuns.NetworkConverges: needs hellos in order, because a stale hello can keep the two apart (`StaleHelloCanCycle`).
- VirtualSet.EvictedIsUnwanted: is stated for a set without ME; `AgreementIsExact` covers sets with it.
- Frames.OtherFrameIsDelivery: of setup_req and setup_fail it covers the prologue of `vrr_rcv` only, not the forwarding, the setups they start and the ids they offer to the virtual set (vrr_input.c:222-341), because these packets are not part of the network here.
- Handlers.Router.RcvFrame: the same.
- Stubs and unreachable code: `rt_remove_nexts`, `set_vrr_id`, `rmv_vrr_header`, `pset_remove` (no caller), vrr_input.c:433-435.
