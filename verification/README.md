# Routing protocols, topology generation and graph algorithms of an ns-3 course project

A Dafny model of two distributed routing protocols, the Inet random topology
generator, and the smaller algorithms that stand beside them, with proofs of what
they are for.

| files | what they model |
|---|---|
| `Basics`, `Totals`, `Paths` | machine words, node names, links, facts about finite sets, sums and weights of counters, paths of a transition relation |
| `LsTable`, `LsProtocol`, `LsDijkstra`, `LsRoutes`, `LsNode`, `LsLookups` | one link-state router: LS table, neighbour table, routing table, its handlers and Dijkstra, that shortest routes exist, and when its lookups fail |
| `LsForwarding` | hop-by-hop forwarding by link-state tables |
| `LsNetwork`, `LsHandlers`, `LsInvariants`, `LsHeard`, `LsAgreement`, `LsConvergence`, `LsDiscovery` | a network of such routers flooding advertisements, whose steps are what the handlers do |
| `DvProtocol`, `DvNode` | one distance-vector router: vector, neighbour vectors, routes, its handlers and Bellman-Ford |
| `DvNetwork`, `DvHandlers`, `DvSafety`, `DvHeard`, `DvConvergence`, `DvExchange`, `DvDiscovery`, `DvExpiry`, `DvReturn`, `DvPoison`, `DvLastSent` | asynchronous networks of such routers over FIFO links, whose steps are what the handlers do |
| `TopologyGraph`, `Topology` | the Inet generator's three attachment phases and its output |
| `Topsort`, `TopsortLevels`, `Cycles` | Kahn's sorting, levels, and the enumeration of simple cycles |
| `LibjRandom` | split-word multiplicative generators |
| `Codec` | the wire format of the LS and DV messages |

Routers, the topology builder, messages and buffer iterators are classes whose
methods update their fields as the original's do. Each handler is proved to take the
router from one state to the next as a function of the old state says (`Heard`,
`Received`, `Audited`, `Recomputed` and so on). The networks are state machines over
those functions; `LsHandlers` and `DvHandlers` call the handlers on a router of a network
and prove that each goes to the state, and puts on the links the messages, of a step.

## How the model reads the source

- Node names, node numbers and main addresses stand in bijection and are one
  `NodeId`. Interface addresses are kept where a handler stores or looks them up.
- `std::map` and Python dictionaries are visited in an arbitrary order; every result
  holds for each order. The exception is `GetMinCostNode`, where the order of the keys
  decides between entries of equal cost: there `NodeId`s are ordered as names are.
- Message delivery, clock values and timeouts are parameters of the handlers.
- Some lookups go past the end of a map and use what is there. The methods of the model
  then fail (`ok` is false) and say nothing more. In `Dijkstra` these are the neighbour
  record of an own link (line 931 of ls-routing-protocol.cc), the own flag (938), the
  flag of a routed node (878), and the flag of the empty name that `GetMinCostNode`
  returns when nothing is left, which line 944 even writes. `LookupsSucceed` is the exact
  condition for positive costs, which are the only ones the handlers send; with costs of
  0 `Decides` states conditions that are sufficient and others that are necessary. The
  handlers do not establish it: `EarlyAdvertisement`, `SecondNeighbor`, `StaleOwnVector`
  and `OnlyNeighborLost` are inputs on which a lookup fails, and the other lemmas of
  `LsLookups` say for each handler exactly when names keep their entries and links their
  records. `SettledLookups` shows that all lookups succeed in a quiet, connected network.
- A run of the network goes on after a failed lookup with arbitrary routes, as if the
  rest of the handler had run. What is proved of runs so holds whatever the lookup found,
  as long as it did no other damage.
- The own LS entry first carries the number of the hello that created it, and a
  router accepts its own flooded message if that is newer, so the own entry may hold
  an older vector for a while. `HeardKeepsAgreement` and `AuditKeepsAgreement` are
  about the handlers; `OwnEntryAgreement` shows that all is well again once nothing is
  in flight.
- Costs are 32-bit words and `Dijkstra` adds them with wrap-around. `CostsFit` is the
  guard under which no sum can wrap, and under which success and routes are decided
  (`Computed`); `BoundIsSharp` is an input just beyond it. In a settled network it holds.
- The TTL is decremented, wraps at 0 and is never tested, so nothing relies on it.
- The sequence counter wraps at 32 bits in the handlers. The network theorems speak
  about runs in which it does not (`Room`).
- An audit that removes a link-state neighbour without an entry, or a distance-vector
  neighbour without a cost, also goes past the end of a map; `AuditHellos` then fails, and
  runs have no such step (`Enabled`, `Handles`).
- A neighbour that sends a vector before its hello gets a record but no cost, and
  nothing is routed through it (lines 633-644 of dv-routing-protocol.cc). Safety
  holds regardless; convergence assumes that hellos come first (`Orderly`).
- `m_dv.insert` does not overwrite a known distance, and distances above 16 do not
  overwrite older ones (lines 824-830). Both are in the model. `OrderlyRunsConverge`
  and `ExchangeEnds` are about runs in which no neighbour expires. `ExpiryBreaksConvergence`
  is a run that expires one and ends quietly without a route between two linked routers.
  What a dropped neighbour needs to be at its true distance again is that its vector
  arrives, which its hello does not bring about: `ExactAfterItsVector` is that condition.
  `ReturnedNeighbor` says when some finite distance is held in the meantime.
- Poisoned reverse is applied to what is sent, and a vector is sent only when a distance
  changed. A neighbour may therefore keep a vector that was sent before the route back
  existed: `PoisonNeedNotArrive` is such a run, and `PoisonArrives` says when the poisoned
  entry is there.
- In `connect_nodes` at least two nodes have degree 2 or more and at least one has
  degree 1 (`Spreadable`): otherwise the code reads outside its arrays or asks for no
  candidate. A list that `is_graph_connectable` refuses is only warned about, and then
  phase 2 draws from nothing, which is a failure. The weights are any positive integers
  and the random draw is any candidate.
- A comment in topsort.py (lines 108-109) says that each leftover element has a child.
  `ChildlessLeftover` is an input where one has none, `LeftoverHasChildren` says exactly
  when all have. What always holds is that each has a leftover parent.
- For the generators' nonnegative words, masks and shifts are remainders and
  quotients by powers of two.
- Assertions of the buffer iterator and on the message type end `Deserialize` with no
  result. `ns-3/cs433/dv-routing-protocol/dv-message.cc:114-171` and `:346-385` have
  the same format as the cited link-state file, so one `Codec` stands for both.

## Model

| member | source | states |
|---|---|---|
| `LsNode.LsRouter.Dijkstra` | `ns-3/cs433/ls-routing-protocol/ls-routing-protocol.cc:893-997` | Fails when a lookup goes past the end of a map (lines 878, 931, 938, 944). While all costs sum below the integer maximum: with positive costs failure is decided exactly - it succeeds if and only if there is an own entry, each own link has a neighbour record and, unless the own entry is the only one, every node of the table is reached and only the farthest one names nodes without an entry. If it succeeds, the keys of the routing table are exactly the reachable nodes, each at the cost of a cheapest walk, with a next hop that is the first step of a cheapest walk and a live neighbour, at that neighbour's interface; the own route points at the router itself. For larger costs, whose sums wrap around: success still means that every node of the table is reached and has a route below the integer maximum, and every route goes along some walk, leaves through a live neighbour and carries the cost of that walk modulo 2^32. |
| `LsNode.LsRouter.SettleAll` | `ns-3/cs433/ls-routing-protocol/ls-routing-protocol.cc:940-994` | The loop either settles every node of the table with its invariants intact, or fails, when the costs fit, on a table on which it has to fail. |
| `LsNode.LsRouter.Choose` | `ns-3/cs433/ls-routing-protocol/ls-routing-protocol.cc:941-944` | The nearest open node below the integer maximum comes next, by name among equals, and then all routed nodes have entries. A lookup of line 878 or 944 that fails had to fail when the costs fit. |
| `LsNode.LsRouter.Round` | `ns-3/cs433/ls-routing-protocol/ls-routing-protocol.cc:943-992` | One round keeps what is known whatever the costs - a walk behind each route, own names routed, settled costs below the integer maximum - and, when sums are exact, tight links of settled nodes and the order in which nodes are settled. |
| `LsNode.LsRouter.Settle` | `ns-3/cs433/ls-routing-protocol/ls-routing-protocol.cc:943-992` | Relaxing the links of a nearest open node only adds routes or makes them cheaper, whatever the costs; when sums are exact, every settled node stays tight, with one more node settled. |
| `LsNode.LsRouter.RelaxFrom` | `ns-3/cs433/ls-routing-protocol/ls-routing-protocol.cc:946-989` | Relaxing all links of the chosen node: a walk backs every entry. When sums are exact, entries already settled are not changed although the loop does not skip them, and every link of the node is then tight. |
| `LsNode.LsRouter.RelaxEdge` | `ns-3/cs433/ls-routing-protocol/ls-routing-protocol.cc:956-988` | An entry is replaced exactly when the sum for the way through the chosen node, wrapped around at 32 bits, is strictly below its cost, or below the integer maximum if it is absent; the new next hop is the one used for the chosen node, and a walk still backs every entry. |
| `LsNode.LsRouter.StartFromNeighbors` | `ns-3/cs433/ls-routing-protocol/ls-routing-protocol.cc:896-936` | Fails exactly when some own link has no neighbour record; otherwise the initial table has the router itself at cost 0 and every named neighbour at its first listed cost, each backed by a one-link walk. |
| `LsNode.LsRouter.GetMinCostNode` | `ns-3/cs433/ls-routing-protocol/ls-routing-protocol.cc:868-891` | Fails exactly when a routed node has no flag; otherwise the cheapest open entry below the integer maximum, the first by name among equals, and none exactly when there is no such entry. |
| `LsNode.LsRouter.DistanceToNeighbor` | `ns-3/cs433/ls-routing-protocol/ls-routing-protocol.cc:850-866` | Zero to itself, the cost of the first pair naming the neighbour, and the integer maximum when no pair does. |
| `LsNode.LsRouter.GetNeighbors` | `ns-3/cs433/ls-routing-protocol/ls-routing-protocol.cc:833-848` | The addresses of the LS entry in order; none when there is no entry. |
| `LsNode.LsRouter.SearchTable` | `ns-3/cs433/ls-routing-protocol/ls-routing-protocol.cc:999-1010` | After Dijkstra has run on the present tables, a route is found for exactly the nodes that can be reached, at their distance, and follows a cheapest walk. |
| `LsNode.LsRouter.RouteInput` | `ns-3/cs433/ls-routing-protocol/ls-routing-protocol.cc:265-281` | A packet for another router is forwarded exactly when its destination can be reached, on a cheapest walk, to a live neighbour over the interface that neighbour was heard on. |
| `LsNode.LsRouter.GetNextSequenceNumber` | `ns-3/cs433/ls-routing-protocol/ls-routing-protocol.cc:1012-1016` | Returns the counter and advances it, wrapping at 32 bits. |
| `LsNode.LsRouter.SendLSTableMessage` | `ns-3/cs433/ls-routing-protocol/ls-routing-protocol.cc:389-408` | The vector sent names exactly the keys of the neighbour table, each once at cost 1, under a fresh number with the maximal TTL. |
| `LsNode.LsRouter.ProcessHelloReq` | `ns-3/cs433/ls-routing-protocol/ls-routing-protocol.cc:562-616` | Afterwards the sender is in the neighbour table as heard now, at the given interface if it is new and at its old one otherwise, and every other record is as before. A new sender also enters the own entry at cost 1, the routes are recomputed as by Dijkstra and one advertisement goes out, unless a lookup of the computation fails. The whole new state is stated. |
| `LsNode.LsRouter.ProcessLSTableMessage` | `ns-3/cs433/ls-routing-protocol/ls-routing-protocol.cc:667-707` | The entry is replaced exactly when the number is strictly newer or the originator is unknown; the message is then repeated with TTL (ttl + 255) mod 256 unless a lookup fails; otherwise nothing changes. |
| `LsNode.LsRouter.AuditHellos` | `ns-3/cs433/ls-routing-protocol/ls-routing-protocol.cc:749-794` | Afterwards exactly the neighbours heard within the timeout remain, with their records; the links between the router and each dropped neighbour leave both entries once, and every other link keeps its cost. The old counter value goes out in a hello, and an advertisement under the next one follows exactly when a neighbour expired. Fails exactly when an entry to be changed is missing or a lookup of the computation fails. |
| `LsNode.LsRouter.SendHello` | `ns-3/cs433/ls-routing-protocol/ls-routing-protocol.cc:371-387` | A hello carries the old counter value, which is spent. |
| `LsHandlers.HearHello` | `ns-3/cs433/ls-routing-protocol/ls-routing-protocol.cc:562-616` | Called on a router of the network, the handler goes to the state and sends the message that the delivery of the hello has in the network, and that delivery is a possible action there. |
| `LsHandlers.TakeTable` | `ns-3/cs433/ls-routing-protocol/ls-routing-protocol.cc:667-707` | The same for the delivery of an advertisement. |
| `LsHandlers.AuditNeighbors` | `ns-3/cs433/ls-routing-protocol/ls-routing-protocol.cc:749-794` | The same for an audit, with the hello and the advertisement it sends. |
| `LsHandlers.SayHello` | `ns-3/cs433/ls-routing-protocol/ls-routing-protocol.cc:371-387` | The same for a hello. |
| `LsHandlers.SayTable` | `ns-3/cs433/ls-routing-protocol/ls-routing-protocol.cc:389-408` | The same for an advertisement. |
| `LsNode.LsRouter.DropNeighbor` | `ns-3/cs433/ls-routing-protocol/ls-routing-protocol.cc:764-787` | One expired neighbour: its link leaves the own entry, ours leaves its entry, and it leaves the neighbour table; fails exactly when one of the two entries is missing. |
| `LsNode.LsRouter.DropExpired` | `ns-3/cs433/ls-routing-protocol/ls-routing-protocol.cc:756-787` | The loop over the neighbour table removes the expired neighbours and no others, whatever the order, and fails exactly when one of their entries or the own one is missing. |
| `LsNode.LsRouter.constructor` | `ns-3/cs433/ls-routing-protocol/ls-routing-protocol.cc:68-77` | Empty tables. |
| `LsProtocol.HeardKeepsAgreement` | `ns-3/cs433/ls-routing-protocol/ls-routing-protocol.cc:583-611` | A hello keeps the own LS entry naming exactly the neighbour table's keys, without duplicates. |
| `LsProtocol.AuditKeepsAgreement` | `ns-3/cs433/ls-routing-protocol/ls-routing-protocol.cc:757-787` | So does an audit. |
| `LsProtocol.WithoutNames` | `ns-3/cs433/ls-routing-protocol/ls-routing-protocol.cc:796-804` | Removing a link drops that name and no other from a vector without duplicates. |
| `LsProtocol.WithoutOneMore` | `ns-3/cs433/ls-routing-protocol/ls-routing-protocol.cc:796-804` | Removing links one at a time removes the whole set, in any order. |
| `LsDijkstra.NoBetterWalk` | `ns-3/cs433/ls-routing-protocol/ls-routing-protocol.cc:940-990` | Once every link out of a listed node is tight, no walk is cheaper than the listed cost. |
| `LsDijkstra.TableIsShortest` | `ns-3/cs433/ls-routing-protocol/ls-routing-protocol.cc:893-997` | Tight links and a walk behind each entry make the table exactly the shortest-path table. |
| `LsDijkstra.StuckOnName` | `ns-3/cs433/ls-routing-protocol/ls-routing-protocol.cc:869-885` | A routed node without an entry, while nodes are left to settle, means that the table is one on which the computation has to fail. |
| `LsDijkstra.StuckOnNothing` | `ns-3/cs433/ls-routing-protocol/ls-routing-protocol.cc:943-944` | No open entry, while nodes are left to settle, means that some node of the table cannot be reached, and so that the computation has to fail. |
| `LsDijkstra.NotStuck` | `ns-3/cs433/ls-routing-protocol/ls-routing-protocol.cc:940-994` | Settling every node means that every lookup had to succeed. |
| `LsDijkstra.WalkBound` | `ns-3/cs433/ls-routing-protocol/ls-routing-protocol.cc:940-994` | While the search is under way, a walk to a settled node costs at least what the table says, and one to any other node comes later than every settled node. |
| `LsLookups.ReceivedIsClosed` | `ns-3/cs433/ls-routing-protocol/ls-routing-protocol.cc:678-690` | After an accepted advertisement every named node has an entry exactly when all names, the new ones and those of the other entries, had one or are the originator. |
| `LsLookups.ReceivedIsLinked` | `ns-3/cs433/ls-routing-protocol/ls-routing-protocol.cc:678-690` | Each own link then has a neighbour record exactly when it had one or, for an own message, when each name in it has one. |
| `LsLookups.HeardIsClosed` | `ns-3/cs433/ls-routing-protocol/ls-routing-protocol.cc:588-607` | The same two conditions after a new neighbour was heard. |
| `LsLookups.AuditedIsClosed` | `ns-3/cs433/ls-routing-protocol/ls-routing-protocol.cc:757-784` | An audit leaves every named node with an entry exactly when that was so before. |
| `LsLookups.AuditedIsLinked` | `ns-3/cs433/ls-routing-protocol/ls-routing-protocol.cc:757-784` | After an audit each own link has a neighbour record exactly when no expired neighbour was named a second time in the own entry and all other names had a record. |
| `LsLookups.MustFail` | `ns-3/cs433/ls-routing-protocol/ls-routing-protocol.cc:940-944` | The computation fails, whatever the costs, if the router itself names a node without an entry or does not reach some entry, and has other entries. |
| `LsLookups.EarlyAdvertisement` | `ns-3/cs433/ls-routing-protocol/ls-routing-protocol.cc:869-891` | After two neighbours were heard all lookups succeed; after the first advertisement, whatever it names, a lookup fails. |
| `LsLookups.SecondNeighbor` | `ns-3/cs433/ls-routing-protocol/ls-routing-protocol.cc:588-611` | A router that holds exactly its own entry and that of one neighbour fails when it hears a second neighbour, from which it has no entry yet. |
| `LsLookups.StaleOwnVector` | `ns-3/cs433/ls-routing-protocol/ls-routing-protocol.cc:928-935` | A router that accepts an older vector of its own fails if it names a neighbour dropped since. |
| `LsLookups.OnlyNeighborLost` | `ns-3/cs433/ls-routing-protocol/ls-routing-protocol.cc:757-787` | A router that drops its only neighbour fails, because it keeps the entry of a node it no longer reaches. |
| `LsLookups.NoDistantEntry` | `ns-3/cs433/ls-routing-protocol/ls-routing-protocol.cc:868-891` | Whatever the costs, a run that succeeds with shortest routes has every entry nearer than the integer maximum. |
| `LsLookups.BoundIsSharp` | `ns-3/cs433/ls-routing-protocol/ls-routing-protocol.cc:868-945` | The bound on the sum of all costs cannot be raised: two routers and one link of cost 2^31 - 1, where everything is reached and every name has an entry, and yet line 944 goes past the end. |
| `LsDijkstra.ComputedRoutesAreOk` | `ns-3/cs433/ls-routing-protocol/ls-routing-protocol.cc:893-997` | What Dijkstra delivers is what the network assumes of the routes after each action. |
| `LsDijkstra.AllSettled` | `ns-3/cs433/ls-routing-protocol/ls-routing-protocol.cc:940-945` | Both ways out of the loop leave every link tight. |
| `LsForwarding.RouteMeaning` | `ns-3/cs433/ls-routing-protocol/ls-routing-protocol.cc:265-281` | Under a common graph, a router's entries are the reachable destinations at true distance, with a first step of a cheapest walk as next hop. |
| `LsForwarding.NextHopIsNearer` | `ns-3/cs433/ls-routing-protocol/ls-routing-protocol.cc:265-281` | The next hop is a neighbour, has a route itself, and its remaining cost is smaller by exactly the link just used. |
| `LsForwarding.ForwardingFollowsTables` | `ns-3/cs433/ls-routing-protocol/ls-routing-protocol.cc:265-281` | Each hop of a forwarded packet is the one the table of the router it is at names. |
| `LsForwarding.ForwardingArrives` | `ns-3/cs433/ls-routing-protocol/ls-routing-protocol.cc:265-281` | Forwarding ends at the destination after a walk that costs exactly what the first router's table says. |
| `LsForwarding.ForwardingIsLoopFree` | `ns-3/cs433/ls-routing-protocol/ls-routing-protocol.cc:265-281` | No router forwards the same packet twice. |
| `LsNetwork.RoutesStayOk` | `ns-3/cs433/ls-routing-protocol/ls-routing-protocol.cc:588-592` | Refreshing a neighbour or advancing the counter leaves the routes valid. |
| `LsInvariants.StepKeepsInv` | `ns-3/cs433/ls-routing-protocol/ls-routing-protocol.cc:389-1016` | Every action of the network - hello, ping, advertisement, deliveries, audit - keeps the network invariant, including: along each link the far end is at least as new, or a message at least as new is in flight on it; and routes that are shortest for the present tables whenever the last lookups succeeded. |
| `LsInvariants.InitialInv` | `ns-3/cs433/ls-routing-protocol/ls-routing-protocol.cc:68-77` | It holds when nobody has heard or sent anything. |
| `LsInvariants.RunKeepsInv` | `ns-3/cs433/ls-routing-protocol/ls-routing-protocol.cc:389-1016` | The invariant holds after every run. |
| `LsInvariants.QuietRunKeepsInv` | `ns-3/cs433/ls-routing-protocol/ls-routing-protocol.cc:389-1016` | Without expiring neighbours, entries stay untrimmed as well. |
| `LsInvariants.LinksKept` | `ns-3/cs433/ls-routing-protocol/ls-routing-protocol.cc:668-707` | The per-link flooding invariant survives each action. |
| `LsNetwork.ActionIsSound` | `ns-3/cs433/ls-routing-protocol/ls-routing-protocol.cc:389-804` | Each handler's effect meets what the invariant needs: numbers only grow, what is repeated is what was stored, own advertisements are the newest. |
| `LsNetwork.TrimsFurther` | `ns-3/cs433/ls-routing-protocol/ls-routing-protocol.cc:765-773` | An audit removing one more link leaves an entry a trimmed copy of what was sent. |
| `LsAgreement.EntriesAreAuthentic` | `ns-3/cs433/ls-routing-protocol/ls-routing-protocol.cc:668-804` | In every reachable state, audits included, an entry for another router is the vector that router sent under the stored number, less some links to the holder. |
| `LsAgreement.NumbersNeverDecrease` | `ns-3/cs433/ls-routing-protocol/ls-routing-protocol.cc:678-686` | Over any run a stored number never decreases and an entry is never lost. |
| `LsAgreement.RepeatsAtMostOnce` | `ns-3/cs433/ls-routing-protocol/ls-routing-protocol.cc:678-706` | After a router has repeated a message it never repeats one of the same originator and an equal or smaller number, whatever the TTL. |
| `LsAgreement.NewestSpreads` | `ns-3/cs433/ls-routing-protocol/ls-routing-protocol.cc:668-707` | With nothing in flight, every router along a path of links away from an originator holds at least its newest number. |
| `LsAgreement.FloodingAgreement` | `ns-3/cs433/ls-routing-protocol/ls-routing-protocol.cc:389-408` | With nothing in flight, every router connected to an originator holds its newest advertisement (exactly that vector if no neighbour ever expired, otherwise less some links to the holder), and no entry if it never advertised. |
| `LsAgreement.OwnEntryAgreement` | `ns-3/cs433/ls-routing-protocol/ls-routing-protocol.cc:583-611` | With nothing in flight, the own entry of a router with a link names exactly its neighbours, although its own flooded messages may have overwritten it. |
| `LsAgreement.DeliverySpends` | `ns-3/cs433/ls-routing-protocol/ls-routing-protocol.cc:668-707` | Every delivery decreases the number of messages in flight plus the number of routers times the pending newer advertisements. |
| `LsAgreement.FloodingEnds` | `ns-3/cs433/ls-routing-protocol/ls-routing-protocol.cc:678-706` | Without new advertisements at most that many deliveries can happen: flooding terminates independently of TTL. |
| `LsConvergence.TableIsNetwork` | `ns-3/cs433/ls-routing-protocol/ls-routing-protocol.cc:389-408` | In a quiet connected network each LS table is exactly the graph of links, at cost 1. |
| `LsConvergence.SettledLookups` | `ns-3/cs433/ls-routing-protocol/ls-routing-protocol.cc:893-997` | There every lookup of the shortest-path computation finds its entry, and the costs cannot overflow. |
| `LsConvergence.SettledRoutes` | `ns-3/cs433/ls-routing-protocol/ls-routing-protocol.cc:893-997` | There every router holds shortest routes over its present tables, from whatever step it last computed them in. |
| `LsConvergence.SettledNetworkDelivers` | `ns-3/cs433/ls-routing-protocol/ls-routing-protocol.cc:265-281` | There every router has a route to every other, and forwarding reaches it without loops over a path of links no longer than any other. |
| `LsConvergence.QuietRunDelivers` | `ns-3/cs433/ls-routing-protocol/ls-routing-protocol.cc:389-1010` | All of it on runs: in every state of every run from the start without expiring neighbours in which nothing is in flight and all hellos were heard, every router holds exactly the newest vector of every other, its own entry names its neighbours, and every packet is delivered over the fewest links. |
| `LsDiscovery.EveryNetworkDelivers` | `ns-3/cs433/ls-routing-protocol/ls-routing-protocol.cc:371-1010` | Such runs exist: every connected network whose counters leave room for two numbers a link has a run from its start, without expiry, that ends with all hellos heard and nothing in flight, and there every router delivers to every other over the fewest links. |
| `LsDiscovery.HellosAreConserved` | `ns-3/cs433/ls-routing-protocol/ls-routing-protocol.cc:371-387` | The copies of each hello: one more on each link of a router that spends the number on a hello or an audit, one less when it is heard, and no other change. |
| `LsDiscovery.FlightsAreConserved` | `ns-3/cs433/ls-routing-protocol/ls-routing-protocol.cc:389-408` | The copies of each advertisement: one more on each link of the router that sends or repeats it, one less when it is delivered, and no other change. |
| `LsRoutes.ShortestRoutesExist` | `ns-3/cs433/ls-routing-protocol/ls-routing-protocol.cc:893-997` | A shortest-path table exists for every LS table whose costs fit and whose own links have records. |
| `LsHeard.TableIsHeard` | `ns-3/cs433/ls-routing-protocol/ls-routing-protocol.cc:583-586` | On every run, audits included, a router is in the neighbour table exactly when its last hello was in time for every audit since, and its record carries the time of that hello. |
| `LsHeard.HeardNeighborStays` | `ns-3/cs433/ls-routing-protocol/ls-routing-protocol.cc:757-787` | With a clock that never goes back and one timeout: a neighbour whose hello was heard at time h is in the table after every audit at a time before h plus the timeout. |
| `DvNode.DvRouter.BellmanFord` | `ns-3/cs433/dv-routing-protocol/dv-routing-protocol.cc:740-853` | The new vector, routes and the decision to advertise are those of the closed form: each destination at the least saturating offer when that is at most 16, else unchanged; a route with an attaining next hop exactly below 16 (and to itself, over loopback). |
| `DvNode.DvRouter.BestOffer` | `ns-3/cs433/dv-routing-protocol/dv-routing-protocol.cc:785-822` | The inner loop finds the least saturating sum over the direct neighbours that list the destination, and a neighbour attaining it. |
| `DvNode.DvRouter.RecomputeDest` | `ns-3/cs433/dv-routing-protocol/dv-routing-protocol.cc:824-843` | One destination: install below 16, overwrite up to 16, keep the old value above; advertise on a change. |
| `DvNode.DvRouter.RecomputeAll` | `ns-3/cs433/dv-routing-protocol/dv-routing-protocol.cc:768-845` | The loop over the vector recomputes every destination once, in any order. |
| `DvNode.DvRouter.LearnNames` | `ns-3/cs433/dv-routing-protocol/dv-routing-protocol.cc:741-766` | Unknown destinations enter the vector as unreachable; known ones keep their value. Called with the router's own vector it changes nothing. |
| `DvNode.DvRouter.VectorFor` | `ns-3/cs433/dv-routing-protocol/dv-routing-protocol.cc:398-416` | The vector for a neighbour n keeps every distance held to another router; its entry for n is M_INF when the route to n leads to n, and the distance held otherwise. |
| `DvNode.DvRouter.SendDVTableMessage` | `ns-3/cs433/dv-routing-protocol/dv-routing-protocol.cc:383-424` | Each neighbour with a cost, and nobody else, is sent its own vector: all distances held, with the receiver itself at M_INF exactly when it is held at M_INF or the route to it leads there. |
| `DvHandlers.HearHello` | `ns-3/cs433/dv-routing-protocol/dv-routing-protocol.cc:565-611` | Called on a router of the network, the handler has the effect that the delivery of the hello has in the network, and what its calls send on each link, in their order, is what that effect puts there. |
| `DvHandlers.TakeTable` | `ns-3/cs433/dv-routing-protocol/dv-routing-protocol.cc:614-658` | The same for the delivery of a vector. |
| `DvHandlers.AuditNeighbors` | `ns-3/cs433/dv-routing-protocol/dv-routing-protocol.cc:701-738` | The same for an audit and its hello; it fails exactly when an expired neighbour has no cost. |
| `DvNode.DvRouter.ProcessHelloReq` | `ns-3/cs433/dv-routing-protocol/dv-routing-protocol.cc:565-611` | Afterwards the sender is in the neighbour table as heard now, at the given interface and with an empty vector if it is new, otherwise as it was; every other record is as before. A new sender enters the costs at 1 without overwriting, and the distances as well, all is recomputed, and the vector goes out once or twice. |
| `DvNode.DvRouter.ProcessDVTableMessage` | `ns-3/cs433/dv-routing-protocol/dv-routing-protocol.cc:614-658` | The sender's vector is replaced and the rest of its record kept; a record with the given interface and time, but no cost, is made for an unknown sender. Then all is recomputed. |
| `DvNode.DvRouter.AuditHellos` | `ns-3/cs433/dv-routing-protocol/dv-routing-protocol.cc:701-738` | Exactly the neighbours heard within the timeout remain, with their records and costs; the others become unreachable before the recomputation. A hello goes out in any case. Fails exactly when an expired neighbour has no cost, whose entry is then erased past the end of the map. |
| `DvNode.DvRouter.DropExpired` | `ns-3/cs433/dv-routing-protocol/dv-routing-protocol.cc:708-731` | The loop forgets the expired neighbours and no others, and fails exactly when one of them has no cost. |
| `DvNode.DvRouter.EnterNeighbor` | `ns-3/cs433/dv-routing-protocol/dv-routing-protocol.cc:594-607` | The three inserts for a new neighbour. |
| `DvNode.DvRouter.constructor` | `ns-3/cs433/dv-routing-protocol/dv-routing-protocol.cc:150-180` | A router starts knowing itself at distance 0. |
| `DvProtocol.MinCost` | `ns-3/cs433/dv-routing-protocol/dv-routing-protocol.cc:785-822` | The least offer exists and is either attained by a neighbour or infinite. |
| `DvProtocol.RecomputedInNumbers` | `ns-3/cs433/dv-routing-protocol/dv-routing-protocol.cc:824-843` | A least offer of at most 16 is taken, a larger one leaves the distance held before; a route, at that offer and over the interface of its next hop, exists exactly below 16; the own route is over 127.0.0.1 at cost 0. |
| `DvProtocol.MinCostInNumbers` | `ns-3/cs433/dv-routing-protocol/dv-routing-protocol.cc:785-822` | The least offer is at most cost plus distance for every neighbour where that sum stays below 2^31 - 1, and at most the distance where it does not. |
| `DvNetwork.OffersAreHonest` | `ns-3/cs433/dv-routing-protocol/dv-routing-protocol.cc:785-830` | A least offer of at most 16 is the length of a real walk of links. |
| `DvNetwork.RecomputedIsHonest` | `ns-3/cs433/dv-routing-protocol/dv-routing-protocol.cc:740-853` | Recomputing keeps every finite distance the length of a real walk. |
| `DvNetwork.StepIsSafe` | `ns-3/cs433/dv-routing-protocol/dv-routing-protocol.cc:383-853` | Every step - new link, hello, vector, audit - keeps every finite distance held, stored for a neighbour or in flight an upper bound on the true distance, and at most 16. |
| `DvSafety.RunIsSafe` | `ns-3/cs433/dv-routing-protocol/dv-routing-protocol.cc:383-853` | So it holds in every state of every run in which links are only added. |
| `DvSafety.DistancesAreUpperBounds` | `ns-3/cs433/dv-routing-protocol/dv-routing-protocol.cc:383-853` | In each such state a finite distance that is held, stored for a neighbour or in flight is at most 16 and the length of a real walk, hence an upper bound on the true distance. |
| `DvConvergence.StepKeepsLive` | `ns-3/cs433/dv-routing-protocol/dv-routing-protocol.cc:382-853` | In orderly runs every router's vector is what its neighbours last offered, and the last vector on each link mirrors the sender's. |
| `DvConvergence.RunIsLive` | `ns-3/cs433/dv-routing-protocol/dv-routing-protocol.cc:382-853` | So it is in every state of such a run. |
| `DvConvergence.DistancesConverge` | `ns-3/cs433/dv-routing-protocol/dv-routing-protocol.cc:740-853` | With no vector in flight and all hellos heard, a value k up to 16 is held exactly when the true distance is k, and infinity exactly when the destination is farther than 16 links. |
| `DvConvergence.RoutesConverge` | `ns-3/cs433/dv-routing-protocol/dv-routing-protocol.cc:824-843` | A route exists exactly for a true distance below 16. |
| `DvConvergence.RoutesPointNearer` | `ns-3/cs433/dv-routing-protocol/dv-routing-protocol.cc:824-843` | Its next hop is a linked router one hop nearer. |
| `DvConvergence.Forward` | `ns-3/cs433/dv-routing-protocol/dv-routing-protocol.cc:855-866` | Following the tables hop by hop reaches the destination over links, in as many hops as the first table says. |
| `DvConvergence.DistanceLeft` | `ns-3/cs433/dv-routing-protocol/dv-routing-protocol.cc:855-866` | The true distance falls by one with each hop. |
| `DvConvergence.ForwardingIsLoopFree` | `ns-3/cs433/dv-routing-protocol/dv-routing-protocol.cc:855-866` | No router is visited twice. |
| `DvConvergence.OrderlyRunsConverge` | `ns-3/cs433/dv-routing-protocol/dv-routing-protocol.cc:382-866` | All of it on runs: in every quiet state of every orderly run distances up to 16 are exact and all others infinite, routes exist exactly below 16 and lead to a linked router one nearer, and forwarding arrives without a loop in as many hops as the route says. |
| `DvDiscovery.EveryNetworkConverges` | `ns-3/cs433/dv-routing-protocol/dv-routing-protocol.cc:370-853` | Such runs exist: every network has an orderly run from its start that ends with every hello heard and no message in flight, and there every distance up to 16 is the true one. |
| `DvHeard.TableIsHeard` | `ns-3/cs433/dv-routing-protocol/dv-routing-protocol.cc:565-731` | On every run a router is in the neighbour table exactly when its last hello, or the vector that made its record, was in time for every audit since, and the record carries the time of that. |
| `DvConvergence.NeighborMakesExact` | `ns-3/cs433/dv-routing-protocol/dv-routing-protocol.cc:785-830` | A router is exact once its next router on a shortest walk is. |
| `DvExpiry.ReturnedNeighbor` | `ns-3/cs433/dv-routing-protocol/dv-routing-protocol.cc:594-607` | When an audit drops a neighbour that is heard again next, a finite distance to it is held exactly when a neighbour that was kept offers at most 16, and a route exactly when one offers less. |
| `DvExpiry.ExpiryBreaksConvergence` | `ns-3/cs433/dv-routing-protocol/dv-routing-protocol.cc:566-738` | An expiry can end convergence: a run of two linked routers, with a clock that never goes back, one timeout and hellos before vectors, in whose last state nothing is in flight and all hellos were heard, but one router has neither a distance nor a route to the other. |
| `DvReturn.ExactAfterItsVector` | `ns-3/cs433/dv-routing-protocol/dv-routing-protocol.cc:566-738` | On every run: after an audit of a router dropped a neighbour, and until it drops it again, its distance to that neighbour is exact if and only if a vector of the neighbour was received since, at a moment when the neighbour had a cost again. Its hello alone, or what others offer, never makes it exact. |
| `DvReturn.DropLeadsAstray` | `ns-3/cs433/dv-routing-protocol/dv-routing-protocol.cc:701-731` | An audit that drops a linked neighbour leaves a distance to it that is not the true one. |
| `DvReturn.StepKeepsBoth` | `ns-3/cs433/dv-routing-protocol/dv-routing-protocol.cc:383-853` | Until the neighbour is dropped, only its own vector changes whether the distance to it is exact. |
| `DvReturn.LearningRestores` | `ns-3/cs433/dv-routing-protocol/dv-routing-protocol.cc:614-658` | A vector from a neighbour with a cost makes the distance to it 1 and routes to it directly. |
| `DvExchange.ExchangeEnds` | `ns-3/cs433/dv-routing-protocol/dv-routing-protocol.cc:383-853` | From every state of an orderly run on, while no link is new, no neighbour expires and no router is heard for the first time, the number of vectors delivered is at most a number computed from that state: the exchange of vectors ends, although distances may rise on the way. |
| `DvExchange.DeliverySpends` | `ns-3/cs433/dv-routing-protocol/dv-routing-protocol.cc:614-658` | Each vector taken, with the recomputation and all vectors sent in answer to it, lowers that number. |
| `DvExchange.LevelKept` | `ns-3/cs433/dv-routing-protocol/dv-routing-protocol.cc:785-843` | While the offers below k stay as they are, a distance can change at level k only by giving up a value that nobody offers any more. |
| `DvPoison.PoisonTouchesOneEntry` | `ns-3/cs433/dv-routing-protocol/dv-routing-protocol.cc:398-416` | The poisoned vector differs from the held one at most at the receiver's own entry, and has it at M_INF exactly when it is held at M_INF or the route to the receiver leads there. |
| `DvLastSent.LastVectorIsSent` | `ns-3/cs433/dv-routing-protocol/dv-routing-protocol.cc:383-424` | In every state of an orderly run each router has sent its vector to each neighbour it has a cost for; what it sent last is the newest vector on that link, and its distances are the same since. |
| `DvLastSent.HeldIsLastSent` | `ns-3/cs433/dv-routing-protocol/dv-routing-protocol.cc:614-654` | With every hello heard and no vector in flight, the vector a router holds for a neighbour is exactly the one the neighbour sent it last. |
| `DvLastSent.PoisonArrives` | `ns-3/cs433/dv-routing-protocol/dv-routing-protocol.cc:398-416` | There that vector has the receiver itself at M_INF if and only if the neighbour held a vector of the receiver when it sent its own last; otherwise it has it at 1. |
| `DvLastSent.PoisonNeedNotArrive` | `ns-3/cs433/dv-routing-protocol/dv-routing-protocol.cc:383-424` | It need not be at M_INF: an orderly run of two routers that ends at rest with direct routes, each holding a vector of the other that has itself at distance 1. |
| `DvPoison.PoisonIsInvisible` | `ns-3/cs433/dv-routing-protocol/dv-routing-protocol.cc:626-654` | A receiver reaches exactly the same vectors, routes and decisions to advertise from the poisoned vector as from the original one. |
| `Topsort.Topsort` | `ns-3/bindings/python/topsort.py:61-112` | CycleError exactly when the pairs have a cycle; otherwise every mentioned element once, parents before children, duplicate pairs included. The error leaves over the largest set of elements in which each has a parent, and with each its children. It carries all other elements once, parents first; for each leftover element the number of pairs into it from leftover parents; and for each leftover element with children, and no other, the list of its children, one for each pair, in the order of the pairs. |
| `Topsort.LeftoverHasChildren` | `ns-3/bindings/python/topsort.py:107-110` | Each leftover element has a child exactly when each is on a cycle or leads to one. |
| `Topsort.ChildlessLeftover` | `ns-3/bindings/python/topsort.py:107-110` | It need not: with a cycle of two and a child of it, the child is left over and has no child. |
| `Topsort.Build` | `ns-3/bindings/python/topsort.py:77-90` | The dictionaries count the pairs into each element and list its children with multiplicity. |
| `Topsort.VisitChildren` | `ns-3/bindings/python/topsort.py:99-102` | Counting down one element's children keeps the counts exact and appends exactly those that become free. |
| `Topsort.Process` | `ns-3/bindings/python/topsort.py:96-105` | One step of the loop over the growing answer. |
| `Topsort.Parentless` | `ns-3/bindings/python/topsort.py:93-93` | All elements without a parent, each once. |
| `Topsort.DoneSorting` | `ns-3/bindings/python/topsort.py:107-112` | When the answer is used up, leftover counts mean a cycle and the largest parented set, and none mean a sorted answer. |
| `Topsort.WalkBack` | `ns-3/bindings/python/topsort.py:107-111` | A finite non-empty set in which everyone has a parent contains a cycle. |
| `Topsort.RankExcludesCycles` | `ns-3/bindings/python/topsort.py:61-112` | A rank that grows along every pair excludes cycles. |
| `Topsort.CountSplits` | `ns-3/bindings/python/topsort.py:99-100` | Finishing one element lowers a count by the number of its pairs to that child. |
| `TopsortLevels.TopsortLevelsCore` | `ns-3/bindings/python/topsort.py:174-232` | Level k holds exactly the elements whose longest chain from a parentless element makes k steps; CycleError exactly when there is a cycle, after those levels were yielded. It carries, for the elements in no level and no others, the number of pairs between them, and the child lists given for them. |
| `TopsortLevels.TopsortLevels` | `ns-3/bindings/python/topsort.py:157-172` | The same from the list of pairs; the child lists the error carries name each child once for each pair, in the order of the pairs. |
| `TopsortLevels.TakeLevel` | `ns-3/bindings/python/topsort.py:206-226` | Removing one level keeps the counts and child lists of the rest exact. |
| `TopsortLevels.NextLevel` | `ns-3/bindings/python/topsort.py:200-226` | The elements whose count is zero are graded by one more than the previous level. |
| `TopsortLevels.GradeIsLongest` | `ns-3/bindings/python/topsort.py:174-232` | A grade with a direct parent just below and every parent below is the length of the longest chain. |
| `TopsortLevels.LevelsDone` | `ns-3/bindings/python/topsort.py:228-232` | Leftover elements have no longest chain at all, and exist exactly when there is a cycle. |
| `Cycles.FindCycles` | `ns-3/bindings/python/topsort.py:343-385` | Terminates; yields only simple cycles, no two of them rotations of each other, and every simple cycle of the graph up to rotation, although visited start nodes are skipped. |
| `Cycles.Explore` | `ns-3/bindings/python/topsort.py:354-385` | From one root: every cycle the root reaches is found, and exactly the nodes it reaches, without itself, are marked visited. |
| `Cycles.Visit` | `ns-3/bindings/python/topsort.py:356-385` | One turn of the work list strictly decreases the number of simple paths still to be explored. |
| `Cycles.Expand` | `ns-3/bindings/python/topsort.py:360-385` | The children of the last node either extend the path, and are marked visited, or close cycles, all of which are then found. |
| `Cycles.Record` | `ns-3/bindings/python/topsort.py:366-379` | Closing a path yields its cycle exactly if no rotation of it was yielded before. |
| `Cycles.RootIsCovered` | `ns-3/bindings/python/topsort.py:343-385` | Looking at every simple path from a root finds every cycle it reaches. |
| `Cycles.PathAroundCycle` | `ns-3/bindings/python/topsort.py:343-385` | Each reachable cycle is the tail of some simple path from the root, up to rotation. |
| `Cycles.IsRotated` | `ns-3/bindings/python/rad_util.py:735-775` | True exactly when one sequence is a rotation of the other; an IndexError exactly for two empty sequences. |
| `Cycles.RotatedTransitive` | `ns-3/bindings/python/rad_util.py:735-775` | Rotation is transitive, so comparing with one representative is enough. |
| `Topology.Builder.IsGraphConnectable` | `ns-3/inet-3.0/connection.c:187-207` | True exactly when the degrees sum to at least 2(n - 1). |
| `TopologyGraph.ConnectedNeedsDegrees` | `ns-3/inet-3.0/connection.c:187-207` | No connected simple graph within the degrees exists when the test fails. |
| `Topology.Builder.ConnectNodes` | `ns-3/inet-3.0/connection.c:222-517` | It succeeds exactly when the degrees sum to at least 2(n - 1), and warns exactly when it does not. Then the three phases end in a connected simple graph that uses exactly the slots taken, and no two nodes that are not linked both keep a free slot. |
| `Topology.Builder.SpanHubs` | `ns-3/inet-3.0/connection.c:360-417` | Phase 1 links all nodes of degree at least 2 into one component using k - 1 links; there is always a candidate. |
| `Topology.Builder.AttachLeaves` | `ns-3/inet-3.0/connection.c:423-446` | Phase 2 attaches every node of degree 1; it runs out of candidates exactly when the degrees sum to less than 2(n - 1). |
| `Topology.Builder.NoSlotLeft` | `ns-3/inet-3.0/connection.c:423-446` | When no hub has a slot left for a leaf, the degrees were too small from the start. |
| `Topology.Builder.FillHub` | `ns-3/inet-3.0/connection.c:452-517` | Phase 3 links a hub to distinct hubs it is not yet linked to until it is full or none is left. |
| `Topology.Builder.DegreeG2` | `ns-3/inet-3.0/connection.c:233-252` | The index of the first node of degree 1 in the descending order. |
| `Topology.Builder.Connect` | `ns-3/inet-3.0/connection.c:399-416` | One link takes one slot at both ends and keeps the graph simple and symmetric. |
| `Topology.Builder.Entries` | `ns-3/inet-3.0/connection.c:372-388` | The probability array has each candidate as often as the weight of the two degrees says, and nothing else. |
| `Topology.Builder.Pick` | `ns-3/inet-3.0/connection.c:372-394` | The draw yields one of the candidates; they are entered by weight. |
| `Topology.Builder.GenerateOutput` | `ns-3/inet-3.0/main.c:79-133` | Every degree is cut to the slots used, an odd total is refused, and otherwise the links are listed from their smaller end. |
| `Topology.Builder.GenerateTopology` | `ns-3/inet-3.0/main.c:247-251` | Building and printing, for degrees the test accepts: the total is even, and each link of the connected simple graph is listed exactly once, as many as the header says. |
| `TopologyGraph.JoinIsSimple` | `ns-3/inet-3.0/connection.c:399-416` | A link between distinct unlinked nodes keeps the graph symmetric, free of loops and parallel links. |
| `TopologyGraph.JoinReachesNext` | `ns-3/inet-3.0/connection.c:360-446` | Linking a new node to a reached one keeps everything up to it reached. |
| `TopologyGraph.Handshake` | `ns-3/inet-3.0/main.c:89-100` | The slots used are twice the links, hence even. |
| `TopologyGraph.ListingIsComplete` | `ns-3/inet-3.0/main.c:113-131` | The printed list has each link exactly once, smaller end first. |
| `LibjRandom.LrandIsProduct` | `ns-3/inet-3.0/libj_random.c:193-210` | The split-word computation is 16807 s mod (2^31 - 1), and never 0. |
| `LibjRandom.LrandIsBijective` | `ns-3/inet-3.0/libj_random.c:193-210` | A bijection on the seeds, with 1407677000 as inverse multiplier on both sides. |
| `LibjRandom.LrandWordIsLrand` | `ns-3/inet-3.0/libj_random.c:193-210` | Wrapping to 32 bits after every operation changes nothing, although the intermediate sum may exceed 31 bits. |
| `LibjRandom.FishmanIsProduct` | `ns-3/inet-3.0/libj_random.c:212-239` | The two-step split computation is 69621 s mod (2^31 - 1), and never 0; one correction is enough. |
| `LibjRandom.FishmanFits` | `ns-3/inet-3.0/libj_random.c:212-239` | The sum before the correction is at most twice the modulus, because low bits of all ones fix the other half. |
| `LibjRandom.FishmanWordIsFishman` | `ns-3/inet-3.0/libj_random.c:212-239` | Wrapping to 32 bits after every operation changes nothing here either, although the sum of the low words overflows. |
| `LibjRandom.Combined.Crand` | `ns-3/inet-3.0/libj_random.c:276-288` | Both seeds advance by their generators, and the result is their difference modulo 2^31 - 2, within 1 .. 2^31 - 2. |
| `LibjRandom.Combined.constructor` | `ns-3/inet-3.0/libj_random.c:273-274` | The two start seeds. |
| `LibjRandom.SchrageIsProduct` | `ns-3/inet-3.0/libj_random.c:321-361` | For any multiplier with an inverse and a remainder smaller than the quotient, the form without large products is the product modulo m, and never 0. |
| `LibjRandom.SchrageGenerators` | `ns-3/inet-3.0/libj_random.c:321-361` | The three generators in that form compute their products and stay on seeds. |
| `Codec.HeaderLayout` | `ns-3/cs433/ls-routing-protocol/ls-message.cc:122-153` | The bytes of a header: type 1 to 4, number highest byte first, TTL, originator highest byte first. |
| `Codec.TextLayout` | `ns-3/cs433/ls-routing-protocol/ls-message.cc:213-219` | The bytes of a ping or hello: destination highest byte first, length modulo 2^16 lowest byte first, text. |
| `Codec.TableLayout` | `ns-3/cs433/ls-routing-protocol/ls-message.cc:444-452` | The bytes of a table: number of pairs modulo 2^16 lowest byte first, then address and cost of each, highest byte first. |
| `Codec.WrittenIsRead` | `ns-3/cs433/ls-routing-protocol/ls-message.cc:123-190` | Reading a buffer where a message was written gives the message with its length reduced modulo 2^16: the same message exactly when its text or table is shorter than 65536. |
| `Codec.RoundTrip` | `ns-3/cs433/ls-routing-protocol/ls-message.cc:123-190` | The same wherever the bytes occur, whatever follows them. |
| `Codec.OneFormOnly` | `ns-3/cs433/ls-routing-protocol/ls-message.cc:155-190` | Whatever is read successfully occupies exactly the bytes the writer would produce. |
| `Codec.Message.GetSerializedSize` | `ns-3/cs433/ls-routing-protocol/ls-message.cc:58-86` | The announced size is the number of bytes written. |
| `Codec.Message.Serialize` | `ns-3/cs433/ls-routing-protocol/ls-message.cc:122-153` | Writes exactly the bytes of the message at the given place and nothing else. |
| `Codec.Message.Deserialize` | `ns-3/cs433/ls-routing-protocol/ls-message.cc:155-190` | Fails exactly when the bytes end early or the type is unknown; otherwise sets the transmitted fields, leaves the other payloads, appends a table to the one already held, and returns the bytes consumed, or 10 for a table. |
| `Codec.Message.SerializeText` | `ns-3/cs433/ls-routing-protocol/ls-message.cc:213-219` | The payload of a ping or hello. |
| `Codec.Message.DeserializeText` | `ns-3/cs433/ls-routing-protocol/ls-message.cc:221-231` | Its inverse on the buffer. |
| `Codec.Message.SerializeCosts` | `ns-3/cs433/ls-routing-protocol/ls-message.cc:444-452` | The payload of a table. |
| `Codec.Message.DeserializeCosts` | `ns-3/cs433/ls-routing-protocol/ls-message.cc:454-466` | Appends as many pairs as the count says. |

## Left out

- Sockets, packets, timers, interface notifications, logging, dumps and the fallback to static routing: library calls whose code is not part of this model. Local delivery and pings are left out with them; a ping shows only as a number taken from the counter.
- Distance-vector convergence of a whole network after a neighbour is lost: it can fail (`ExpiryBreaksConvergence`), so safety and what `DvReturn` says about the dropped neighbour cover such runs; links themselves are never removed. No general freedom from loops is claimed for poisoned reverse.
- LsNode.LsRouter.Dijkstra: decides success and the routes only while all advertised costs sum below the integer maximum (beyond it some tables still work out and others do not), and decides success exactly only for positive costs, because with costs of 0 the order of settling depends on the search itself.
- LsNode.LsRouter.AuditHellos: assumes that a router is not its own neighbour.
- LsInvariants.RunKeepsInv: leaves the routes open after a step in which a lookup failed.
- DvNode.DvRouter.ProcessDVTableMessage: carries the vector as a map; the order of the pairs in the message is lost, and of several pairs for one name one remains.
- Sequence numbers of distance-vector messages: never read by the receiver.
- Topology.Builder.ConnectNodes: does not model the weights in floating point, the allocation sizes and the shuffle of L, whose result is overwritten; the array of neighbour pointers is the sequence of its filled slots.
- Topology.Builder.GenerateOutput: leaves out coordinates and distances.
- TopsortLevels.TopsortLevelsCore: returns the levels in a sequence with an error flag instead of yielding them one by one; Cycles.FindCycles likewise.
- Codec.Message.GetSerializedSize: does not wrap at 32 bits, which would take a message of four gigabytes.
- `libj_randl2` (its two constants disagree), `libj_drand` and the sparc assembly of libj_random.c.
- dijkstra2.py and dijkstra3.py: prototypes of the computation proved exact for the router.
- degree.c, placement.c, random.c, `random_connection` and expansion.c: floating-point curve fits, library calls and code that main does not reach.
- The rest of rad_util.py, the simulator's main program, test applications and binding generators.
