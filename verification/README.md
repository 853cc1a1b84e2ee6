# Verified models of the AODV module and its helper scripts

Dafny models of the protocol and algorithm code of an ns-3 tree, with proofs. `dafny verify dfyconfig.toml` checks
everything. The modules follow the source files:

* **AODV** (`src/aodv/model`, an implementation of RFC 3561). `AodvNode` gives each packet handler as a function from
  node state to node state and packets sent, and `AodvHandlers` states their outcomes. `AodvRouter` is the object with
  its table, ID cache and counters; every method is proved to do what `AodvNode` says. `AodvFlood` puts many nodes
  into a network that delivers or loses packets in any order, and follows one discovery over every run; `AodvReply`
  adds the replies, and `AodvCoverage` how the discovery ends. `AodvForward` and `AodvSteady` are about the path that
  the destination's reply leaves, `AodvAsked` is about the number it answers with, `AodvChains` and `AodvExact` about
  the tables in which that path is always exact, and `AodvStored` about the path that the reply of an intermediate
  node leaves. `ReplyOrder` and `RequestOrder` are about the sequence numbers that RREPs and RREQs spread, `RreqRetry`
  and `AodvOriginator` about retries and their deadline, `AodvTable` and `AodvErrors` about route errors, `AodvPacket`
  and `AodvHeaders` about the wire format, `RequestQueue` and `IdCache` about the two containers.
* **Graph algorithms** (`bindings/python/topsort.py`): `Walks`, `Topsort`, `FindCycles`, with `Rotation` for
  `is_rotated`.
* **The worker pool of the test runner** (`test.py`): `WorkerPool`, a state machine over the two queues, the workers
  and the main thread.
* **Helpers** (`bindings/python/rad_util.py`, `utils/check-style.py`): `Permutations`, `BinaryStrings`, `Gcf`,
  `PatchText`, `PatchParse`, `PatchSet`.

What the source updates in place is a class or a method with a loop here, proved against a function on values; the
lemmas are about that function. Time is a parameter of each call, in integer units. Addresses, sequence numbers and
counters have the widths of the C++ fields (8 and 32 bits) and wrap as they do. The difference of two 32-bit sequence
numbers, `int32_t (a) - int32_t (b)` in the source, is read as wrapping at 32 bits. Iteration over a Python dictionary
is taken to be in an arbitrary order. Exceptions and failed assertions are values of result types. A generator is a
method that returns all it would yield. Some loops and handlers are split over several methods, at a loop body or a
table update.

Where the code differs from its own description, the model follows the code:

* `RreqCnt` has 8 bits while `RreqRetries` has 32: a discovery ends only if RreqRetries is at most 255, and with 0 it
  ends after 256 requests (`RreqRetry.EndsExactlyAtLimit`).
* `binary_range (0)` is the empty list, not the list of the empty string.
* `InvalidateRoutesWithDst` leaves sequence numbers and entries that are not VALID alone; the comment in
  aodv-rtable.h says that sequence numbers are incremented.
* `GetListOfDestinationWithNextHop` does not look at precursors, although its comment says so.
* The forward path left by a reply need not be exact when a node on it remembers the destination with a newer
  number, or with the same number in a VALID entry (`AodvExact.NotExact`).
* `parse_patchset` drops or misplaces removed lines that start with "-- " and added lines that start with "++ ",
  because headings are recognised first.

## Model

| member | source | states |
|---|---|---|
| `FindCycles.Run` | ns3-backpressure/bindings/python/topsort.py:342-385 | The search ends on every finite graph, and its list is sound (only simple cycles), complete (every simple cycle occurs up to rotation) and free of duplicates (no two entries are rotations of each other), although start nodes already visited are skipped. |
| `FindCycles.MetCycleIsCovered` | ns3-backpressure/bindings/python/topsort.py:364-385 | Once every simple path from the start node has been closed, any simple cycle met by one of them is in the list up to rotation: walk to the first node of the cycle met, then go round it. |
| `FindCycles.ReachedNodeIsSettled` | ns3-backpressure/bindings/python/topsort.py:342-385 | Why a visited node need not be a start node again: after the search, all simple cycles through any node that the start reaches have been reported. |
| `FindCycles.AddCycle` | ns3-backpressure/bindings/python/topsort.py:364-385 | The duplicate test keeps exactly one representative of each rotation class. |
| `FindCycles.Expand` | ns3-backpressure/bindings/python/topsort.py:364-385 | One turn keeps the stack a stack of simple paths, loses no cycle and no path still to come, and lowers the measure that bounds the search. |
| `FindCycles.VisitChildren` | ns3-backpressure/bindings/python/topsort.py:364-385 | The loop over the children of a popped path covers every cycle one more edge closes and pushes every other extension, with the work left accounted for exactly. |
| `FindCycles.Turn` | ns3-backpressure/bindings/python/topsort.py:364-385 | Popping and expanding one path strictly lowers the work left on the stack, a measure over all simple extensions of the stacked paths. |
| `FindCycles.ReportedOnce` | ns3-backpressure/bindings/python/topsort.py:342-385 | Two positions of the result that are rotations of the same cycle are the same position. |
| `Rotation.IsRotated` | ns3-backpressure/bindings/python/rad_util.py:735-775 | The comparison of slices of the doubled sequence answers yes exactly when one sequence is a rotation of the other, lengths and repetitions included. |
| `Rotation.RotationSymmetric` | ns3-backpressure/bindings/python/rad_util.py:735-775 | Being a rotation is symmetric, so it does not matter which cycle is compared with which. |
| `Rotation.RotationTransitive` | ns3-backpressure/bindings/python/rad_util.py:735-775 | Being a rotation is transitive, so one representative stands for its whole class. |
| `Topsort.TopologicalSort` | ns3-backpressure/bindings/python/topsort.py:61-112 | A sorted answer comes back exactly when the pairs have no cycle; it holds every node once with all parents before it. Otherwise the error leaves exactly the nodes on or downstream of a cycle, and the answer so far exactly the others. |
| `Topsort.BuildTables` | ns3-backpressure/bindings/python/topsort.py:77-90 | The counting loop: every node has a key whose count is the number of pairs, duplicates included, that put it below a parent, and every parent has its list of children in the order of the pairs. |
| `Topsort.ChildStillCounted` | ns3-backpressure/bindings/python/topsort.py:97-107 | A child about to be decremented has not been deleted: no dictionary lookup ever misses. |
| `Topsort.TakeOut` | ns3-backpressure/bindings/python/topsort.py:97-107 | One turn of the main loop: all remaining counts are again the numbers of pairs from parents still waiting, the unread part of the answer again holds exactly the remaining nodes with count 0, and parents still come first. |
| `Topsort.PlacedIsBounded` | ns3-backpressure/bindings/python/topsort.py:97-112 | A node at position j of the answer has no walk of more than j edges ending at it. |
| `Topsort.Verdict` | ns3-backpressure/bindings/python/topsort.py:108-112 | When nothing is ready any more, the remaining keys are exactly the nodes on or downstream of a cycle, and there are none exactly when there is no cycle. |
| `Walks.EndlessIffDownstream` | ns3-backpressure/bindings/python/topsort.py:108-112 | A node has walks of every length ending at it exactly when it lies on a cycle or downstream of one (pigeonhole on long walks). |
| `Topsort.TopsortLevels` | ns3-backpressure/bindings/python/topsort.py:114-171 | Level k holds, once each, exactly the nodes whose longest incoming walk has k edges; it fails on the same inputs and with the same leftover nodes as topsort. |
| `Topsort.TopsortLevelsCore` | ns3-backpressure/bindings/python/topsort.py:173-232 | The same for the core on given tables, items that occur in no pair included: levels are depths, no depth is missing, and the leftover keys of the error are the nodes on or downstream of a cycle. |
| `Topsort.LevelsVerdict` | ns3-backpressure/bindings/python/topsort.py:201-232 | When a round finds no ready node, what remains is exactly what lies on or below a cycle, and every finite depth has been listed. |
| `Topsort.PairsClimb` | ns3-backpressure/bindings/python/topsort.py:157-171 | Every pair leads from its level to a strictly higher one. |
| `AodvHandlers.RequestOutcome` | ns3-backpressure/src/aodv/model/aodv-routing-protocol.cc:1107-1236 | What becomes of a fresh RREQ at a node it is not for: dropped exactly if the next hop towards the destination is the requester; answered exactly if the node has a VALID route at least as new as asked for and the destination-only flag is not set, with the number and hop count of that route, and asking for an acknowledgement exactly if the destination is a neighbour; relayed otherwise, one hop further, with everything else kept but a newer number asked for. |
| `AodvHandlers.Ignored` | ns3-backpressure/src/aodv/model/aodv-routing-protocol.cc:1054-1062 | A RREQ changes nothing and is answered by nothing exactly if it has been seen before. |
| `AodvHandlers.SearchEntry` | ns3-backpressure/src/aodv/model/aodv-routing-protocol.cc:832-884 | Sending a RREQ leaves the entry for the destination IN_SEARCH with what was known, other entries alone, and asks for exactly the valid number known. |
| `AodvHandlers.ReplyOutcome` | ns3-backpressure/src/aodv/model/aodv-routing-protocol.cc:1339-1395 | A RREP for another originator goes on exactly if there is an entry for that originator that is not IN_SEARCH, to its next hop and one hop further; an acknowledgement is sent exactly if one is asked for; only the entry for the destination changes. |
| `AodvHandlers.HelloOutcome` | ns3-backpressure/src/aodv/model/aodv-routing-protocol.cc:1410-1441 | A hello stores the number of its sender, older or not, in a VALID entry that keeps its hop count and next hop, and sends nothing. |
| `AodvHandlers.NeighborEntry` | ns3-backpressure/src/aodv/model/aodv-routing-protocol.cc:1003-1031 | Hearing a node leaves a one-hop entry for it; a one-hop entry with a valid number stays as it is, any other is overwritten without one. |
| `AodvHandlers.AckOutcome` | ns3-backpressure/src/aodv/model/aodv-routing-protocol.cc:1397-1408 | An acknowledgement makes the entry of its sender VALID and changes nothing else. |
| `AodvFlood.FloodTheorem` | ns3-backpressure/src/aodv/model/aodv-routing-protocol.cc:1034-1184 | In every reachable state of a discovery, under any delivery order, losses and listeners: each node accepts the RREQ at most once and relays it at most once, there are fewer relays than nodes, exactly the nodes that accepted know the originator, and from each of them the stored next hops reach the originator with strictly falling stored hop counts (sections 6.3 and 6.5 of RFC 3561). |
| `AodvFlood.RunKeeps` | ns3-backpressure/src/aodv/model/aodv-routing-protocol.cc:1034-1184 | The invariant behind it holds in every reachable state: histories agree with ID caches, acceptances form a tree one hop deeper at each edge, stored reverse routes follow the tree or go straight to the originator, and packets in flight carry the hop count of their sender. |
| `AodvFlood.DeliverKeeps` | ns3-backpressure/src/aodv/model/aodv-routing-protocol.cc:940-981 | Delivering any packet in flight to its receiver keeps the invariant. |
| `AodvFlood.AcceptNode` | ns3-backpressure/src/aodv/model/aodv-routing-protocol.cc:1058-1104 | A node that accepts has a hop count that does not wrap at 8 bits, and installs a reverse route that is the new edge of the tree. |
| `AodvFlood.NeighborKeepsReverse` | ns3-backpressure/src/aodv/model/aodv-routing-protocol.cc:1003-1031 | Overwriting the entry of a neighbour can only shorten the route to the originator, and leaves it alone when another node is heard. |
| `AodvFlood.ClimbFrom` | ns3-backpressure/src/aodv/model/aodv-routing-protocol.cc:1077-1104 | From any node that accepted, following next hops ends at the originator. |
| `AodvReply.ReplyTheorem` | ns3-backpressure/src/aodv/model/aodv-routing-protocol.cc:1187-1395 | In every reachable state of the same runs, whatever entries the nodes have for the destination: the destination has answered if it has accepted; the RREP of every node that answers, destination or not, has visited no node twice, has come one tree level nearer to the originator with every hop, and is with the originator, lost, or in flight as exactly one packet to its tree parent or the originator, with no more hops than its sender is deep (sections 6.6 and 6.7 of RFC 3561). |
| `AodvReply.ReplyRunKeeps` | ns3-backpressure/src/aodv/model/aodv-routing-protocol.cc:1187-1395 | The invariant of the replies over every run from a quiet network, intermediate replies and acknowledgements included. |
| `AodvReply.PassedOn` | ns3-backpressure/src/aodv/model/aodv-routing-protocol.cc:1360-1394 | A received RREP is always passed on: afterwards it is in flight again exactly when its receiver is not the originator. |
| `AodvReply.ReplyCanArrive` | ns3-backpressure/src/aodv/model/aodv-routing-protocol.cc:1360-1394 | From any reachable state a reply that is not lost can be brought to the originator in no more deliveries than its sender is deep in the tree. |
| `AodvReply.RelayedReply` | ns3-backpressure/src/aodv/model/aodv-routing-protocol.cc:1280-1394 | A node with a reverse route passes every RREP on along it, whatever entry it has for the destination; its own entry is settled by the update rules. |
| `AodvReply.ArrivedReply` | ns3-backpressure/src/aodv/model/aodv-routing-protocol.cc:1305-1358 | The originator forwards nothing; while its entry is IN_SEARCH it takes the offered route whatever sequence number it has stored, otherwise the update rules decide. |
| `AodvReply.TrailDistinct` | ns3-backpressure/src/aodv/model/aodv-routing-protocol.cc:1360-1394 | A reply that climbs one tree level with every hop meets no node twice and comes no further than its sender is deep. |
| `AodvSteady.SteadyPathIff` | ns3-backpressure/src/aodv/model/aodv-routing-protocol.cc:1208-1395 | Exactly when the forward path is exact, whoever answers: in every reachable state in which the destination has answered with number n and every stored route is older than n and displaces no entry ahead of n, each node on the trail of its RREP, at distance i, stores hop count i and the node before it as next hop if and only if the entries that these nodes had at the start, as hearing their predecessors leaves them, yield to n (no valid number, an older one, or n itself in an entry that is not VALID). Nodes off the trail and the originator do not matter. |
| `AodvSteady.SteadyInWindow` | ns3-backpressure/src/aodv/model/aodv-routing-protocol.cc:1313-1338 | If all valid numbers and n lie in one half circle, stored routes older than n displace no entry ahead of n. |
| `AodvForward.ForwardPathIff` | ns3-backpressure/src/aodv/model/aodv-routing-protocol.cc:1272-1395 | Where only the destination can answer (destination-only flag, or no other node has a VALID route with a valid number), also when nodes hold VALID routes with the same or a newer number: the path is exact if and only if each entry found on the trail is replaced by the offer or equal to it. |
| `AodvForward.ForwardPathTheorem` | ns3-backpressure/src/aodv/model/aodv-routing-protocol.cc:1272-1395 | With any older answers of other nodes, out of every window: if the entries found on the trail yield to the number answered, the path is exact. |
| `AodvForward.YieldsIff` | ns3-backpressure/src/aodv/model/aodv-routing-protocol.cc:1305-1338 | An entry yields to n exactly when the update rules replace it by any RREP with number n, from whatever distance. |
| `AodvAsked.AskTheorem` | ns3-backpressure/src/aodv/model/aodv-routing-protocol.cc:1126-1205 | In every reachable state: each node that accepted asks for the number its parent asks for, or for its own valid number if that is not older; RREQs in flight carry just that; and the destination has answered with its own number, or with the next one exactly if that is what it was asked for. |
| `AodvAsked.AnswerNumber` | ns3-backpressure/src/aodv/model/aodv-routing-protocol.cc:1187-1205 | The destination answers with the number it has at the start, or with the next one and then only if some other node knew that one; nothing else changes its number. |
| `AodvAsked.ForwardPathFromStart` | ns3-backpressure/src/aodv/model/aodv-routing-protocol.cc:1126-1395 | A condition on the start alone under which the path is exact in every reachable state of every run: coherent tables, and stored routes older than the two possible answers. Coherent means that no relay is ahead of the next number N + 1; entries with N + 1 itself are admitted, because the request then asks for it, unless a relay is half the circle away from it or the originator asks for one that N + 1 does not replace. |
| `AodvChains.ChainRun` | ns3-backpressure/src/aodv/model/aodv-routing-protocol.cc:1126-1395 | In every quiet network: every chain of relays, each with an entry that lets the request of the one before it pass, carries some run out and its answer back; the answer is the one to what the chain collects, and the path left is exact if and only if every entry on the chain yields to it. |
| `AodvChains.AlwaysExactChains` | ns3-backpressure/src/aodv/model/aodv-routing-protocol.cc:1126-1395 | The path is exact in every reachable state of every run only if every chain of relays yields to the answer to what it collects; where no relay has a route to answer with, if and only if. For all networks. |
| `AodvExact.AlwaysExactIff` | ns3-backpressure/src/aodv/model/aodv-routing-protocol.cc:1126-1395 | With two relays that have no entry at all, this is the case if and only if the tables are coherent, a test on single entries. |
| `AodvExact.NotExact` | ns3-backpressure/src/aodv/model/aodv-routing-protocol.cc:1305-1338 | An input on which the path is not exact: four nodes in a row, the second with a newer number in an INVALID entry. |
| `AodvStored.StoredPathTheorem` | ns3-backpressure/src/aodv/model/aodv-routing-protocol.cc:1208-1395 | The RREP of an intermediate node x, in every reachable state: if the entries of the other relays yield to the number of x, and the destination answers with one that is newer than all stored routes, each node at distance i on the trail of x holds a VALID route with the answer of the destination, or with the number of x and at most i hops more than the route of x. |
| `AodvStored.NewerIsLost` | ns3-backpressure/src/aodv/model/aodv-routing-protocol.cc:1003-1031 | Why the answer has to be newer: an input on which a node on the trail of x hears the destination itself, loses the newer number of x and ends with the older one of the destination. |
| `AodvCoverage.BoundedRun` | ns3-backpressure/src/aodv/model/aodv-routing-protocol.cc:940-981 | Every discovery comes to an end: with n nodes no more than (2n + 1)(n - 1) packets are ever delivered or lost. |
| `AodvCoverage.StepLowersRank` | ns3-backpressure/src/aodv/model/aodv-routing-protocol.cc:940-981 | Each delivery and each loss strictly lowers a rank of the packets in flight and the nodes that have not accepted. |
| `AodvCoverage.CoverageTheorem` | ns3-backpressure/src/aodv/model/aodv-routing-protocol.cc:1160-1174 | With fixed neighbours, no loss and no entry for the destination: only nodes reachable from the originator without passing through the destination accept, with the length of such a path as hop count, and once no RREQ is in flight all of them have. |
| `AodvRouter.RoutingProtocol.SendRequest` | ns3-backpressure/src/aodv/model/aodv-routing-protocol.cc:832-917 | The method leaves the destinations, numbers, hop counts, next hops and flags of the table, the ID cache, the counters and the packet sent that the value model gives, about which the network results speak. |
| `AodvRouter.RoutingProtocol.UpdateRouteToNeighbor` | ns3-backpressure/src/aodv/model/aodv-routing-protocol.cc:1003-1031 | The same for the handler that makes a one-hop route to whoever was heard. |
| `AodvRouter.RoutingProtocol.RecvRequest` | ns3-backpressure/src/aodv/model/aodv-routing-protocol.cc:1034-1184 | The same for a received RREQ: duplicate test, reverse route, reply by the destination or an intermediate node, or relay. |
| `AodvRouter.RoutingProtocol.SetReverseRoute` | ns3-backpressure/src/aodv/model/aodv-routing-protocol.cc:1078-1104 | Its table update: the route back to the originator is the one of the value model. |
| `AodvRouter.RoutingProtocol.SendReply` | ns3-backpressure/src/aodv/model/aodv-routing-protocol.cc:1187-1205 | The same for the reply of the destination. |
| `AodvRouter.RoutingProtocol.SendReplyByIntermediateNode` | ns3-backpressure/src/aodv/model/aodv-routing-protocol.cc:1208-1236 | The same for a reply from a stored route. |
| `AodvRouter.RoutingProtocol.RecvReply` | ns3-backpressure/src/aodv/model/aodv-routing-protocol.cc:1272-1395 | The same for a received RREP: update rules, acknowledgement, originator or forwarding. |
| `AodvRouter.RoutingProtocol.SettleRoute` | ns3-backpressure/src/aodv/model/aodv-routing-protocol.cc:1304-1338 | Its table update: the entry for the destination is settled by the update rules of the value model. |
| `AodvRouter.RoutingProtocol.RecvAodv` | ns3-backpressure/src/aodv/model/aodv-routing-protocol.cc:940-981 | The same for the dispatch on the message type. |
| `RequestOrder.NewestStored` | ns3-backpressure/src/aodv/model/aodv-routing-protocol.cc:1003-1104 | Over any sequence of RREQs of one originator with numbers in one half circle, from any senders and with duplicates, the number stored for it at last is the newest of the one known at the start and all accepted ones, as long as no RREQ makes the node forget its number. |
| `RequestOrder.NeverBackIff` | ns3-backpressure/src/aodv/model/aodv-routing-protocol.cc:1003-1104 | Exactly when an accepted RREQ does not set the stored number back: unless it comes from the originator itself, finds a valid number in an entry of more or fewer than one hop, and carries an older one. |
| `RequestOrder.ReverseEntry` | ns3-backpressure/src/aodv/model/aodv-routing-protocol.cc:1078-1104 | The reverse entry after an accepted RREQ: a valid number, the received one if there was no valid number or the received one is ahead, otherwise the old one; the sender as next hop; one hop more than the RREQ; VALID if new, otherwise with the flag it had. Other entries stay. |
| `RequestOrder.LaterIsNewer` | ns3-backpressure/src/aodv/model/aodv-routing-protocol.cc:832-917 | Of any two requests of an originator less than half the circle apart, the later has the newer sequence number and another RREQ ID, by exactly as many steps as there were requests. |
| `RequestOrder.OneRequest` | ns3-backpressure/src/aodv/model/aodv-routing-protocol.cc:832-917 | One request is one broadcast RREQ of the originator with hop count 0; its ID and its sequence number are one ahead of the last, and the ID is entered in its own cache. |
| `ReplyOrder.WindowOrder` | ns3-backpressure/src/aodv/model/aodv-routing-protocol.cc:1305-1338 | Within a window narrower than 2^31 the wrapping signed difference is the order of the positions in the window (section 6.1 of RFC 3561). |
| `ReplyOrder.StrictTotalOrder` | ns3-backpressure/src/aodv/model/aodv-routing-protocol.cc:1305-1338 | Hence the test is irreflexive, transitive and ranks any two different sequence numbers. |
| `ReplyOrder.OneReply` | ns3-backpressure/src/aodv/model/aodv-routing-protocol.cc:1305-1338 | From a VALID entry with a valid sequence number, the update rules replace it exactly when the offer is fresher, or as fresh and shorter. |
| `ReplyOrder.NeverWorse` | ns3-backpressure/src/aodv/model/aodv-routing-protocol.cc:1272-1358 | Over any sequence of foreign RREPs, a later entry is the earlier one or strictly better. |
| `ReplyOrder.BestOfAll` | ns3-backpressure/src/aodv/model/aodv-routing-protocol.cc:1272-1358 | In whatever order the RREPs come, the node ends with a maximum, in (sequence number, fewer hops), of what it had and heard. |
| `ReplyOrder.WindowIff` | ns3-backpressure/src/aodv/model/aodv-routing-protocol.cc:1305-1338 | The exact condition: on any non-empty set of sequence numbers the test is a strict total order if and only if they all lie in one window. |
| `ReplyOrder.WindowIsNeeded` | ns3-backpressure/src/aodv/model/aodv-routing-protocol.cc:1305-1338 | An input outside any window: three RREPs go round and bring back the first entry. |
| `RreqRetry.DiscoveryDeadline` | ns3-backpressure/src/aodv/model/aodv-routing-protocol.cc:379-398 | With 1 <= k = RreqRetries <= 255, from the packet that begins a discovery and without an answer: exactly k RREQs are sent, at the scheduled times, however many packets are queued meanwhile; the k-th firing comes at the deadline and leaves no entry, no timer and no queued packet for the destination. |
| `RreqRetry.PacketStarts` | ns3-backpressure/src/aodv/model/aodv-routing-protocol.cc:379-398 | An outbound packet is refused exactly if the same packet for the same destination is queued and alive. If it is accepted and its destination is not IN_SEARCH, exactly one RREQ goes out, for that destination and at that time, with the entry IN_SEARCH and the retry timer set; otherwise none. |
| `RreqRetry.NobodyForgotten` | ns3-backpressure/src/aodv/model/aodv-routing-protocol.cc:379-398 | In every legal run of packets, timers and answers from the empty node, a retry timer is pending exactly for the destinations IN_SEARCH, and every queued packet is for one of those. |
| `RreqRetry.OffsetClosedForm` | ns3-backpressure/src/aodv/model/aodv-routing-protocol.cc:920-937 | The i-th RREQ (from 0) is T*i*(i+1)/2 after the first. |
| `RreqRetry.ScheduleClosedForm` | ns3-backpressure/src/aodv/model/aodv-routing-protocol.cc:920-937 | The times of the schedule in that closed form. |
| `RreqRetry.EndsExactlyAtLimit` | ns3-backpressure/src/aodv/model/aodv-routing-protocol.cc:1499-1536 | For every RreqRetries: a firing ends the discovery exactly when the number of RREQs sent meets the limit, which is RreqRetries from 1 to 255, 256 when it is 0, and none when it is 256 or more, because the counter has 8 bits. |
| `RreqRetry.DiscoveryRun` | ns3-backpressure/src/aodv/model/aodv-routing-protocol.cc:379-398 | Over every run the discovery has sent one RREQ more than its timer has fired, and further packets and other destinations change nothing about it. |
| `RreqRetry.AnswerEndsDiscovery` | ns3-backpressure/src/aodv/model/aodv-routing-protocol.cc:1343-1357 | A RREP ends a discovery: exactly one RREQ more than the timer has fired was sent, the timer is removed, every live packet for the destination is handed on in order and none stays queued, and no RREQ follows until the next packet. |
| `RreqRetry.FiredTimer` | ns3-backpressure/src/aodv/model/aodv-routing-protocol.cc:1499-1536 | The outcomes of a timer that runs out: on a VALID entry the packets are handed on; a search whose counter has not met RreqRetries sends one RREQ and sets the timer; in every other case no entry is left and the packets are reported to their senders. Other destinations are not touched. |
| `RreqRetry.AnswerMeans` | ns3-backpressure/src/aodv/model/aodv-routing-protocol.cc:1339-1357 | The outcome of a RREP at the originator: the search and its timer end, the entry is a fresh VALID one unless it was none of a search and the update rules kept it, and the packets are handed on. |
| `RreqRetry.NoPacketLost` | ns3-backpressure/src/aodv/model/aodv-routing-protocol.cc:379-398 | In every legal run of packets, timers and answers from the empty node, each accepted packet is queued, was handed on or was reported, exactly as often as it was accepted, and the queue keeps its limit, its uniqueness and its order. |
| `RreqRetry.PastTheDeadline` | ns3-backpressure/src/aodv/model/aodv-routing-protocol.cc:1499-1536 | When the clock is past the deadline the timer has fired at least k times. |
| `AodvOriginator.Originator.SendRequest` | ns3-backpressure/src/aodv/model/aodv-routing-protocol.cc:832-917 | The entry becomes IN_SEARCH, one RREQ is recorded, and the timer is set as the value model says. |
| `AodvOriginator.Originator.ScheduleRreqRetry` | ns3-backpressure/src/aodv/model/aodv-routing-protocol.cc:920-937 | The counter goes up by one modulo 256 and the timer runs out after counter times NetTraversalTime. |
| `AodvOriginator.Originator.DeferredRouteOutput` | ns3-backpressure/src/aodv/model/aodv-routing-protocol.cc:379-398 | A packet without a route is queued, and a discovery starts exactly when none is under way. |
| `AodvOriginator.Originator.SendPacketFromQueue` | ns3-backpressure/src/aodv/model/aodv-routing-protocol.cc:1606-1627 | Every live packet for the destination is handed on, in order, and no other. |
| `AodvOriginator.Originator.EndSearch` | ns3-backpressure/src/aodv/model/aodv-routing-protocol.cc:1343-1357 | The end of RecvReply at the originator: fresh entry and no timer after a search, and every live packet for the destination handed on. |
| `AodvOriginator.Originator.RouteRequestTimerExpire` | ns3-backpressure/src/aodv/model/aodv-routing-protocol.cc:1499-1536 | Hands packets over, gives up or sends again, as the value model says. |
| `AodvErrors.ErrorHandler.RecvError` | ns3-backpressure/src/aodv/model/aodv-routing-protocol.cc:1445-1496 | The RERR rebuilt lists exactly the received destinations routed via its sender, with the received sequence numbers and for their precursors, and exactly their valid entries are invalidated; the 255-destination assertion cannot fail (section 6.11 of RFC 3561). |
| `AodvErrors.ErrorExact` | ns3-backpressure/src/aodv/model/aodv-routing-protocol.cc:1445-1496 | Entry by entry: afterwards an entry is invalid exactly if it already was, or if it was valid, its destination was listed and its next hop was the sender; searches, sequence numbers and next hops stay as they are. |
| `AodvErrors.AffectedExact` | ns3-backpressure/src/aodv/model/aodv-routing-protocol.cc:1450-1471 | A pair is in the rebuilt list exactly when it was received and its destination is routed via the sender. |
| `AodvErrors.PrecursorsExact` | ns3-backpressure/src/aodv/model/aodv-routing-protocol.cc:1466-1483 | The addresses a rebuilt RERR is for are exactly the precursors of the entries for its destinations, each once. |
| `AodvErrors.MergedExact` | ns3-backpressure/src/aodv/model/aodv-rtable.cc:130-145 | Adding the precursors of an entry to a list gives their union, without repetition. |
| `AodvErrors.ErrorHandler.CollectUnreachable` | ns3-backpressure/src/aodv/model/aodv-routing-protocol.cc:1450-1465 | The loop empties the received header and keeps, in order, exactly the destinations routed via its sender. |
| `AodvErrors.ErrorHandler.Rebuild` | ns3-backpressure/src/aodv/model/aodv-routing-protocol.cc:1466-1483 | Refilling the header gives back every kept destination and the union of their precursors; the table is unchanged. |
| `AodvTable.RoutingTable.Purge` | ns3-backpressure/src/aodv/model/aodv-rtable.cc:354-384 | Outdated invalid entries go, outdated valid ones become invalid, searches stay, whatever the order of the map. |
| `AodvTable.PurgedTwice` | ns3-backpressure/src/aodv/model/aodv-rtable.cc:354-384 | Purging twice at one instant is purging once. |
| `AodvTable.PurgeLeaves` | ns3-backpressure/src/aodv/model/aodv-rtable.cc:354-384 | After a purge no outdated entry is left that is not a search; every other entry is as it was, and only outdated INVALID ones are gone. |
| `AodvTable.EntryLife` | ns3-backpressure/src/aodv/model/aodv-rtable.cc:354-384 | A VALID entry whose lifetime is over becomes INVALID with the first purge, stays so for badLinkLifetime, and is forgotten by the first purge after that. |
| `AodvTable.RoutingTable.LookupRoute` | ns3-backpressure/src/aodv/model/aodv-rtable.cc:199-218 | Purges, then gives a copy of the entry, whatever its flag, or fails. |
| `AodvTable.RoutingTable.GetListOfDestinationWithNextHop` | ns3-backpressure/src/aodv/model/aodv-rtable.cc:297-311 | Exactly the destinations routed via the given neighbour, with their sequence numbers. |
| `AodvTable.RoutingTable.InvalidateRoutesWithDst` | ns3-backpressure/src/aodv/model/aodv-rtable.cc:314-331 | Exactly the valid entries for the listed destinations become invalid. |
| `AodvPacket.RoundTrip` | ns3-backpressure/src/aodv/model/aodv-packet.cc:67-94 | For every RREQ, RREP, RREP-ACK, and RERR with at most 255 destinations: decoding the encoding, whatever bytes follow, gives back an equal header and reads exactly the type byte and GetSerializedSize bytes. |
| `AodvPacket.RreqRoundTrip` | ns3-backpressure/src/aodv/model/aodv-packet.cc:174-202 | The RREQ body reads back field by field. |
| `AodvPacket.RrepRoundTrip` | ns3-backpressure/src/aodv/model/aodv-packet.cc:313-340 | The RREP body reads back field by field. |
| `AodvPacket.RerrRoundTrip` | ns3-backpressure/src/aodv/model/aodv-packet.cc:514-553 | The RERR body reads back as the same map. |
| `AodvPacket.RreqLayout` | ns3-backpressure/src/aodv/model/aodv-packet.cc:174-202 | The bytes of a RREQ: type 1, then every field at the offset of section 5.1 of RFC 3561, most significant byte first. |
| `AodvPacket.RrepLayout` | ns3-backpressure/src/aodv/model/aodv-packet.cc:313-340 | The same for a RREP, type 2 (section 5.2). |
| `AodvPacket.RerrLayout` | ns3-backpressure/src/aodv/model/aodv-packet.cc:514-553 | The same for a RERR, type 3, with its pairs in order (section 5.3), and for a RREP-ACK, type 4. |
| `AodvPacket.SizeIsLength` | ns3-backpressure/src/aodv/model/aodv-packet.cc:174-202 | GetSerializedSize is the number of bytes written, as long as a RERR has at most 255 destinations. |
| `AodvPacket.TooManyDestinations` | ns3-backpressure/src/aodv/model/aodv-packet.cc:514-553 | With more than 255 destinations the 8-bit count wraps and the RERR never comes back as it was. |
| `AodvPacket.RerrEncodings` | ns3-backpressure/src/aodv/model/aodv-packet.cc:520-553 | A byte string is the encoding of a RERR exactly when it has the announced length and its addresses strictly ascend. |
| `AodvHeaders.WriteMessage` | ns3-backpressure/src/aodv/model/aodv-packet.cc:67-94 | Writing the type and then the header, field by field, appends exactly the encoding. |
| `AodvHeaders.ReadMessage` | ns3-backpressure/src/aodv/model/aodv-packet.cc:67-94 | Reading the type and then the header it names gives what decoding the bytes gives, and stops where the message ends. |
| `AodvHeaders.DeserializeType` | ns3-backpressure/src/aodv/model/aodv-packet.cc:73-94 | Takes one byte and is valid exactly on the four message types. |
| `AodvHeaders.SerializeRreq` | ns3-backpressure/src/aodv/model/aodv-packet.cc:174-184 | Appends exactly the encoding of the RREQ. |
| `AodvHeaders.DeserializeRreq` | ns3-backpressure/src/aodv/model/aodv-packet.cc:187-202 | Reads exactly the 23 bytes of a RREQ. |
| `AodvHeaders.SerializeRrep` | ns3-backpressure/src/aodv/model/aodv-packet.cc:313-323 | Appends exactly the encoding of the RREP. |
| `AodvHeaders.DeserializeRrep` | ns3-backpressure/src/aodv/model/aodv-packet.cc:326-340 | Reads exactly the 19 bytes of a RREP. |
| `AodvHeaders.Rerr.Serialize` | ns3-backpressure/src/aodv/model/aodv-packet.cc:520-531 | Appends flag, count and the pairs in ascending order of address. |
| `AodvHeaders.Rerr.SerializePairs` | ns3-backpressure/src/aodv/model/aodv-packet.cc:520-531 | The loop appends address and number of each pair, in ascending order of address. |
| `AodvHeaders.Rerr.Deserialize` | ns3-backpressure/src/aodv/model/aodv-packet.cc:534-553 | Fills the map with as many pairs as announced; the closing assertion fails exactly when the addresses read were not all different. |
| `AodvHeaders.Rerr.AddUnDestination` | ns3-backpressure/src/aodv/model/aodv-packet.cc:583-592 | Inserts in order; a destination already listed keeps its sequence number. |
| `AodvHeaders.Rerr.RemoveUnDestination` | ns3-backpressure/src/aodv/model/aodv-packet.cc:593-602 | Takes out the smallest address, and fails exactly on an empty map. |
| `AodvHeaders.Rerr.Clear` | ns3-backpressure/src/aodv/model/aodv-packet.cc:605-610 | Leaves an empty header. |
| `RequestQueue.RunIsGood` | ns3-backpressure/src/aodv/model/aodv-rqueue.cc:42-138 | Over every run with a fixed limit of at least 1, a fixed timeout and a clock that does not go back: the limit is kept, no packet is queued twice for a destination, entries stand in order of expiry, and every accepted packet is queued, was handed out once or was reported once. |
| `RequestQueue.TakeIsEarliest` | ns3-backpressure/src/aodv/model/aodv-rqueue.cc:88-101 | After any run, Dequeue hands out the live packet for the destination with the earliest expiry, exactly when there is one, and it is no longer queued. |
| `RequestQueue.PutDropsOldest` | ns3-backpressure/src/aodv/model/aodv-rqueue.cc:49-68 | In any run a packet that is not queued and alive goes in behind the others, to expire one timeout later; if the live packets fill the queue, exactly the one that would have expired first makes room and is reported. |
| `RequestQueue.DoKeeps` | ns3-backpressure/src/aodv/model/aodv-rqueue.cc:49-101 | Each operation, at a time no earlier than the last, keeps the same law. |
| `RequestQueue.DropForKeeps` | ns3-backpressure/src/aodv/model/aodv-rqueue.cc:71-85 | Dropping for a destination keeps it too and leaves no packet for that destination. |
| `RequestQueue.RequestQueue.Enqueue` | ns3-backpressure/src/aodv/model/aodv-rqueue.cc:49-68 | Purges, refuses a packet already queued for its destination, drops the oldest when full, and stamps the expiry. |
| `RequestQueue.RequestQueue.Dequeue` | ns3-backpressure/src/aodv/model/aodv-rqueue.cc:88-101 | Purges and takes out the first packet for the destination. |
| `RequestQueue.RequestQueue.DropPacketWithDst` | ns3-backpressure/src/aodv/model/aodv-rqueue.cc:71-85 | Purges, reports every packet for the destination and removes exactly those. |
| `RequestQueue.RequestQueue.Purge` | ns3-backpressure/src/aodv/model/aodv-rqueue.cc:115-138 | Reports and removes exactly the expired packets. |
| `RequestQueue.RequestQueue.Find` | ns3-backpressure/src/aodv/model/aodv-rqueue.cc:104-113 | Whether any packet for the destination is queued, expired ones included. |
| `RequestQueue.RequestQueue.GetSize` | ns3-backpressure/src/aodv/model/aodv-rqueue.cc:42-46 | The number of entries left after purging. |
| `IdCache.DuplicateIffGranted` | ns3-backpressure/src/aodv/model/aodv-id-cache.cc:36-48 | Yes exactly when some earlier call for the pair was answered no at t0 under lifetime L and t0 + L has not passed, lifetimes changing freely between calls. |
| `IdCache.SizeIsLivePairs` | ns3-backpressure/src/aodv/model/aodv-id-cache.cc:49-60 | GetSize is the number of pairs whose grant is still live. |
| `IdCache.CacheIsHistory` | ns3-backpressure/src/aodv/model/aodv-id-cache.cc:36-60 | The cache holds exactly the grants of the call history that can still be live. |
| `IdCache.Cache.IsDuplicate` | ns3-backpressure/src/aodv/model/aodv-id-cache.cc:36-48 | Purges, answers whether the pair is held, and adds it with its expiry exactly when it is not. |
| `IdCache.Cache.SetLifetime` | ns3-backpressure/src/aodv/model/aodv-id-cache.h:57 | Changes the lifetime of later entries and no entry that is there: the change the call histories allow at any point. |
| `IdCache.Cache.GetSize` | ns3-backpressure/src/aodv/model/aodv-id-cache.cc:55-60 | Purges and counts. |
| `WorkerPool.PoolTheorem` | ns3-backpressure/test.py:921-989 | Over any interleaving and any moment of interruption: runs are finite with an explicit bound, no run that is not finished is stuck, a finished one has every job among the results exactly once, and while a break job stands at the head of the queue only break jobs follow. |
| `WorkerPool.FinishedMeans` | ns3-backpressure/test.py:1590-1597 | At the end exactly one result per job has come out, every worker has left on a break job of its own, and both queues are empty. |
| `WorkerPool.NotStuck` | ns3-backpressure/test.py:1736-1737 | Until then some step other than an interrupt is enabled: the collect loop and the joins finish. |
| `WorkerPool.ResultsAreDecided` | ns3-backpressure/test.py:921-989 | The results of a finished run are exactly what its steps decided: a job taken after an interrupt is thrown away, a job marked as skipped is skipped, and any other comes back with the code that its process returned. |
| `WorkerPool.CollectedInOrder` | ns3-backpressure/test.py:921-989 | The main thread collects the results in the order in which the workers report them. |
| `WorkerPool.CountsMean` | ns3-backpressure/test.py:1600-1621 | The counters are the numbers of jobs neither thrown away nor skipped that returned 0, 1, 2 or anything else, and of jobs skipped. |
| `WorkerPool.BreaksComeLast` | ns3-backpressure/test.py:1575-1578 | At any time in any run, once a worker has taken a break job all real jobs have been queued and taken, and only break jobs are left. |
| `WorkerPool.StepKeeps` | ns3-backpressure/test.py:921-989 | Every step keeps the accounting of jobs in queues, hands and results, and one break job per worker. |
| `WorkerPool.StepLowersRank` | ns3-backpressure/test.py:921-989 | Every step but an interrupt strictly lowers a rank of queues and workers. |
| `WorkerPool.RunIsBounded` | ns3-backpressure/test.py:921-989 | So no run takes more steps than its initial rank. |
| `WorkerPool.Summarize` | ns3-backpressure/test.py:1590-1621 | The counters are the numbers of results of each status, and the exit code is 0 exactly when passed and skipped tests make up all. |
| `WorkerPool.ExitCodeTheorem` | ns3-backpressure/test.py:1800-1803 | A finished run succeeds exactly when no job was thrown away and every process that was run returned 0; results are real jobs, and none is thrown away without an interrupt. |
| `Permutations.Permute` | ns3-backpressure/bindings/python/rad_util.py:293-326 | The recursive method with its two loops gives the list of rearrangements that the lemmas below speak about, in the order of the source. |
| `Permutations.Count` | ns3-backpressure/bindings/python/rad_util.py:293-326 | There are n! lists. |
| `Permutations.Sound` | ns3-backpressure/bindings/python/rad_util.py:293-326 | Each list is a rearrangement of the input. |
| `Permutations.Complete` | ns3-backpressure/bindings/python/rad_util.py:293-326 | Every rearrangement of the input occurs. |
| `Permutations.NoneTwice` | ns3-backpressure/bindings/python/rad_util.py:293-326 | They are pairwise different when the items are distinct. |
| `BinaryStrings.Int2BinExact` | ns3-backpressure/bindings/python/rad_util.py:74-105 | For n >= 1: int2bin gives the n-digit string whose value is i, so that bin2int undoes it, exactly when 0 <= i < 2^n; it raises ValueError exactly on i >= 2^n, and KeyError exactly on negative i. For n <= 0 it gives the digits without the first -n, again of value i, exactly when i fits into those left. |
| `BinaryStrings.BinaryRange` | ns3-backpressure/bindings/python/rad_util.py:632-660 | The ripple-carry loop ends with 2^n strings, the k-th equal to int2bin(k, n), for n >= 1; for n = 0 the list is empty. |
| `BinaryStrings.Increment` | ns3-backpressure/bindings/python/rad_util.py:647-660 | One pass of the carry adds 1 to the value and reports an overflow exactly when there is one. |
| `BinaryStrings.ValueInjective` | ns3-backpressure/bindings/python/rad_util.py:108-130 | Strings of equal length with equal bin2int are equal. |
| `Gcf.Gcf` | ns3-backpressure/bindings/python/rad_util.py:252-258 | On all integers, with floor remainders of either sign, the loop ends with the greatest common divisor, which is a combination of the inputs. |
| `Gcf.Lcm` | ns3-backpressure/bindings/python/rad_util.py:260-290 | lcm times gcf is the product; the result is a common multiple and divides every common multiple; 0 for two zeros. |
| `Gcf.ReduceFraction` | ns3-backpressure/bindings/python/rad_util.py:329-348 | An equal fraction of coprime numbers; division by zero exactly on 0/0. |
| `PatchParse.RoundTrip` | ns3-backpressure/utils/check-style.py:221-265 | Printing patches and parsing the text gives the patches back exactly when no name or text holds a newline, no position is negative, every line has its type, no removed line starts with "-- " and no added line starts with "++ ". |
| `PatchParse.WrittenIff` | ns3-backpressure/utils/check-style.py:157-165 | Writing raises an exception exactly if some line of some chunk never had its type set. |
| `PatchParse.ParsedIsPrintable` | ns3-backpressure/utils/check-style.py:221-265 | Whatever the parser accepts meets that condition. |
| `PatchParse.ParseAgain` | ns3-backpressure/utils/check-style.py:221-265 | So printing what was parsed and parsing it again changes nothing. |
| `PatchParse.RemovedRuleIsLost` | ns3-backpressure/utils/check-style.py:228-256 | A concrete family that does not come back: a removed line that starts with "-- ". |
| `PatchParse.ChunkParse` | ns3-backpressure/utils/check-style.py:240-262 | The lines printed for a chunk are parsed into that chunk at the end of the current patch. |
| `PatchText.ShowClassified` | ns3-backpressure/utils/check-style.py:222-227 | Each printed line is read, by the six expressions in their order, as what it was printed for. |
| `PatchText.ClassifiedIsGood` | ns3-backpressure/utils/check-style.py:222-227 | The expressions never yield anything that could not have been printed. |
| `PatchText.HeaderIff` | ns3-backpressure/utils/check-style.py:224-224 | Exactly which lines are read as chunk headers: those with one or more digits in each of the four places, whatever follows the last mark; and the numbers captured are those digits. |
| `PatchText.HeaderShown` | ns3-backpressure/utils/check-style.py:194-195 | The four numbers of a chunk header are read back from its decimal digits. |
| `PatchSet.ParsePatchset` | ns3-backpressure/utils/check-style.py:221-265 | The objects built in the loop hold what the lines parse to, and the same exception is raised on the same lines, the current chunk surviving into the next patch included. |
| `PatchSet.BodyStep` | ns3-backpressure/utils/check-style.py:246-262 | Adding a line to the current chunk changes that chunk of that patch and no other. |
| `PatchSet.Patch.Write` | ns3-backpressure/utils/check-style.py:215-219 | Succeeds exactly when every line has its type, and then appends the text of the patch. |
| `PatchSet.PatchChunk.Write` | ns3-backpressure/utils/check-style.py:193-197 | The same for a chunk, with the lengths of both sides in its header. |
| `PatchParse.SidesInOrder` | ns3-backpressure/utils/check-style.py:177-188 | The source side of a chunk is its removed and common lines, the other side its added and common lines, each in order and none missing. |
| `PatchParse.HeaderAnnounces` | ns3-backpressure/utils/check-style.py:189-197 | The header printed for a chunk announces as many lines of each side as follow it. |
| `PatchSet.WriteLine` | ns3-backpressure/utils/check-style.py:157-165 | The mark of the type, the text and a newline; an exception exactly without a type. |
| `PatchSet.PatchChunk.GetSrc` | ns3-backpressure/utils/check-style.py:177-182 | The lines of the old side, in order. |
| `PatchSet.PatchChunk.GetDst` | ns3-backpressure/utils/check-style.py:183-188 | The lines of the new side, in order. |

## Left out

- Network-wide loop freedom of AODV over arbitrary runs: `RecvRequest` overwrites next hop and hop count even for an older sequence number, so only single discoveries and `RecvReply` are treated.
- AodvFlood.FloodTheorem: for networks of at most 256 nodes, because hop counts have 8 bits; one discovery at a time, with one address and one interface per node.
- AodvFlood.FloodTheorem, AodvReply.ReplyTheorem, AodvForward.ForwardPathTheorem: without route lifetimes and expiry, ID cache expiry, hello sending, precursor lists, RERRs, blacklists, RREP-ACK timers and rate limits during the discovery; packet loss and arbitrary sets of listeners are included.
- AodvForward.ForwardPathTheorem: one direction only; the exact condition is AodvSteady.SteadyPathIff. Gratuitous RREPs are left out.
- AodvSteady.SteadyPathIff: where a stored route, across half the circle of numbers, would displace an entry ahead of the destination's number, it makes no claim, because the RREP from that route may clear the entry away before the answer of the destination comes.
- AodvForward.ForwardPathIff: for discoveries that only the destination can answer.
- AodvAsked.ForwardPathFromStart: exact (AodvExact.AlwaysExactIff) only where no relay has a route to answer with; with such routes it is enough.
- AodvChains.AlwaysExactChains: where a relay has a route to answer with, only one direction; it may answer itself, and then no reply of the destination need come through it.
- AodvExact.AlwaysExactIff: for networks with two relays that have no entry, over which the failing runs go; without them AodvChains.AlwaysExactChains is the exact condition.
- AodvStored.StoredPathTheorem: enough, not exact; for a destination whose answer is newer than all stored routes, and for hop counts that stay below 256.
- AodvCoverage.CoverageTheorem: nodes that have an entry for the destination may drop or answer the RREQ, so for them the theorem makes no claim.
- AodvRouter.RoutingProtocol.SendRequest: without rate limit, gratuitous flag, retry timer (see RreqRetry) and hello timer.
- AodvRouter.RoutingProtocol.UpdateRouteToNeighbor: without lifetimes and the test of the output device.
- AodvRouter.RoutingProtocol.RecvRequest: without lifetimes, gratuitous replies, neighbour table, blacklist, hello timer, multiple interfaces and time to live.
- AodvRouter.RoutingProtocol.SendReplyByIntermediateNode: without precursors, the acknowledgement timer and gratuitous RREPs.
- AodvRouter.RoutingProtocol.RecvReply: without lifetimes and precursors; the end of a search (timer and queue) is in AodvOriginator.Originator.EndSearch.
- AodvRouter.RoutingProtocol.RecvAodv: without the RERR branch, which is in AodvErrors, and without the drop of packets of unknown type, which AodvHeaders.ReadMessage reports.
- AodvOriginator.Originator.SendRequest: without the rate limit and the RREQ header, which is in AodvRouter. One C++ class is modelled as two objects, with the routes in one and retries, timers and queue in the other.
- AodvOriginator.Originator.SendPacketFromQueue: for packets without an output interface tag, or with a matching one; the source drops a packet whose tag names another interface and then stops, leaving the rest queued.
- AodvOriginator.Originator.EndSearch: whether the update rules replaced the entry is a parameter, and the early return of the flush on a packet with another interface tag is absent.
- AodvErrors.ErrorHandler.RecvError: `SendRerrMessage` is recorded as a call with its header and precursors; RERR rate limiting and the choice between unicast and broadcast are not modelled.
- RreqRetry.DiscoveryDeadline: no message but a RREP for the search touches the entry, and the RREQ rate limit is not reached.
- RequestQueue.RunIsGood: for a fixed limit of at least 1; `SetMaxQueueLen` during a run is left out, and so is a limit of 0, for which `Enqueue` would read the front of an empty queue.
- Packet contents, sockets, callbacks, ARP and MAC hooks: a packet is a number, and what is sent, handed on or reported is appended to a history.
- Rotation.IsRotated: not for two empty sequences, on which the source raises an IndexError; cycles are never empty.
- WorkerPool.PoolTheorem: for at least one processor; job results are arbitrary return codes, and starting processes, option parsing and report writing are left out. Each queue operation is one atomic step, as Python's queues are.
- FindCycles.Run: on values, so lists are not shared; the graph is a map from nodes to finite lists of children.
- Topsort.TopsortLevels: the levels are collected in a list, so what a caller sees between two levels is not modelled.
- Gcf.Gcf: on integers; the tolerance for floats and the precision argument of lcm are left out, as is the rest of the float code.
- BinaryStrings.ValueInjective: bin2int is only applied to strings of 0 and 1.
- PatchSet.ParsePatchset: a PatchChunkLine is a value, because its type and text are set once, right after it is made; `remove_trailing_whitespace_changes`, which appends to lines later, is not modelled.
- PatchParse.RoundTrip: the text of several patches is what writing them one after another leaves; lines are split at newline characters only.
- PatchSet.Patch.Write: what a write that raises an exception has already written is not described.
- AODV neighbour management, DPD, hello sending, and everything else in the tree outside the files cited above.
