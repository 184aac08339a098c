# A verified model of a user-space network stack

The repository is a network stack written in C as a series of labs. This project models the parts
of it that have to be right across many steps or many machines, and proves that they are:

- **Link-state routing** (`code-exp7/mospf_daemon.c`). One router is a class (`RouterDaemon.Router`)
  whose handlers are proved against functions on its state. Dijkstra's algorithm over the node list
  computes exact hop counts (`Spf`, `SpfCorrect`), the routes made from it follow shortest paths
  (`Routes`), and packets handed on hop by hop, by longest prefix match (`Forwarding`), never loop
  and arrive (`HopByHop`, `Delivery`). Many routers and the updates in
  flight are one step system (`Network`): databases agree over every run (`Agreement`), flooding
  ends (`FloodTermination`) and covers the network (`FloodCoverage`); put together, the
  protocol converges to the true graph (`Convergence`), and the run that gets it there always
  exists (`Quiescence`). What is heard of no more is forgotten after forty seconds and not before (`Ageing`).
- **TCP data transfer** (`code-exp2`). The ring buffer, receiver and sender are classes
  (`RingBuffers`, `TcpReceivers`, `TcpSenders`). Joined by a network that loses, duplicates and
  reorders, they form a step system (`TcpTransfer`, `TcpSystem`) whose every run keeps the byte
  stream intact and the receiver from overflowing (`TcpGuarantees`).
- **Congestion control** (`Congestion`), the **Internet checksum** in its three versions
  (`Checksum`), **longest prefix match** (`Forwarding`), the **ARP queue** (`ArpQueue`,
  `ArpConservation`) and the **learning switch** (`LearningSwitch`).

Each file holds one module. `dafny verify dfyconfig.toml` checks everything.

## How the code was read

- Every handler, and every pass of a timer thread, is one atomic step; locks are not modelled.
- Linked lists are sequences; an entry unlinked or changed in place is a reassigned sequence.
- `less_than_32b` and its relatives are two's-complement wrap-around. Segments and
  acknowledgements older than half the number space are assumed never to arrive; CompareFar
  states exactly where the macros answer the wrong way round.
- `tcp_sock_write` keeps the caller's whole buffer for every segment it sends. KeptAsSent proves that
  what is kept is what was sent exactly for writes of at most one segment, and LongWriteIsCorrupted
  gives a longer one. The transfer system therefore writes at most one segment at a time.
- The number in a link-state update goes up once per copy sent, not once per update, and is
  compared without wrap-around; the step system stops short of 65536 increments per router.
- Router ids differ from 0 and 0xFFFFFFFF, which the back-trace takes for "none".
- A subnet with several advertisers is routed towards the first of them in database order, not the
  nearest; FirstAdvertiser in `Routes` says exactly that.
- `cwnd`, a C float, is a real number.
- Comments in `code-exp7/arpcache.c` speak of replacing an entry; the code adds a second one for the
  same address. LookupAfterInsert states exactly when a lookup then finds the new one.
- In slow start an acknowledgement of `snd_una` itself counts as new, unlike in congestion avoidance;
  RepeatsInSlowStart and RepeatsInAvoidance state when repeated ones then lead to fast retransmit.
- The checksum of `code-exp7` loses the carry that an odd last byte may cause (LateAgreesWithoutCarry,
  LateLosesCarry), and `tcp_checksum` loses one when the two addresses, protocol and length overflow
  32 bits (PseudoHeaderCarry, PseudoHeaderLosesCarry).
- A router attached to a subnet has a kernel route for it and delivers packets itself, so hop-by-hop
  forwarding is followed up to that router and asks for computed entries at the others only.
- A frame for a station on its own port is flooded, not dropped; SentTo in `LearningSwitch` follows the code.
- Clocks, random numbers and the kernel's routes are parameters.

## Model

| member | source | states |
|---|---|---|
| `Seq32.CompareNear` | code-exp2/include/tcp.h:10-14 | the comparison macros decide the true order of any two positions less than 2^31 apart, across every wrap |
| `Seq32.CompareFar` | code-exp2/include/tcp.h:10-14 | less than a whole turn apart the macros are right if and only if the difference is from -2^31 to 2^31 - 1 |
| `Seq32.RawCompare` | code-exp2/tcp_in.c:271-274 | comparing the 32-bit numbers directly gives the true order of near positions if and only if no wrap lies between them |
| `RingBuffers.RingBuffer.constructor` | code-exp2/include/ring_buffer.h:16-25 | a ring for n bytes has n + 1 cells and starts empty |
| `RingBuffers.RingBuffer.Used` | code-exp2/include/ring_buffer.h:32-35 | the index formula is the number of bytes held, always less than the number of cells |
| `RingBuffers.RingBuffer.Free` | code-exp2/include/ring_buffer.h:37-41 | the free space and the bytes held leave one cell of the array unused |
| `RingBuffers.RingBuffer.Write` | code-exp2/include/ring_buffer.h:81-100 | a write that fits appends exactly its bytes to the contents, split at the end of the array or not |
| `RingBuffers.RingBuffer.Read` | code-exp2/include/ring_buffer.h:57-78 | a read takes exactly the oldest bytes, at most as many as asked for, and leaves the others in order |
| `TcpReceivers.InsertedAt` | code-exp2/tcp_in.c:420-448 | where the scan of the out-of-order list stops determines the list after insertion: unchanged, inserted there, or appended |
| `TcpReceivers.Receiver.AddPacket` | code-exp2/tcp_in.c:403-449 | the scan loop yields the specified list; -1 is returned exactly when nothing was queued |
| `TcpReceivers.Receiver.MoveOfo` | code-exp2/tcp_in.c:450-492 | the move loop yields the specified state, only appends to the ring, counts the bytes moved and acknowledges the new position |
| `TcpReceivers.Receiver.ProcessData` | code-exp2/tcp_in.c:268-293 | a data segment in the established state is added and moved; the position and window after the move are always acknowledged, and for a numerically smaller segment those before it first |
| `TcpReceivers.Receiver.SockRead` | code-exp2/tcp_sock.c:478-525 | the reader gets the oldest bytes of the ring, and the window grows by as much |
| `TcpSenders.Sender.WriteChunk` | code-exp2/tcp_sock.c:550-576 | one turn of the write loop: what is sent, what is kept, and nothing at all when the window test fails |
| `TcpSenders.Sender.UpdateSendBuffer` | code-exp2/tcp_out.c:169-199 | exactly the leading entries that start below the acknowledged number go |
| `TcpSenders.Sender.ProcessAck` | code-exp2/tcp_in.c:275-281 | trimming, then the window update, which is refused for numbers outside what is in flight |
| `TcpTransfer.RetransmitsOldest` | code-exp2/tcp_out.c:201-252 | something is resent exactly when not everything is acknowledged, and it is the stream's segment at snd_una, the oldest kept by wrapped comparison |
| `TcpSenders.KeptAsSent` | code-exp2/tcp_sock.c:560-570 | the entry kept for retransmission equals the segment sent if and only if the chunk is the whole write |
| `TcpSenders.LongWriteIsCorrupted` | code-exp2/tcp_sock.c:560-570 | a write one byte longer than a segment whose second segment would be retransmitted with a wrong byte |
| `TcpTransfer.InsertKeepsOrder` | code-exp2/tcp_in.c:428-448 | insertion by wrapped comparison is insertion by true offset, for segments inside the window |
| `TcpTransfer.MoveDrains` | code-exp2/tcp_in.c:455-479 | moving takes from the queue exactly the segments up to the new position, never finds the ring full, and leaves the next number missing |
| `TcpTransfer.ProcessArrival` | code-exp2/tcp_in.c:282-293 | after any arrival, duplicate, probe or new, what is received or queued is what was before, and that segment |
| `TcpTransfer.KeptTrims` | code-exp2/tcp_out.c:176-187 | after cumulative trimming exactly the segments from the acknowledged boundary on are kept |
| `TcpTransfer.AckKeepsSends` | code-exp2/tcp_in.c:140-144 | an acknowledgement moves the sender forward to it; an old or reordered one changes nothing |
| `TcpTransfer.UpdateIsGuarded` | code-exp2/tcp_in.c:275-281 | an acknowledgement sets position, advertised and effective window if and only if its true position is in flight; one below snd_una or beyond snd_nxt changes none of them |
| `TcpTransfer.WindowTestMeans` | code-exp2/tcp_sock.c:18-25 | the wrapped window test passes if and only if a whole segment still fits below the sender's right edge |
| `TcpSystem.StepKeepsInv` | code-exp2/tcp_in.c:107-144 | the joint invariant of sender, receiver and network survives every step: write, retransmission, probe, any delivery, read |
| `TcpSystem.ArrivalAnswered` | code-exp2/tcp_in.c:480 | whatever arrives, the receiver's position and window after it are among the acknowledgements sent |
| `TcpGuarantees.EndToEnd` | code-exp2/tcp_out.c:149-252 | in every reachable state the bytes read are a prefix of those written, snd_una <= rcv_nxt <= snd_nxt in true offsets, and every byte not yet in the ring is still kept under its number |
| `TcpGuarantees.FlowControl` | code-exp2/tcp_in.c:463-472 | in every reachable state the window is the ring's free space, every segment sent ends inside an edge once advertised, and the "recv buffer is full" branch is unreachable |
| `TcpGuarantees.EdgeNeverShrinks` | code-exp2/tcp_sock.c:505-513 | along every run the receiver's right edge, and both ends' positions, never move back |
| `TcpGuarantees.ReassemblyIsMaximal` | code-exp2/tcp_in.c:403-492 | in every reachable state the out-of-order list is strictly sorted by wrapped number and rcv_nxt is the first byte never received |
| `TcpGuarantees.DeliveryStaysPossible` | code-exp2/tcp_out.c:201-252 | from every reachable state a run exists, without further writes, after which everything written has been read and nothing is kept |
| `TcpGuarantees.WritingStaysPossible` | code-exp2/tcp_out.c:62-91 | from every reachable state a run exists, without further writes, that ends with a zero-window probe and its answer and after which the window test lets a write through |
| `Congestion.Controller.OnAck` | code-exp2/tcp_in.c:28-84 | what an acknowledgement does to each field in each state, with fast retransmit exactly on the third duplicate; the invariant is kept |
| `Congestion.DuringRecovery` | code-exp2/tcp_in.c:31-43 | from the acknowledgement that starts recovery, through any run of acknowledgements below the snd_nxt of then, the threshold is half the window before it and cwnd is that plus three segments and one per acknowledgement |
| `Congestion.RecoveryEnds` | code-exp2/tcp_in.c:31-43 | recovery ends if and only if an acknowledgement reaches that snd_nxt, and then cwnd is the threshold |
| `Congestion.Controller.OnTimeout` | code-exp2/tcp_timer.c:64-72 | a timeout sets the threshold to half the window and falls back to one segment in slow start; the invariant is kept |
| `Congestion.TimeoutResets` | code-exp2/tcp_timer.c:64-72 | the same after every timeout of every run |
| `Congestion.EveryRunIsSafe` | code-exp2/tcp_in.c:28-84 | after any mix of acknowledgements and timeouts: at most two duplicates counted, cwnd above ssthresh and one segment in avoidance, at least ssthresh and three segments in recovery |
| `Congestion.AdditiveIncrease` | code-exp2/tcp_in.c:64-68 | n new acknowledgements in avoidance raise the square of cwnd by between 2n and 3n times MSS squared |
| `Congestion.RepeatsInSlowStart` | code-exp2/tcp_in.c:47-84 | a run of acknowledgements that repeat snd_una opens the window in slow start by a segment each; if the m-th lifts it above the threshold, fast retransmit comes exactly with number m + 3 |
| `Congestion.RepeatsInAvoidance` | code-exp2/tcp_in.c:64-84 | in congestion avoidance it comes exactly with the third |
| `Checksum.ChecksumLoop` | code-exp2/include/checksum.h:8-20 | the loop-fold form is the complement of the ones' complement sum, for every length |
| `Checksum.ChecksumTwoStep` | code-exp5/include/checksum.h:8-23 | the two-step form has the same value, for every length |
| `Checksum.ChecksumLate` | code-exp7/include/checksum.h:8-20 | the form with the late odd byte has the same value on even lengths, and a stated other one on odd lengths |
| `Checksum.LateAgreesWithoutCarry` | code-exp7/include/checksum.h:13-19 | that other value is the Internet checksum if and only if adding the odd byte causes no carry |
| `Checksum.LateLosesCarry` | code-exp7/include/checksum.h:13-19 | three bytes on which it is not |
| `Checksum.ReceiverAccepts` | code-exp7/include/checksum.h:8-20 | a message with its checksum in place of a zero word sums to 0xffff, wherever that word is |
| `Checksum.ChecksumIsUnique` | code-exp7/include/checksum.h:8-20 | no other word in that place does, but for the two forms of zero |
| `Checksum.PseudoHeaderCarry` | code-exp2/include/tcp.h:94-108 | the 32-bit sum of the pseudo header has the right value if and only if it does not overflow |
| `Checksum.PseudoHeaderLosesCarry` | code-exp2/include/tcp.h:94-108 | two addresses for which it has not |
| `Checksum.ByteOrderIndependence` | code-exp2/include/checksum.h:8-20 | byte-swapping every word byte-swaps the checksum |
| `Checksum.NetworkOrder` | code-exp2/include/checksum.h:8-20 | what a little-endian host computes and stores is the checksum of RFC 1071 in network byte order, for even and odd lengths |
| `Spf.InitialNodes` | code-exp7/mospf_daemon.c:182-261 | the node list holds each database router, this router and each neighbour once, with neighbours one hop away |
| `Spf.SelectMin` | code-exp7/mospf_daemon.c:278-289 | an unvisited node of least finite cost, or none exactly when all unvisited ones are at INT_MAX |
| `Spf.RelaxAll` | code-exp7/mospf_daemon.c:305-323 | the inner loop keeps every label a real walk's length and leaves no edge out of the visited node unrelaxed |
| `Spf.Dijkstra` | code-exp7/mospf_daemon.c:275-324 | the main loop ends with every label sound, every visited node relaxed and only unreached nodes unvisited |
| `SpfCorrect.CostsAreHopCounts` | code-exp7/mospf_daemon.c:182-324 | every finite cost is the least hop count from this router, and INT_MAX means no walk shorter than that |
| `SpfCorrect.IntMaxIsUnreachable` | code-exp7/mospf_daemon.c:182-324 | with fewer than INT_MAX nodes a cost is INT_MAX if and only if the router is unreachable |
| `SpfCorrect.Backtrace` | code-exp7/mospf_daemon.c:348-369 | following the predecessors ends, at the first hop of a shortest path, or at 0 for an unreached router |
| `Routes.NextHop` | code-exp7/mospf_daemon.c:348-398 | the place in the neighbour lists of a first hop towards the router, or none exactly when it is out of reach |
| `Routes.AddRoute` | code-exp7/mospf_daemon.c:371-401 | one subnet is added at most once, over a first hop towards its first advertiser |
| `Routes.ComputeRoutes` | code-exp7/mospf_daemon.c:175-411 | every added route leads over a shortest path to the first reachable router advertising its subnet, every subnet of a reachable router has a route, no subnet has two added ones, and the kernel's routes stay in front |
| `HopByHop.EachHopIsNearer` | code-exp7/mospf_daemon.c:276-398 | if all routers hold one graph, each hop by any computable first hop lowers the distance by one |
| `HopByHop.HopsEndAtDestination` | code-exp7/mospf_daemon.c:276-398 | such a trace has no further hop if and only if it has arrived, after exactly the least number of hops |
| `HopByHop.HopsArrive` | code-exp7/mospf_daemon.c:276-398 | from every router that a walk joins to the destination there is a trace that arrives |
| `HopByHop.NoRepeats` | code-exp7/mospf_daemon.c:276-398 | no router is visited twice |
| `HopByHop.TableHopIsFirstHop` | code-exp7/mospf_daemon.c:371-398 | a table entry for a subnet with a single advertiser names a first hop towards it |
| `HopByHop.TablesLeadToAdvertiser` | code-exp7/mospf_daemon.c:339-402 | following each router's own table, packets for such a subnet come one hop nearer to its advertiser each time |
| `HopByHop.HopExists` | code-exp7/mospf_daemon.c:339-402 | every router within reach of the advertiser has an entry to follow |
| `HopByHop.TablesEndAtAdvertiser` | code-exp7/mospf_daemon.c:339-402 | a packet moves on by the tables until it is at the advertiser, and stops nowhere else |
| `HopByHop.TablesArrive` | code-exp7/mospf_daemon.c:339-402 | from every router within reach it arrives in the least number of hops |
| `Delivery.LookupIsTableHop` | code-exp7/ip_base.c:31-62 | for an address that no more specific entry matches, the lookup takes the hop of the subnet's own entry and no other |
| `Delivery.LookupsEndAtAdvertiser` | code-exp7/ip_base.c:31-62 | a packet forwarded by longest prefix match moves on until it is at the advertiser, and stops nowhere else |
| `Delivery.LookupsArrive` | code-exp7/ip_base.c:31-62 | from every router within reach it arrives in the least number of hops |
| `Routers.LsaArraySize` | code-exp7/mospf_daemon.c:566-598 | an update has exactly one advertisement per neighbour, or one per interface without any |
| `Routers.LsaArrayRids` | code-exp7/mospf_daemon.c:600-623 | the other routers an update names are exactly the neighbours |
| `Routers.LsaArraySubnets` | code-exp7/mospf_daemon.c:600-623 | the subnets an update advertises are exactly those of the router's interfaces, because neighbours share their interface's subnet |
| `Routers.LsaArrayExactly` | code-exp7/mospf_daemon.c:600-623 | an advertisement is in an update if and only if it is the subnet and id of a neighbour, or the subnet of an interface without any, with the router's own id |
| `Routers.CopiesExactly` | code-exp7/mospf_daemon.c:787-818 | a copy is sent if and only if it is for a neighbour behind an interface other than the skipped one |
| `Routers.CopiesOnce` | code-exp7/mospf_daemon.c:787-818 | nobody is sent two over one interface |
| `Routers.AgedExactly` | code-exp7/mospf_daemon.c:453-463 | an entry is in the database after a second if and only if it was there with more than a second left |
| `Routers.AgedNbrsExactly` | code-exp7/mospf_daemon.c:133-153 | a neighbour is listed after a second if and only if it was with time left |
| `RouterDaemon.Router.GenerateLsu` | code-exp7/mospf_daemon.c:563-629 | the counting pass sizes the buffer so that the filling pass fits exactly, and the buffer then holds the advertisements of all interfaces in order |
| `RouterDaemon.Router.SendLsu` | code-exp7/mospf_daemon.c:631-674 | exactly one copy, with 255 hops to go, for each neighbour, and as many increments of the 16-bit number |
| `RouterDaemon.Router.StoreLsu` | code-exp7/mospf_daemon.c:728-779 | an entry is in the database afterwards if and only if it is another router's, or the update when that is new or newer, or else the old entry with its time started again |
| `RouterDaemon.Router.HandleLsu` | code-exp7/mospf_daemon.c:698-821 | own updates are ignored; others are stored, the routes recomputed exactly when the entry is new or newer, and exactly one copy with one hop less sent to each neighbour behind each interface but the one of arrival |
| `RouterDaemon.Router.UpdateNbrViaHello` | code-exp7/mospf_daemon.c:476-520 | a known neighbour has its time started again and nothing else changes, one from another network is ignored, a new one is added at the end with the id, address and mask it sent, counted and announced |
| `RouterDaemon.Router.CheckNbrs` | code-exp7/mospf_daemon.c:126-169 | exactly the neighbours with time left stay, a second older, the counter follows, and a change is announced |
| `RouterDaemon.Router.CheckDatabase` | code-exp7/mospf_daemon.c:447-470 | exactly the entries with more than a second left stay, a second older, and the routes are recomputed if and only if one went |
| `RouterDaemon.Router.SpfRun` | code-exp7/mospf_daemon.c:413-438 | the routing table afterwards is the one computed from the present database |
| `RouterDaemon.HandledWellFormed` | code-exp7/mospf_daemon.c:722-779 | the database keeps one entry per router and none for this one |
| `Ageing.RunLeft` | code-exp7/mospf_daemon.c:447-470 | over any run without news of a router, the time left to its entry falls by one with each second, and at zero the entry is gone |
| `Ageing.EntriesLiveFortySeconds` | code-exp7/mospf_daemon.c:447-779 | after an update came, and until the next, its router is in the database if and only if the timer has run fewer than forty times, whatever else happens |
| `Ageing.NeighboursLiveFortySeconds` | code-exp7/mospf_daemon.c:126-520 | after a hello that was not ignored, and until the next, its sender is a neighbour if and only if the timer has run at most forty times |
| `Network.StoredNumber` | code-exp7/mospf_daemon.c:738-779 | storing leaves the greater of the old number and the update's, and other routers' numbers alone |
| `Network.StoredIffNewer` | code-exp7/mospf_daemon.c:738-779 | an update is taken in if and only if its number exceeds the stored one or it is stored already; a wrapped number is lost |
| `Agreement.StepKeepsInv` | code-exp7/mospf_daemon.c:631-821 | the soundness invariant survives every step: origination, delivery, loss, duplication, expiry, neighbour change |
| `Agreement.DatabasesAgree` | code-exp7/mospf_daemon.c:723-779 | over every run, what is stored was originated by that router under that number, so equal numbers mean equal arrays, below the originator's counter |
| `Agreement.NumbersRise` | code-exp7/mospf_daemon.c:738-779 | a stored number never falls; only expiry forgets it |
| `Agreement.TtlNeverWraps` | code-exp7/mospf_daemon.c:782-786 | updates in flight always have 1 to 255 hops left, so the 8-bit decrement never wraps |
| `FloodTermination.DeliveryLowersWeight` | code-exp7/mospf_daemon.c:782-818 | each delivery, of an old update too, strictly lowers the sum of (F+1)^ttl over the copies in flight |
| `FloodTermination.FloodingEnds` | code-exp7/mospf_daemon.c:782-818 | that sum bounds the length of every run without new originations |
| `FloodCoverage.StepKeepsCourse` | code-exp7/mospf_daemon.c:738-818 | along every simple path of at most 255 links the update has arrived or a copy with the right hops left is on it, after every delivery, duplication and origination |
| `FloodCoverage.FloodingCovers` | code-exp7/mospf_daemon.c:597-818 | if nothing is lost, however much is duplicated: once no copy of update s is in flight, every router within 255 links stores number s or a later one |
| `Convergence.DatabasesConverge` | code-exp7/mospf_daemon.c:563-821 | after a lossless run in which everyone originates and flooding has ended, everyone holds everyone else's present array |
| `Convergence.GraphsConverge` | code-exp7/mospf_daemon.c:182-324 | every router then computes on the same graph, the true one |
| `Convergence.RoutingConverges` | code-exp7/mospf_daemon.c:175-821 | packets handed on by each router's own computation then come one hop nearer each time, and have no further hop if and only if they have arrived after the least number of hops |
| `Convergence.EveryoneReached` | code-exp7/mospf_daemon.c:175-821 | between any two routers they do arrive |
| `Convergence.TablesConverge` | code-exp7/mospf_daemon.c:175-821 | the same by the routing tables of all routers but the one attached, for a subnet that only it advertises |
| `Convergence.PacketsArrive` | code-exp7/ip_base.c:31-62 | from every router, a packet for an address of that subnet, looked up by longest prefix match on the way, arrives in the least number of hops |
| `Convergence.PacketsStopNowhereElse` | code-exp7/ip_base.c:31-62 | and has no further hop if and only if it has arrived |
| `Convergence.EverySubnetRouted` | code-exp7/mospf_daemon.c:339-402 | every interface subnet of every router within reach then has a route at every other router |
| `Quiescence.ConvergenceIsReachable` | code-exp7/mospf_daemon.c:631-821 | from every sound state with room in the counters there is a run as the convergence theorems ask for |
| `Quiescence.TwoRoutersQualify` | code-exp7/mospf_daemon.c:28-47 | two freshly started routers joined by a cable meet the premises of that lemma and of database and graph convergence |
| `Quiescence.TwoRoutersConverge` | code-exp7/mospf_daemon.c:631-821 | and have a run after which each holds the other's present array |
| `Forwarding.LongestPrefixMatch` | code-exp7/ip_base.c:31-62 | none exactly when nothing matches, else the first of the matching entries with the most mask bits |
| `Forwarding.BestIsMostSpecific` | code-exp7/ip_base.c:40-59 | with contiguous masks the prefix found lies inside every other matching prefix |
| `Forwarding.RoutingTable.Clear` | code-exp7/rtable.c:61-70 | the table is empty |
| `Forwarding.RoutingTable.Load` | code-exp7/rtable.c:48-59 | the new entries follow the old ones in order |
| `Forwarding.RoutingTable.Replace` | code-exp7/mospf_daemon.c:413-438 | after clearing and loading, lookups see exactly the computed table |
| `ArpQueue.ArpCache.Lookup` | code-exp7/arpcache.c:53-69 | the first valid entry for the address, or none exactly when there is none |
| `ArpQueue.ArpCache.Insert` | code-exp7/arpcache.c:77-118 | the mapping goes to the first free slot or a random one; no request for the address is left and the others are as before; a packet leaves, with the learned MAC, if and only if it waited for the address |
| `ArpQueue.ArpCache.AppendPacket` | code-exp7/arpcache.c:126-157 | the packet joins the first request for its interface and address at the end, or starts one tried once |
| `ArpQueue.ArpCache.Sweep` | code-exp7/arpcache.c:165-207 | exactly the entries over 15 seconds old become invalid; due requests stay with one try more, and the packets reported unreachable are exactly those of due requests tried five times |
| `ArpQueue.LookupAfterInsert` | code-exp7/arpcache.c:82-95 | a lookup finds the mapping just inserted if and only if no valid entry for the address precedes its slot |
| `ArpConservation.StepKeepsInv` | code-exp7/arpcache.c:77-207 | the queue's invariant survives every append, insertion and sweep |
| `ArpConservation.PacketsAreConserved` | code-exp7/arpcache.c:77-207 | over every run, no two requests share a key and none is empty, each packet leaves exactly once and in arrival order under its key, and the MAC it leaves with, or that a lookup finds, was learned for that IP |
| `ArpConservation.AnswerReleases` | code-exp7/arpcache.c:96-116 | whenever an answer comes, everything ever queued for its address has then left, in order, the rest of it with the answer's MAC, and what waits for other addresses goes on waiting |
| `ArpConservation.FiveSweepsSuffice` | code-exp7/arpcache.c:180-205 | whatever else happens, after five sweeps a second apart every packet queued before has left |
| `LearningSwitch.Switch.LookupPort` | code-exp9/mac.c:42-60 | the bucket scan agrees with a plain map |
| `LearningSwitch.Switch.InsertMacPort` | code-exp9/mac.c:63-92 | insertion is an update of that map, and keeps one entry per MAC, in its hash bucket |
| `LearningSwitch.Switch.SweepAged` | code-exp9/mac.c:116-138 | exactly the stations unseen for more than 30 seconds go, and the count returned is their number |
| `LearningSwitch.Switch.HandlePacket` | code-exp9/main.c:21-47 | the sender is learned first; then the frame leaves by the receiver's port alone if that is known and another one, and by all other ports in order if not |
| `LearningSwitch.Switch.Broadcast` | code-exp9/broadcast.c:9-21 | every port but the arrival port, in order |
| `LearningSwitch.FramesNeverReturn` | code-exp9/main.c:31-45 | no frame leaves by its arrival port, no port gets two copies, and all others get one unless the receiver's port is known |
| `LearningSwitch.KnowsLastPort` | code-exp9/mac.c:63-138 | after any run of frames and sweeps a station is known if and only if no sweep came over 30 seconds after its last frame, and then at that frame's port |
| `LearningSwitch.FramesFollowStations` | code-exp9/main.c:21-47 | after any run, a frame for a station whose last frame came in by another port, with no late sweep since, leaves by that port alone, and any other frame by all ports but its own |

## Left out

- TCP connection setup, teardown, reset, reference counts and the socket tables: the transfer system starts established and stops before FIN, which moves `rcv_nxt` without regard to order.
- Timers other than as steps that may happen at any time: the back-off and the limit of three retransmissions are not modelled.
- Writes longer than one segment in the transfer system, which the code corrupts on retransmission (KeptAsSent, LongWriteIsCorrupted).
- The congestion window inside the transfer system: it is an arbitrary number at each acknowledgement, so the guarantees hold for every congestion control.
- Rounding of `cwnd`: real arithmetic stands for C floats.
- Header layout, byte order of fields and raw sockets: packets are records.
- How link-state updates travel: the code hands each copy to `ip_send_packet`, which looks up a route and may wait for ARP; in the model it goes over the cable of its interface. The count field and byte layout of an update are not modelled either: it carries a sequence.
- Forwarding for subnets with several advertisers in HopByHop, Delivery and Convergence: each router takes the first advertiser in its own database order, and two routers may then aim at different ones.
- mOSPF hello packets and checksums on reception, beyond the neighbour update they cause; in the network a neighbour change is a step of its own.
- Multi-access links in FloodCoverage and Convergence: coverage is stated for point-to-point links, as the labs wire them.
- ARP request packets, and the ICMP error that an unreachable report would itself queue: the report is an output event.
- The order of `checking_nbr_thread` and the ARP sweep with respect to the locks they drop half-way: each is one atomic step.
- `code-exp1`, `code-exp8`, the near copies of exp7 code in `code-exp5`, Mininet scripts and plots: input and output, or easy.
