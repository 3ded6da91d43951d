# A model of Cavan's protocols, codecs and containers

This project models the algorithmic parts of the Cavan toolbox in Dafny and proves what they promise, or states exactly
when they do not.

| file | system part |
|---|---|
| `UdpWindow.dfy`, `UdpLink.dfy`, `UdpProtocol.dfy`, `UdpCongestion.dfy`, `UdpRuns.dfy` | the reliable-UDP sliding window on 16-bit numbers, its congestion window and timeout estimator, two endpoints over a network that loses, duplicates and reorders, what the congestion window and the timer let out, and runs at the limits of the numbers |
| `HuffmanTree.dfy`, `HuffmanOptimal.dfy`, `HuffmanShape.dfy`, `HuffmanCodec.dfy` | the Huffman coder: in-place sort and merge, optimality among all prefix codes, depth bound, bit packing, decoding |
| `Lz77.dfy` | the LZ77 coder and its decoder with a circular window |
| `EpollScheduler.dfy`, `EpollFraming.dfy` | the multi-daemon run queue and the incremental length-prefixed framing |
| `Calculator.dfy`, `CalculatorBlanks.dfy` | the two-stack formula evaluator against the value of expression trees, and what blanks do to it |
| `Cftp.dfy` | stop-and-wait file transfer, in both directions |
| `Cache.dfy`, `BlockDevice.dfy`, `Link.dfy`, `LoopLink.dfy` | the byte ring, byte access to a block device, the circular linked lists |
| `Bcrypt.dfy`, `Crc.dfy`, `Crc32.dfy`, `Crc16.dfy` | the Feistel kernel, and the table-driven checksums as instances of one theory |
| `Arithmetic.dfy`, `Bytes.dfy`, `Wrappers.dfy` | shared facts, machine integers and datatypes |

Code that changes state is a class or an in-place method whose postcondition equates the new state with a function of
the old one; what the code is for is proved about those functions. The three concurrent or distributed parts (UDP,
scheduler, file transfer) are step systems: an invariant is kept by every step and the results hold in every state of
every run.

What the code does not keep, stated exactly:

- The retransmission timeout is a 16-bit field. A loss doubles it before it is capped, so it can wrap below its minimum:
  in a history exactly when a loss finds it in 32768..32772 (`FloorKeptIff`), never with samples of up to 3276 ms
  (`FastSamplesKeepFloor`). `FloorLostExample` is a run of the protocol, every timer on time, that ends at 4 ms. The
  smoothed round trip is 16 bits wide too and keeps its lower bound exactly for samples of up to 65542 ms
  (`EstimatorKeepsLeastIff`); the upper bounds always hold (`EstimatorCeiling`).
- Sequence numbers are reused every 65536 packets. `ExactlyOnceInOrder` is for networks in which a data packet is at
  most 65536 - 64 numbers older than the receiving base and an acknowledgement less than 65536 numbers old.
  `StaleDataMisreadIff` and `StaleAckMisreadIff` say for any older message when it is misread, and
  `OldDataIsDeliveredAgain` and `OldAckFreesAnother` are runs in which the deliveries then stop being the submissions.
- The Huffman decoder stops only at the end of the bytes, so its output is the input and some copies of the leftmost
  symbol (`DecodeOfEncode`, `RoundTripIff`, `TwoBytesDoNotRoundTrip`); a code of whole bytes always comes back
  (`WholeBytesRoundTrip`).
- The framing buffer is doubled in 16 bits, so a packet length above 32768 never ends the loop (`DoublingEndsIff`,
  `OpenIff`).
- The formula check has a bracket stack of ten (`CheckIff`, `CalculateIsEval`). The test for a leading sign looks at
  the first character only, so a blank before it leaves an operand missing: " -3" is refused (`BlankHidesSign`). Any
  other blank does no harm (`BlanksDoNoHarmIff`, `CalculateSpaced`).
- The client's sending loop does not answer an unexpected acknowledgement while its 16-bit block counter is zero, and it
  has left the call with the timer by then. If the block was lost, nothing brings it back (`DeafForever`); a run gets
  there exactly when the client sends at least 65535 full blocks (`DeafIsReachedIff`). In either direction the last
  acknowledgement is sent once, so losing it leaves the sender without success although the file is complete
  (`UnansweredIsReached`). From every other state of every run the transfer can still end well (`CompletesIff`).
- The daemon maximum is compared with the threads that have started, not with those created, so two posts in a row get
  two daemons where one is allowed (`MaximumIsExceeded`); what is bounded is the number of waiting ones (`ReadyIsBounded`).
- The block device accepts a block size that is no power of two and then looks for bytes in the wrong block
  (`GeometryIsRightIff`).

## Model

| member | source | states |
|---|---|---|
| UdpWindow.UdpWin.constructor | cpp/Udp.cpp:93-98 | a new window is an empty receiving window at its first number; one opened at 0 is also an empty sending window |
| UdpWindow.UdpWin.Invalid | cpp/Udp.cpp:100-109 | true exactly for the 16-bit numbers at least a window ahead of the base, so exactly for those outside the window |
| UdpWindow.InvalidIsExact | cpp/Udp.cpp:100-109 | for every base and number the two-way comparison of wrapped bounds is modular membership in the window |
| UdpWindow.BeyondIsExact | cpp/Udp.cpp:250-261 | the wrapped comparison with base plus congestion window is true exactly when the number lies beyond it |
| UdpWindow.UdpWin.Enqueue | cpp/Udp.cpp:111-131 | accepts a packet exactly when fewer than 64 slots are in use, stamps it with the next number and changes nothing else; refusal changes nothing |
| UdpWindow.UdpWin.Flush | cpp/Udp.cpp:244-279 | sends, in order and once each, the unacknowledged packets from the first unsent one up to base + min(cwnd, length), stamps them, and ends across the 16-bit wrap |
| UdpWindow.UdpWin.SendRange | cpp/Udp.cpp:266-276 | the sending loop of flush between two 16-bit numbers sends exactly the occupied slots of that range, wrapped or not |
| UdpWindow.UdpWin.Confirm | cpp/Udp.cpp:155-192 | frees a slot only for a number it holds, feeds the link control with that packet, slides past all freed slots and flushes the enlarged window; any other number changes nothing |
| UdpWindow.UdpWin.Resend | cpp/Udp.cpp:281-309 | does nothing without an outstanding packet, gives the deadline before it is due, fails after ten tries, and otherwise repeats the first outstanding packet and reports a loss |
| UdpWindow.UdpWin.Receive | cpp/Udp.cpp:194-242 | old numbers are acknowledged and dropped, numbers in the window are kept once, a failed allocation is not acknowledged, and the whole run of consecutive packets at the base is delivered in order |
| UdpWindow.UdpWin.HandOver | cpp/Udp.cpp:229-239 | one turn takes the packet at the base out of its slot and moves the base, exactly if it is there |
| UdpWindow.UdpWin.DeliverHeld | cpp/Udp.cpp:229-239 | hands over exactly the consecutive held packets behind the base, frees their slots and moves the base past them |
| UdpWindow.FlushedValid | cpp/Udp.cpp:244-279 | flushing keeps every occupied slot at its number modulo 64 and the unsent mark inside the window |
| UdpWindow.SlideValid | cpp/Udp.cpp:170-187 | moving the base past freed slots keeps the window valid |
| UdpProtocol.BaseNeverTrails | cpp/Udp.cpp:155-242 | in every state kept by the invariant the receiving base is at or past the sending base, and no packet was submitted a window beyond it |
| UdpProtocol.FreshDataIsClassified | cpp/Udp.cpp:194-214 | for every data packet within the lifetime, the 16-bit test says "old" exactly for delivered packets and gives the true distance otherwise |
| UdpProtocol.FreshAckIsExact | cpp/Udp.cpp:155-162 | an acknowledgement within the lifetime matches a slot only if it is for that very packet |
| UdpProtocol.StaleDataMisreadIff | cpp/Udp.cpp:100-109 | beyond the lifetime: a delivered packet is taken for a new one if and only if its age modulo 2^16 is 0 or above 65536 - 64 with a free slot there |
| UdpProtocol.StaleAckMisreadIff | cpp/Udp.cpp:155-162 | beyond the lifetime: an acknowledgement frees another packet if and only if it aliases an occupied slot |
| UdpProtocol.StepKeepsInv | cpp/Udp.cpp:111-309 | submit, transmit, timeout, arrival, loss and duplication each keep the whole invariant: nothing is freed or acknowledged that the receiver does not hold or has not delivered |
| UdpProtocol.RunKeepsInv | cpp/Udp.cpp:111-309 | every state of every run satisfies the invariant |
| UdpProtocol.ExactlyOnceInOrder | cpp/Udp.cpp:111-309 | in every state of every run with loss, duplication and reordering, the delivered payloads are exactly the first submitted ones, in order and once each; an empty sending window means all were delivered |
| UdpProtocol.DeliveryOnlyGrows | cpp/Udp.cpp:194-242 | a later state of a run extends what an earlier one delivered |
| UdpProtocol.DrainedMeansDelivered | cpp/Udp.cpp:155-192 | when the sender has nothing outstanding everything submitted was delivered |
| UdpProtocol.NoDeadEnd | cpp/Udp.cpp:281-309 | from every invariant state whose first packet has tries left, three steps (send, arrive, acknowledge) move the sending base |
| UdpProtocol.AlwaysAcked | cpp/Udp.cpp:194-214 | a packet for which memory was found is acknowledged whatever its number |
| UdpProtocol.FirstAckSlides | cpp/Udp.cpp:155-192 | the acknowledgement of the first outstanding packet always moves the base |
| UdpCongestion.RunKeepsWindow | cpp/Udp.cpp:244-309 | in every state of every run no more packets count as sent than the congestion window allows |
| UdpCongestion.CongestionObeyed | cpp/Udp.cpp:244-309 | in every run each packet a step puts on the wire has a number between the base and the base plus the congestion window of that moment |
| UdpCongestion.NothingHeldBack | cpp/Udp.cpp:244-279 | a flush puts every unsent packet inside the congestion window on the wire and moves the unsent mark past it |
| UdpCongestion.AckHoldsNothingBack | cpp/Udp.cpp:155-192 | so does an acknowledgement that frees a packet, for the base and the window it leaves |
| UdpCongestion.RunSendsOnce | cpp/Udp.cpp:244-279 | in every run, as long as the timer has repeated nothing, exactly the packets before the unsent mark were transmitted, each exactly once |
| UdpCongestion.TimeoutIff | cpp/Udp.cpp:281-309 | the timer acts if and only if the first packet was sent, is overdue and was sent at most ten times |
| UdpCongestion.TimerRearms | cpp/Udp.cpp:292-309 | the time it gives is when the packet will be due, after a repeat as well as before it |
| UdpCongestion.TriesAreLimited | cpp/Udp.cpp:281-309 | in any stretch of any run in which the first outstanding packet stays, the timer repeats it at most ten times |
| UdpCongestion.TransmissionsAreLimited | cpp/Udp.cpp:244-309 | over every run no packet goes out more than 71 times, so its 16-bit count never wraps |
| UdpLinkControl.UdpLink.OnUdpPackLose | cpp/Udp.cpp:451-461 | a loss sets the window to 1 and the counter to 0 and doubles the timeout in 16 bits, capped at RTO_MAX |
| UdpLinkControl.UdpLink.OnUdpPackSended | cpp/Udp.cpp:463-495 | an acknowledgement of a first transmission updates round trip, deviation, timeout and window in 16- and 32-bit arithmetic; that of a repeated one changes nothing (RepeatsAreInvisible says so over histories) |
| UdpLinkControl.CwndBounded | cpp/Udp.cpp:451-495 | over every history of acknowledgements and losses 1 <= cwnd <= 8, and the acknowledgement counter never passes cwnd |
| UdpLinkControl.EstimatorBounded | cpp/Udp.cpp:463-495 | over every history with samples of up to 65542 ms the smoothed round trip stays between the least and the greatest of its start and the samples, the deviation below the greatest, and the timeout at or below max(RTO_MAX, 10 * greatest) |
| UdpLinkControl.EstimatorCeiling | cpp/Udp.cpp:463-475 | the upper bounds hold over every history, whatever the samples are: wrapping can only lower a value |
| UdpLinkControl.EstimatorKeepsLeastIff | cpp/Udp.cpp:466-470 | the lower bound holds over all histories with samples in [lo, hi] if and only if hi is at most 65542; one millisecond more takes some history to 0 |
| UdpLinkControl.EstimateFitsIff | cpp/Udp.cpp:466-475 | one estimate comes out unwrapped if and only if the smoothed round trip and the raw deviation stay below 32768 together |
| UdpLinkControl.LoseKeepsFloorIff | cpp/Udp.cpp:451-461 | a loss keeps the timeout at its minimum or above if and only if it was not in 32768..32772, where the doubling wraps to less |
| UdpLinkControl.FloorKeptIff | cpp/Udp.cpp:451-495 | in every history the timeout is at RTO_MIN or above throughout if and only if no loss finds it in 32768..32772 |
| UdpLinkControl.FastSamplesKeepFloor | cpp/Udp.cpp:451-495 | so every history with samples of up to 3276 ms keeps it |
| UdpLinkControl.RepeatsAreInvisible | cpp/Udp.cpp:463-465 | for every history: leaving out all acknowledgements of packets sent more than once gives the same control state |
| UdpLinkControl.LossesKeepTheEstimate | cpp/Udp.cpp:451-475 | for every history round trip and deviation are those of the samples alone: a loss changes neither |
| UdpLinkControl.GrowthIsTriangular | cpp/Udp.cpp:451-495 | after every history at all, the window is the largest k for which the first transmissions acknowledged since the last loss pay (k - 1)(k + 2)/2, up to 8, and the counter is what is left over |
| UdpRuns.FloorLostExample | cpp/Udp.cpp:281-309 | a run with every timer on time and no clock going back ends with a timeout of 4 ms: a first packet is lost five times while the acknowledgement of the one behind it, sent once, takes 14620 ms |
| UdpRuns.QuietRun | cpp/Udp.cpp:111-309 | for every n a run with every timer on time sends n packets and gets each acknowledged |
| UdpRuns.OldDataIsDeliveredAgain | cpp/Udp.cpp:194-242 | a run after which a copy of the first packet, 65536 packets old, is delivered a second time: more comes out than went in |
| UdpRuns.OldAckFreesAnother | cpp/Udp.cpp:155-192 | a run after which an acknowledgement 65536 packets old frees a packet the receiver never had, so that the sender is done and the last packet is missing |
| HuffmanTree.PartitionPass | lib/codec.c:298-317 | the alternating hole-filling loops compute the partition function in place |
| HuffmanTree.PartitionSplits | lib/codec.c:298-317 | the pivot ends between counts not above it and counts not below it, and nothing outside the range moves |
| HuffmanTree.PartitionPermutes | lib/codec.c:298-317 | the pass is a permutation of the range with the pivot back in its hole |
| HuffmanTree.TreeSort | lib/codec.c:296-326 | the recursive in-place sort computes the sorting function |
| HuffmanTree.QuickSortSorts | lib/codec.c:296-326 | the range is sorted by count |
| HuffmanTree.QuickSortPermutes | lib/codec.c:296-326 | it holds the same nodes and everything outside it is untouched |
| HuffmanTree.LiveIsSorted | lib/codec.c:377-398 | the nodes that are used are the sorted leaves of non-zero count |
| HuffmanTree.SkipUnused | lib/codec.c:384-384 | the first used node is found behind all leaves of count zero |
| HuffmanTree.InsertNode | lib/codec.c:409-413 | shifting from the end puts the merged node behind all nodes not heavier and moves nothing at or below index |
| HuffmanTree.InsertSorts | lib/codec.c:409-413 | insertion keeps the live nodes sorted |
| HuffmanTree.MergeAll | lib/codec.c:400-414 | the loop over the growing array merges the two first live nodes until one is left |
| HuffmanTree.BuildTree | lib/codec.c:370-417 | sort, skip and merge in place build the tree of the frequency table |
| HuffmanOptimal.LightestDeepest | lib/codec.c:400-414 | any depth assignment of a prefix code can be changed, without costing more, so that the two lightest nodes are the two deepest |
| HuffmanOptimal.MergeIsOptimal | lib/codec.c:400-414 | merging the two lightest costs no more than any depths that satisfy the Kraft inequality |
| HuffmanOptimal.PrefixFreeIsKraft | lib/codec.c:328-368 | the code lengths of every prefix-free code satisfy the Kraft inequality |
| HuffmanOptimal.NoPrefixCodeIsShorter | lib/codec.c:400-414 | the merging cost is at most the weighted length of any prefix code for the same nodes |
| HuffmanShape.TreeHasTheSymbols | lib/codec.c:370-417 | the tree has each symbol of non-zero count at one leaf and no other |
| HuffmanShape.PathsApart | lib/codec.c:328-368 | codes of different symbols are not prefixes of each other |
| HuffmanShape.TreeOfText | lib/codec.c:253-260 | the tree of a text counts every byte of it and its root counts the length |
| HuffmanShape.HuffmanIsOptimal | lib/codec.c:370-417 | for every non-empty text the encoded length is at most that of any other prefix code for it |
| HuffmanShape.MergeIsBalanced | lib/codec.c:400-414 | in the built tree no grandchild is heavier than its uncle |
| HuffmanShape.LeftIsLighter | lib/codec.c:400-414 | in the tree of every table the left child is never the heavier one: the zero bit goes to the lighter side |
| HuffmanShape.HeightCosts | lib/codec.c:400-414 | such a tree of height h has a count of at least Fib(h + 2) |
| HuffmanShape.DepthNeedsFibonacci | lib/codec.c:400-414 | the tree of every frequency table obeys that bound |
| HuffmanShape.CodesFitU64 | lib/codec.c:345-362 | below Fib(67) bytes every code fits the 64-bit field |
| HuffmanCodec.CountSymbols | lib/codec.c:253-260 | the loop counts the occurrences of each byte |
| HuffmanCodec.WriteTable | lib/codec.c:419-442 | the saved table lists exactly the symbols of non-zero count in order |
| HuffmanCodec.ReadTable | lib/codec.c:444-469 | reading a saved table sets exactly the counts in it |
| HuffmanCodec.TableRoundTrip | lib/codec.c:419-469 | the decoder gets back the counts the encoder saved |
| HuffmanCodec.Reverse | lib/codec.c:345-362 | the bit loop turns a code built first bit high into one read first bit low |
| HuffmanCodec.SetCode | lib/codec.c:328-368 | the recursion gives every symbol its path from the root, low bit first, and its length, and touches no other symbol |
| HuffmanCodec.FillByte | lib/codec.c:537-560 | one turn of the packer loses no bit: the byte and what remains of the code are the old byte followed by the code |
| HuffmanCodec.PutCode | lib/codec.c:537-561 | the whole inner loop appends exactly the bits of one code |
| HuffmanCodec.PackText | lib/codec.c:515-571 | the file is the codes of the text in order, then zeros, in the fewest whole bytes: a last byte is written exactly when bits are left over |
| HuffmanCodec.DecodeBytes | lib/codec.c:628-671 | the loops over bytes and bits walk the tree along the bits of the file |
| HuffmanCodec.WalkEncoded | lib/codec.c:628-671 | whatever follows, walking the codes of a text gives the text |
| HuffmanCodec.WalkPadding | lib/codec.c:628-671 | n zero bits decode to floor(n / depth of the leftmost leaf) copies of its symbol |
| HuffmanCodec.DecodeOfEncode | lib/codec.c:515-671 | a decoded file is the text followed by one copy of the leftmost symbol for every time its code fits into what the last byte has left |
| HuffmanCodec.RoundTripIff | lib/codec.c:515-671 | the file decodes to the text if and only if the last byte has fewer bits left than the leftmost path has steps |
| HuffmanCodec.WholeBytesRoundTrip | lib/codec.c:563-571 | a text whose code fills whole bytes always comes back |
| HuffmanCodec.OneSymbolIsZeros | lib/codec.c:515-571 | the code of a text of one symbol is one zero bit for each byte |
| HuffmanCodec.TwoBytesDoNotRoundTrip | lib/codec.c:515-671 | two different bytes take two bits, so the file is one byte, which decodes to them and six more copies of one |
| HuffmanCodec.RoundTripWithLength | lib/codec.c:515-671 | cutting at the sum of the saved counts restores every text of two distinct symbols |
| HuffmanCodec.EncodedLength | lib/codec.c:515-571 | the number of code bits written is the weighted path length of the optimality theorem |
| HuffmanCodec.HuffmanEncode | lib/codec.c:476-574 | the whole encoder: the saved table, and the codes of the text in the fewest whole bytes, filled up with zeros |
| HuffmanCodec.HuffmanDecode | lib/codec.c:609-674 | the whole decoder: the tree of the saved table walked along the bits |
| HuffmanCodec.EncodeThenDecode | lib/codec.c:476-674 | the decoder run on what the encoder wrote gives a text that begins with the input, and equals it if and only if the bits left in the last byte are fewer than the steps of the leftmost path; so always when the code fills whole bytes |
| Lz77.MatchIsMaximal | lib/codec.c:37-37 | the inner loop finds equal bytes and stops only at the end of the data, the end of the window or a difference |
| Lz77.BestIsLongest | lib/codec.c:30-46 | comparing the places from the left and keeping only a longer match finds the longest match of all, and the leftmost |
| Lz77.GetNode | lib/codec.c:25-46 | the node is the longest stretch of the window that goes on like the text, the leftmost of that length, and the byte behind it |
| Lz77.TokenCopies | lib/codec.c:71-87 | a node expands to the data it was made from |
| Lz77.GreedySnoc | lib/codec.c:117-147 | one more greedy node keeps a greedy parse greedy |
| Lz77.Encode | lib/codec.c:89-150 | for every length the head and the nodes decode to the input, and the nodes are its greedy parse: each is the longest match where it starts, one byte shorter exactly when the match ends with the data, and together they cover all of it |
| Lz77.Window.constructor | lib/codec.c:48-52 | the circular window starts as the first bytes of the data |
| Lz77.Window.Append | lib/codec.c:54-69 | in every position of the head the circular window becomes the last bytes of the old one and the appended ones |
| Lz77.Window.AppendNode | lib/codec.c:71-87 | reading across the end of the circular buffer gives the same bytes as the window in order |
| Lz77.WrappedRead | lib/codec.c:71-87 | the two-part copy from the buffer is one slice of the buffer read from its head |
| Lz77.WrappedAppend | lib/codec.c:54-69 | the two-part copy into the buffer, overlapping itself for 256 bytes, is the appended window read from the new head |
| Lz77.Decode | lib/codec.c:173-239 | the decoder with its circular window computes the window-free expansion |
| Lz77.RoundTrip | lib/codec.c:89-239 | decode of encode is the identity for every input |
| EpollScheduler.EpollService.PostEpollEvent | cpp/EpollService.cpp:46-68 | links an idle client at the tail, marks it pending, and wakes or spawns a daemon as the counters say |
| EpollScheduler.EpollService.QueueIdle | cpp/EpollService.cpp:52-66 | the branch for a self-linked client |
| EpollScheduler.EpollService.Append | cpp/EpollService.cpp:53-62 | the pointer writes append one client to the linked queue |
| EpollScheduler.EpollService.Relink | cpp/EpollService.cpp:175-182 | the same writes in the daemon append one client that no list holds |
| EpollScheduler.EpollService.Notify | cpp/EpollService.cpp:57-57 | a notify wakes one sleeper if there is one |
| EpollScheduler.EpollService.DaemonStarted | cpp/EpollService.cpp:127-131 | a started thread is counted |
| EpollScheduler.EpollService.DaemonTop | cpp/EpollService.cpp:137-165 | at the top a daemon takes the head, or exits when more than the minimum are ready, or sleeps |
| EpollScheduler.EpollService.TakeHead | cpp/EpollService.cpp:162-163 | the head leaves the queue, is owned, and is not pending any more |
| EpollScheduler.EpollService.DaemonWoken | cpp/EpollService.cpp:151-153 | a daemon that wakes, also spuriously, leaves the ready count |
| EpollScheduler.EpollService.DaemonDone | cpp/EpollService.cpp:167-186 | after the call the client is dead, queued again or idle, as its answer and its pending mark say (FinishDecides) |
| EpollScheduler.EpollService.PutDown | cpp/EpollService.cpp:172-185 | a client that asked for another turn, or was posted to while it was owned, is queued again; any other is self-linked |
| EpollScheduler.StepKeepsInv | cpp/EpollService.cpp:46-196 | every critical section of posters and daemons keeps the invariant |
| EpollScheduler.RunKeepsInv | cpp/EpollService.cpp:46-196 | every state of every interleaving satisfies it |
| EpollScheduler.ExactlyOnePlace | cpp/EpollService.cpp:46-196 | in every interleaving each client is in exactly one of idle, queued once, owned, dead |
| EpollScheduler.PostedStaysVisible | cpp/EpollService.cpp:46-196 | an event posted is still pending, and its client not idle, until a daemon takes the client; a daemon that finishes in between requeues it |
| EpollScheduler.PendingIff | cpp/EpollService.cpp:46-196 | in every interleaving a client is marked pending if and only if an event was posted to it since it was last taken |
| EpollScheduler.FinishDecides | cpp/EpollService.cpp:167-186 | in every interleaving a client that is put down is dead if and only if its answer was negative, idle if and only if it was 0 and no event was posted since it was taken, and in the queue otherwise |
| EpollScheduler.QueuedUntilTaken | cpp/EpollService.cpp:46-196 | a queued client stays queued until a daemon takes it |
| EpollScheduler.AskedForStaysQueued | cpp/EpollService.cpp:174-182 | a client whose answer was positive is in the queue and never idle until a daemon takes it again |
| EpollScheduler.QueuedWorkHasADaemon | cpp/EpollService.cpp:46-196 | with a daemon maximum of at least 1 a non-empty queue always has a running, woken or spawning daemon |
| EpollScheduler.NoDaemonsNoService | cpp/EpollService.cpp:64-66 | with a maximum of 0 no daemon ever exists and nothing is served |
| EpollScheduler.DaemonsAreCounted | cpp/EpollService.cpp:121-196 | in every interleaving the daemons counted are those started less those gone, the ready ones those asleep less those woken, and the clients in hand those taken less those put down |
| EpollScheduler.ReadyIsBounded | cpp/EpollService.cpp:140-153 | in every interleaving at most one daemon more than the minimum waits, and one leaves only when that many do |
| EpollScheduler.PostCosts | cpp/EpollService.cpp:52-66 | a thread is created exactly for an event of an idle client when no daemon waits and fewer than the maximum are busy; one is notified exactly when such a client enters an empty queue and one sleeps |
| EpollScheduler.MaximumIsExceeded | cpp/EpollService.cpp:64-66 | a run in which two daemons are busy where the maximum is one |
| EpollScheduler.QueueIsFifo | cpp/EpollService.cpp:46-196 | a step takes only the head and adds at most one client at the tail |
| EpollScheduler.HeadCanBeServed | cpp/EpollService.cpp:127-165 | from every state with a non-empty queue at most two steps give its head to a daemon |
| EpollFraming.AppendToStream | cpp/EpollClient.cpp:270-326 | decoding two pieces one after the other is decoding their concatenation |
| EpollFraming.ReadOn | cpp/EpollClient.cpp:270-326 | while nothing was refused and no length was too long, reading goes on with the rest: handed-over packets and the way it ends compose |
| EpollFraming.ReadNoFurther | cpp/EpollClient.cpp:177-217 | after a refusal or in the endless loop later bytes change nothing |
| EpollFraming.ReadingIsPrefix | cpp/EpollClient.cpp:270-326 | what is handed over is a prefix of the packets of the stream, all accepted but a refused last one, and all of them while the reading is open |
| EpollFraming.OpenIff | cpp/EpollClient.cpp:270-326 | the reading stays open if and only if no packet of the stream is refused and no prefix of it ends in a length above 32768 |
| EpollFraming.PacketsOfFrames | cpp/EpollClient.cpp:270-326 | the receiver reads the length-prefixed frames of any packets shorter than 65536 bytes as those packets, with nothing left over |
| EpollFraming.PrefixOfFrames | cpp/EpollClient.cpp:270-326 | every prefix of the bytes of the frames is read as a prefix of the packets |
| EpollFraming.DoublingEndsIff | cpp/EpollClient.cpp:306-306 | the 16-bit doubling of the buffer size reaches a length if and only if it is at most 32768 |
| EpollFraming.GrownSize | cpp/EpollClient.cpp:306-306 | below that bound the loop gives the least doubling that is large enough, and at most 32768 |
| EpollFraming.EpollClientPacked.OnEpollDataReceived | cpp/EpollClient.cpp:270-326 | consumes at least one and at most all bytes; packets handed over and the way the call ends (normal, refused, endless) are exactly those of reading all bytes consumed so far |
| EpollFraming.EpollClientPacked.TakeBody | cpp/EpollClient.cpp:272-291 | the branch inside a packet, with the same exact outcome |
| EpollFraming.EpollClientPacked.FillBody | cpp/EpollClient.cpp:273-281 | packet bytes are collected in place |
| EpollFraming.EpollClientPacked.TakeHeader | cpp/EpollClient.cpp:293-325 | the branch inside a header, with the same exact outcome |
| EpollFraming.EpollClientPacked.FillHeader | cpp/EpollClient.cpp:24-37 | header bytes are collected in place |
| EpollFraming.EpollClientPacked.MakeRoom | cpp/EpollClient.cpp:300-311 | a buffer that is too small is replaced by one that is large enough and at most 32768 bytes |
| EpollFraming.EpollClientPacked.StartPacket | cpp/EpollClient.cpp:297-323 | a complete header starts a packet, delivers an empty one, or enters the endless loop, exactly as the reading says |
| EpollFraming.EpollClientPacked.OnEpollIn | cpp/EpollClient.cpp:177-217 | the loop ends for every read of up to 4096 bytes, and its outcome is that of reading everything up to the end of this read |
| EpollFraming.ReceiveAll | cpp/EpollClient.cpp:177-326 | for every way of cutting a stream into reads, for a packet handler whose answers may depend on everything before, the packets passed on and the way it ends are those of reading the whole stream at once; it ends normally if and only if no packet is refused and no length is above 32768 |
| EpollFraming.EpollClient.SendEpollPacket | cpp/EpollClient.cpp:136-154 | a packet is queued behind the others, and the client is posted to the scheduler exactly when none was queued and EPOLLOUT is among its events |
| EpollFraming.EpollClient.OnEpollOut | cpp/EpollClient.cpp:219-247 | for every list of answers the socket takes exactly the bytes those answers allow, packet by packet from the current offset on; a drained queue means that all of them were sent; the result names the last answer, and EPOLLOUT is cleared exactly when the socket would block |
| EpollFraming.EpollClient.WriteHead | cpp/EpollClient.cpp:39-58 | one write offers the rest of the first packet; what the socket takes of it is added to the bytes sent, and the offset moves by exactly that, or the packet is done |
| EpollFraming.Socket.Write | cpp/EpollClient.cpp:43-43 | the socket takes a beginning of the bytes it is offered, as long as its answer says |
| EpollFraming.SentStep | cpp/EpollClient.cpp:225-243 | what successive writes send is what the first takes, and what the others take of the other packets if it took the packet whole |
| EpollFraming.FramesNeverLoop | cpp/EpollClient.cpp:306-306 | frames of packets of at most 32768 bytes never catch a receiver in the doubling loop |
| EpollFraming.Transport | cpp/EpollClient.cpp:136-326 | from end to end: the bytes the socket took of framed packets, in whatever portions, and read in any others, hand over a prefix of the packets sent, and all of them when everything was written and nothing refused |
| Calculator.GetBracketPair | lib/calculator.c:48-82 | the loop returns the first place where the count of its own kind falls to zero |
| Calculator.ScanFindsPartner | lib/calculator.c:48-148 | counting one kind of bracket finds the partner of the matching stack |
| Calculator.PairIsPartner | lib/calculator.c:48-148 | in every text the stack check accepts, the counter finds the true partner of every opening bracket |
| Calculator.CheckBracketMatchPair | lib/calculator.c:84-148 | the loop with its stack of ten is the recursive check, errors included |
| Calculator.CheckIff | lib/calculator.c:84-148 | the check accepts a formula, of whatever tokens, if and only if its brackets match and are nested at most ten deep |
| Calculator.CheckPasses | lib/calculator.c:84-148 | over matching text the check passes unless more than ten brackets would be open |
| Calculator.Unnest | lib/calculator.c:84-148 | what the check accepts is taken apart into matching text |
| Calculator.Stack.Push | lib/calculator.c:289-313 | a push is refused exactly when the buffer is full |
| Calculator.Stack.Pop | lib/calculator.c:341-341 | a pop returns and removes the newest element, or reports an empty stack |
| Calculator.SimpleOperation2 | lib/calculator.c:168-208 | takes two operands and leaves their result; missing operands and the operator % are errors |
| Calculator.ModHasNoValue | lib/calculator.c:168-208 | a formula with a % anywhere in it, inside brackets or out, is an error whatever stands around it |
| Calculator.ApplyWaiting | lib/calculator.c:334-342 | applies, newest first, all waiting operators that bind at least as tightly |
| Calculator.OperatorStackStaysShort | lib/calculator.c:328-349 | one token of any formula leaves the waiting priorities strictly increasing, so at most two operators wait |
| Calculator.TwoOperatorsAreEnough | lib/calculator.c:292-388 | over the whole scan of any formula, well-formed or not, room for two operators gives the same result as any more |
| Calculator.RisingIsShort | lib/calculator.c:150-166 | strictly increasing priorities are at most two |
| Calculator.ScanBracket | lib/calculator.c:294-317 | a bracket pushes the value of its inside and continues behind its partner |
| Calculator.ScanOperator | lib/calculator.c:328-349 | an operator first applies those that bind at least as tightly, then waits |
| Calculator.FinishFormula | lib/calculator.c:368-388 | the end applies all waiting operators and wants exactly one operand |
| Calculator.ScanFormula | lib/calculator.c:292-388 | the scanning loop computes the recursive machine on the stacks |
| Calculator.SimpleCalculationBase | lib/calculator.c:262-396 | the two-stack evaluator computes the recursive function, errors included |
| Calculator.SimpleCalculation | lib/calculator.c:398-418 | the check of the brackets, then the evaluator |
| Calculator.RunText | lib/calculator.c:292-366 | with room for three operands and two operators, after the text of an expression in any context its value stands where the machine needs it |
| Calculator.BaseOfText | lib/calculator.c:262-396 | for every expression over + - * / with brackets, with room for three operands and two operators, the evaluator gives its value as a left-associative precedence tree |
| Calculator.EnoughIff | lib/calculator.c:272-282 | the evaluator serves all expressions if and only if there is room for at least three operands and two operators |
| Calculator.CheckOfText | lib/calculator.c:84-148 | the bracket check accepts the text of an expression exactly when its nesting is at most ten |
| Calculator.CalculateIsEval | lib/calculator.c:398-418 | the calculation of the text without blanks is the value of the tree if the nesting is at most ten, and an error otherwise |
| CalculatorBlanks.ScanOfStrip | lib/calculator.c:48-82 | the bracket found in a formula with its blanks removed is the one found with them |
| CalculatorBlanks.RunOfStrip | lib/calculator.c:292-366 | for any formula at all, blanks that hide no leading sign of a bracket change nothing in the scan |
| CalculatorBlanks.BothCount | lib/calculator.c:292-388 | two scans of one formula, with and without blanks, can both succeed only if they began with equally many operands too many |
| CalculatorBlanks.RunLacks | lib/calculator.c:292-388 | a scan that begins with fewer operands than a successful one succeeds or reports a missing operand |
| CalculatorBlanks.BlanksDoNoHarmIff | lib/calculator.c:284-355 | a formula accepted without its blanks has the same value with them if and only if no blank stands between the start of the formula, or an opening bracket, and a leading sign; otherwise an operand is missing |
| CalculatorBlanks.BaseOfSpaced | lib/calculator.c:262-396 | any spacing of any expression is given its value under exactly that condition |
| CalculatorBlanks.CalculateSpaced | lib/calculator.c:398-418 | the whole calculation of any spacing of any expression: its value exactly for a nesting of at most ten and no hidden sign, and an error otherwise |
| CalculatorBlanks.BlankHidesSign | lib/calculator.c:284-290 | "-3" has a value and " -3" has none |
| Cftp.SendLoop.constructor | lib/cftp.c:685-697 | the client waits for the acknowledgement of its request; the server sends the first block at once |
| Cftp.SendLoop.NextBlock | lib/cftp.c:471-489 | the next block is read, numbered and sent, with the timer running |
| Cftp.SendLoop.OnAckMessage | lib/cftp.c:462-494 | one turn of either sending loop: the next block, the last block again, the end, or, in the client at counter zero, nothing, without a timer |
| Cftp.SendLoop.ReadBlock | lib/cftp.c:471-479 | the file is read block by block, the last one short |
| Cftp.ReceiveLoop.OnDataMessage | lib/cftp.c:577-602 | one turn of the receiving loop: the awaited block is written once, every packet is answered |
| Cftp.ChunksJoin | lib/cftp.c:471-479 | the blocks joined in order are the file |
| Cftp.ShortIff | lib/cftp.c:463-464 | a block is short exactly when it reaches the end of the file, also for sizes that are whole multiples |
| Cftp.StepKeepsInv | lib/cftp.c:448-610 | in both directions every arrival, loss, repetition and timeout keeps the invariant of both ends and both channels |
| Cftp.RunKeepsInv | lib/cftp.c:448-740 | every state of every run satisfies it |
| Cftp.TransferIsFaithful | lib/cftp.c:448-740 | in every run the bytes written are a prefix of the file, the block counters differ by at most one, and the sender reports completion only when the whole file is written |
| Cftp.BlocksTaken | lib/cftp.c:448-502 | a completed transfer used size / block + 1 blocks |
| Cftp.DeafStep | lib/cftp.c:449-485 | every step at all leaves a sender deaf that ignored an acknowledgement after its block was lost, and nothing is written |
| Cftp.DeafForever | lib/cftp.c:449-485 | no continuation from such a state finishes on either end or writes anything |
| Cftp.StaysHopeless | lib/cftp.c:448-610 | neither a deaf sender nor one that missed the last acknowledgement ever succeeds |
| Cftp.AwaitBlock | lib/cftp.c:53-76 | while a block is awaited some arrival or timer brings it nearer |
| Cftp.AwaitAck | lib/cftp.c:53-76 | while an acknowledgement is awaited some arrival or timer brings it nearer |
| Cftp.CompletesIff | lib/cftp.c:448-740 | from any state the invariant allows, the transfer can still end with success if and only if the sender is neither deaf nor has missed the last acknowledgement, and then arrivals and timers alone do it |
| Cftp.ReceiverRevivesIff | lib/cftp.c:481-493 | after a lost block the receiver alone can bring it back if and only if it is heard: the client's counter is not zero, or the client as the receiver has something to acknowledge |
| Cftp.SmoothRun | lib/cftp.c:448-740 | in both directions a run without losses gets past any number of full blocks |
| Cftp.UnansweredIsReached | lib/cftp.c:593-596 | for every file a run ends with the file complete and the sender without its last acknowledgement |
| Cftp.DeafIsReachedIff | lib/cftp.c:481-489 | some run makes the sender deaf if and only if the client sends and the file has at least 65535 full blocks |
| CavanCache.Cache.FreeSpace | lib/cache.c:469-476 | free space and contents add up to size - 1 |
| CavanCache.Cache.UsedSpace | lib/cache.c:478-485 | used space is the length of the contents |
| CavanCache.Cache.WriteSome | lib/cache.c:498-566 | one critical section of a writer appends as much as fits, around the end of the memory, and keeps written = read + contents |
| CavanCache.Cache.Store | lib/cache.c:543-556 | the one- or two-part copy appends the piece to the contents |
| CavanCache.Cache.StoreAround | lib/cache.c:543-556 | the two copies around the end |
| CavanCache.Cache.ReadSome | lib/cache.c:568-638 | one critical section of a reader takes the oldest bytes, at most size, and never leaves fewer than reserved |
| CavanCache.Cache.Fetch | lib/cache.c:618-631 | the one- or two-part copy removes the front of the contents |
| CavanCache.RingSize | lib/cache.c:469-485 | the ring holds tail - head bytes modulo its size |
| CavanCache.WroteRing | lib/cache.c:543-556 | either copy makes the ring the old contents followed by the piece |
| CavanCache.ReadRing | lib/cache.c:618-631 | the ring is what was read followed by what remains |
| BlockDevice.GeometryIsRightIff | lib/device.c:1895-1929 | an accepted geometry finds every byte at every index and offset if and only if the size was a power of two, or was computed from a shift below 16 |
| BlockDevice.InitRefusesIff | lib/device.c:1895-1929 | a geometry is refused if and only if neither size nor shift is given, or both are and the shift is not the lowest bit of the size |
| BlockDevice.SoundLocates | lib/device.c:1821-1822 | with a power-of-two size, also an offset beyond one block is split into the right block and place |
| BlockDevice.AndMask | lib/device.c:1822-1822 | masking with 2^k - 1 is the remainder |
| BlockDevice.Device.ReadPiece | lib/device.c:1829-1842 | one turn copies the rest of a block or of the request |
| BlockDevice.Device.PatchBlock | lib/device.c:1863-1878 | read, patch and write back changes exactly the patched bytes |
| BlockDevice.Device.WritePiece | lib/device.c:1860-1889 | one turn writes exactly its part, reading first only a block covered in part |
| BlockDevice.Device.ReadByte | lib/device.c:1817-1846 | fills the buffer with exactly the bytes of the flat disk up to the first unreadable block, and succeeds exactly when there is none |
| BlockDevice.Device.WriteByte | lib/device.c:1848-1893 | replaces exactly those bytes of the flat disk up to the first block that cannot be updated, and succeeds exactly when there is none |
| BlockDevice.WritesExactly | lib/device.c:1848-1893 | the disk written to differs in those bytes and nowhere else |
| DoubleLoopLinks.DoubleLoopLink.InsertOnly | cpp/Link.cpp:417-424 | four pointer writes put a fresh node into the cycle behind the i-th |
| DoubleLoopLinks.DoubleLoopLink.RemoveOnly | cpp/Link.cpp:436-440 | two pointer writes close the cycle over the i-th node |
| DoubleLoopLinks.DoubleLoopLink.InsertBase | cpp/Link.cpp:426-434 | insertion into any list, the empty one included |
| DoubleLoopLinks.DoubleLoopLink.RemoveBase | cpp/Link.cpp:442-459 | removal of any member; the node removed is linked to itself |
| DoubleLoopLinks.DoubleLoopLink.MoveBase | cpp/Link.cpp:461-465 | a node taken out is put between the last and the first |
| DoubleLoopLinks.DoubleLoopLink.Insert | cpp/Link.cpp:467-472 | the sequence has the node behind prev |
| DoubleLoopLinks.DoubleLoopLink.Remove | cpp/Link.cpp:474-479 | the sequence loses the node |
| DoubleLoopLinks.DoubleLoopLink.Append | cpp/Link.cpp:481-490 | the sequence ends with the node |
| DoubleLoopLinks.DoubleLoopLink.Push | cpp/Link.cpp:492-502 | the sequence begins with the node |
| DoubleLoopLinks.DoubleLoopLink.Pop | cpp/Link.cpp:504-516 | takes the first node, or reports an empty list |
| DoubleLoopLinks.DoubleLoopLink.DelTail | cpp/Link.cpp:518-530 | takes the last node, or reports an empty list |
| DoubleLoopLinks.DoubleLoopLink.GetTailNode | cpp/Link.cpp:539-548 | the last node, or none |
| DoubleLoopLinks.DoubleLoopLink.Traversal | cpp/Link.cpp:550-607 | the loop ends and visits every node once in order; its count is the length |
| DoubleLoopLinks.DoubleLoopLink.Find | cpp/Link.cpp:567-586 | the first node the matcher accepts, or none when it accepts none |
| DoubleLoopLinks.DoubleLoopLink.SetTop | cpp/Link.cpp:609-614 | the rotation that begins with the node |
| DoubleLoopLinks.DoubleLoopLink.SetTail | cpp/Link.cpp:616-621 | the rotation that ends with the node |
| DoubleLoopLinks.DoubleLoopLink.MoveToTop | cpp/Link.cpp:623-634 | the exact permutation: the node first, all others in order |
| DoubleLoopLinks.DoubleLoopLink.MoveToTail | cpp/Link.cpp:636-647 | the exact permutation: the node last, all others in order |
| DoubleLoopLinks.RotatedRing | cpp/Link.cpp:609-621 | where the list begins does not matter to the cycle |
| LoopLinks.LoopLink.InsertBase | cpp/Link.cpp:233-242 | behind the i-th node, and behind the tail as the new top |
| LoopLinks.LoopLink.RemoveBase | cpp/Link.cpp:244-256 | removal through the node before it, the tail and the only node included |
| LoopLinks.LoopLink.FindPrevNode | cpp/Link.cpp:258-269 | the walk from a member ends at the node before it |
| LoopLinks.LoopLink.Remove | cpp/Link.cpp:285-293 | the sequence loses the node |
| LoopLinks.LoopLink.Append | cpp/Link.cpp:295-301 | the sequence ends with the node |
| LoopLinks.LoopLink.Push | cpp/Link.cpp:303-308 | the sequence begins with the node |
| LoopLinks.LoopLink.Pop | cpp/Link.cpp:310-322 | takes the first node, or reports an empty list |
| LoopLinks.LoopLink.SetTop | cpp/Link.cpp:335-340 | the rotation that begins with the node |
| LoopLinks.LoopLink.SetTail | cpp/Link.cpp:342-347 | the rotation that ends with the node |
| LoopLinks.LoopLink.HasNode | cpp/Link.cpp:356-375 | true exactly for members, for any node asked about |
| LoopLinks.RotatedCycle | cpp/Link.cpp:335-347 | where the list begins does not matter to the cycle |
| Bcrypt.EncipherBlock | lib/bcrypt.c:449-474 | the unrolled rounds in place compute the sixteen half rounds and the final swap |
| Bcrypt.Substitute | lib/bcrypt.c:458-461 | the four table reads of a round |
| Bcrypt.RoundOfBytes | lib/bcrypt.c:458-461 | for every word put together of four bytes, the entries of the first two boxes are added, that of the third mixed in and that of the fourth added, in 32 bits |
| Bcrypt.EntryOf | lib/bcrypt.c:458-461 | the four boxes stand one behind the other in the table |
| Bcrypt.HalvesRunBack | lib/bcrypt.c:449-474 | with the keys reversed the half rounds of the cipher block are those of the plain block in reverse order |
| Bcrypt.DecipherEncipher | lib/bcrypt.c:449-474 | for arbitrary keys and tables, enciphering with the keys reversed undoes enciphering |
| Bcrypt.EncipherIsInjective | lib/bcrypt.c:449-474 | no two blocks have the same cipher block |
| Bcrypt.EncipherIsOnto | lib/bcrypt.c:449-474 | every block is the cipher block of another |
| Bcrypt.EveryKeyCounts | lib/bcrypt.c:449-474 | changing any one of the eighteen subkeys changes the cipher block of every block |
| Crc.UpdateIsDivision | lib/crc.c:113-135 | for every register whose addition and shift obey the laws of polynomials, the byte loop leaves the remainder of bit-by-bit division of the message with as many zero bits behind it as the register is wide |
| Crc.UpdateAppend | lib/crc.c:113-135 | the loop over a concatenation is the loop over the second part begun with the register the first part left |
| Crc.UpdateIsOneToOne | lib/crc.c:113-135 | different registers stay different over every buffer |
| Crc.UpdateWord | lib/crc.c:113-135 | a message acts on the register like one word added to it |
| Crc.BurstIsSeen | lib/crc.c:113-135 | messages that differ only in a stretch whose words differ never leave the same register |
| Crc32.TableIsEightShifts | lib/crc.c:58-111 | every one of the 256 table entries is its index shifted eight times through the generator |
| Crc32.CodeIsBytewise | lib/crc.c:124-135 | the 32-bit register, least significant bit first, obeys those laws, and one table read is eight shifts |
| Crc32.UpdateIsDivision | lib/crc.c:124-135 | for every register and buffer the table loop leaves the remainder of bit-by-bit polynomial division of the message with 32 zero bits behind it |
| Crc32.CavanCrc32 | lib/crc.c:124-135 | the loop over the buffer computes that remainder, complemented before and after |
| Crc32.CrcAppend | lib/crc.c:124-135 | the checksum of a concatenation is the checksum of the second part begun with that of the first |
| Crc32.BurstIsSeen | lib/crc.c:124-135 | two messages of one length that differ only within four consecutive bytes never have the same checksum |
| Crc32.WordIsOneToOne | lib/crc.c:124-135 | different stretches of up to four bytes have different words |
| Crc16.TableIsEightShifts | lib/crc.c:23-56 | every one of the 256 table entries is its index shifted eight times through the generator |
| Crc16.CodeIsBytewise | lib/crc.c:113-122 | the 16-bit register, most significant bit first, obeys the same laws, and one table read is eight shifts |
| Crc16.UpdateIsDivision | lib/crc.c:113-122 | the table loop leaves the remainder of polynomial division of the message with 16 zero bits behind it |
| Crc16.CavanCrc16 | lib/crc.c:113-122 | the loop over the buffer computes that remainder |
| Crc16.BurstIsSeen | lib/crc.c:113-122 | two messages of one length that differ only within two consecutive bytes never have the same checksum |
| Crc16.WordIsOneToOne | lib/crc.c:113-122 | different stretches of up to two bytes have different words |

## Left out

- UDP: sockets, the channel table and its handshakes, the timer list of the socket and its threads. The handshake packet
  is submitted first and acknowledged by itself. One direction of a link is modelled; the other is the same window pair.
- UDP: a packet object is a value in its slot, so freeing memory is not modelled. The clock is an input, a failed
  allocation a choice of the step. Waiting for room in `enqueue` is its refusal.
- UdpProtocol.NoDeadEnd: says that progress is possible, not that a fair network makes it happen.
- Huffman: an empty text, for which the source reads an unset root. One symbol only gives a tree of one leaf, which the
  encoder writes with a one-bit code but the decoder would walk off; the decoder is modelled for two symbols or more.
- HuffmanCodec.HuffmanEncode: for texts shorter than Fib(67) bytes, the length below which every code fits 64 bits.
- Huffman: the text is read at once and not in pieces of 1024 bytes; the saved table is a list of pairs, not bytes.
- LZ77: the window of the decoder has one byte more than in the source, which a node as long as the window needs. The
  byte behind the end of the data, which the encoder reads for a last node, is a parameter.
- Scheduler: starting a thread succeeds, the counters do not overflow, the event mask is left out, and a client that got
  an error stays dead. The pending flag is taken as false in a new client; its constructor does not set it.
- Framing: the length header is the two-byte little-endian one; the packet handler is a function of all packets handed
  over so far, and does not touch the client itself; the queue of packets to send is a sequence. Failing memory
  allocation is left out. The code that prefixes a packet with its length belongs to the users of these classes; frames
  in that format are what the receiver expects.
- Calculator: a formula is a sequence of tokens, blanks among them; the digits of numbers are lexical. Operators are
  uninterpreted apart from their errors, so rounding is left out, and so are prefix operators and functions; `%` is the
  error it is in the simple evaluator (`ModHasNoValue`).
- File transfer: file and size arguments, error packets and the progress bar; giving up after the last retry, which ends
  a transfer without success; a request that is repeated although the data loop already runs, which the source answers
  with an error.
- Cache: a call is one critical section; waiting, timeouts and closing are left out, and so are `cavan_cache_fill` and
  `cavan_cache_read_line`. The simpler buffers of the same file are not modelled.
- BlockDevice.Init: is a function on values, where the source sets the fields of the device; a shift of 31 or more is
  left out, and so is the overflow of the 64-bit block index.
- Lists: the mutex; `getTopNode`, `traversal` and `find` of the singly linked ring, which are those of the double one.
- bcrypt: the key schedule and the base64 text form, which the kernel does not need.
- `cpp/Math.cpp`, `lib/ecc.c`, `lib/font.c` and all of `app/`: other or easier versions of what is modelled, or input
  and output only.
