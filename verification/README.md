# tensix in Dafny

Models of the parts of the tensix kernel whose correctness is not obvious from reading one function, with
proofs of what its comments, headers and structure promise. The kernel changes arrays, bitmaps, intrusive
lists and counters in place, and so do the methods here; each is proved against a value-level specification,
and the specification carries the theorems about runs and interleavings.

| component | files |
|---|---|
| page and fragment allocator | Bitmap, Pages, PageTable, FragStack, FragSets, Heap, HeapSteps, Leaks, Overflow, Blocks, Owners, Allocator |
| TCP engine, checksums and packets of uIP | Checksum, Packet, Tcp, TcpMachine, TcpReceive, TcpSend, TcpEngine, TcpOpen |
| buffer cache and syncer | Cache, CacheSteps, CacheContent, CacheUsers, CacheWraps, CacheEffects, Buffers |
| processes and locks, lists and pools | Queue, Pool, Sched, SchedEffects, Proc |
| 32-bit division from 16-bit words | LongDivision |
| I/O daemon copy loop | IoDaemon |
| path parser | Namespace |
| shared | Bytes, Common |

How the larger components fit together:

- **Allocator.** `PageTable.Table` and `FragStack.Stack` hold the real arrays. `Allocator.Memory` runs pmalloc2,
  freep and the rest on them, next to a ghost `Heap.State` whose history of events it records. `HeapSteps`
  proves the theorems about all runs of such events, with clients that write within their blocks.
- **TCP.** `Tcp` is the state machine over values, one connection with arbitrary segments and ticks;
  `TcpMachine`, `TcpReceive` and `TcpSend` prove its theorems; `TcpEngine.Connection` has the fields of struct uip_conn
  and changes them as uip_process does.
- **Cache.** `Cache` has the events, `CacheSteps` the accounting, `CacheContent` the transparency, `CacheUsers`
  what a process can rely on that refers to a buffer, `CacheWraps` when the byte that counts references fails,
  and `Buffers.BufferCache` the loops and restarts. A driver is a map from block number to data. The methods
  that free buffers are proved for every state whose lists are in order, and say exactly when they do harm.
- **Processes.** `Sched` is the machine of all interleavings, where a step is a stretch of code between
  SWITCH_OFF and SWITCH_ON; `Proc.Kernel` does the same on rings of linked records.

Parameters stand for what lies outside: what bref and kmalloc can deliver, whether fs_init_proc fails, what
the application and the peer do, the memory layout, page and fragment sizes.

## Model

| member | source | states |
|---|---|---|
| Pages.InfoRoundTrip | include/mem.h:50-86 | The page-info byte gives back class, continuation flag and owner exactly if the owner id fits into the bits left over; otherwise exactly the high bits of the id are lost |
| Pages.ChainHasOneOwner | kern/mem/mem.c:70-98 | Every used unlocked page begins a stretch of pages of one owner in which only the last lacks PCONT: the pages the loop of mem_pages_unref walks over |
| Pages.UnrefChain | kern/mem/mem.c:70-98 | Given the first page of a chain, mem_pages_unref frees exactly the chain |
| Pages.UnrefFragments | kern/mem/mem.c:70-98 | Given a page of fragments, it frees that page alone |
| Pages.CountFreeUpdate | include/mem.h:98-118 | The number of clear bits moves by one with each page that changes between free and used |
| Pages.CountFreeRefRun | kern/mem/mem.c:52-68 | Taking a run of free pages lowers the number of free pages by its length |
| Pages.CountFreeFreeRun | kern/mem/mem.c:84-90 | Freeing a run raises it by its length |
| Pages.CountFreeLockRun | kern/mem/mem.c:100-113 | Locking counts only the pages that were not locked before |
| Pages.CountFreeKill | kern/mem/mem.c:535-549 | mem_kill_proc raises the number of free pages by the number of unlocked pages of that owner |
| Pages.KillKeepsChains | kern/mem/mem.c:535-549 | mem_kill_proc leaves all other chains in order |
| PageTable.Table.PageAlloc | kern/mem/mem.c:45-50 | One page becomes used with its info byte, all other bits and bytes stay, the counter falls by one |
| PageTable.Table.PageFree | include/mem.h:98-102 | One page becomes free, all others stay, the counter rises by one |
| PageTable.Table.PagesRef | kern/mem/mem.c:52-68 | A run is entered with PCONT on all pages but the last, its bytes are zero, all other bytes are as before |
| PageTable.Table.PagesUnref | kern/mem/mem.c:70-98 | Nothing for a page that continues the previous one, otherwise the chain is freed and counted |
| PageTable.Table.PagesLock | kern/mem/mem.c:100-113 | Locks the pages of a run that are not locked yet and counts only those |
| PageTable.Table.SinglePageAlloc | kern/mem/mem.c:116-152 | Takes the highest free page but page 0, cleared; 0 only if every other page is in use |
| PageTable.Table.PagesAlloc | kern/mem/mem.c:155-185 | Takes and clears a single page or the first run that the search can find; changes nothing exactly if there is none (a run at page 0 counts as none) |
| PageTable.Table.KillProc | kern/mem/mem.c:535-549 | Frees exactly the unlocked used pages of the owner |
| Bitmap.Set | include/bitmap.h:25-29 | Exactly one bit changes |
| Bitmap.Seek | lib/bitmap.c:20-54 | From any start the search ends with the first run of that many clear bits among those that it can find: a run must end before the last bit, and the jump over full bytes passes the first bits of the byte behind them |
| Bitmap.SeekMisses | lib/bitmap.c:28-31 | Two free bits that are therefore never found: the search is not a complete first fit |
| Bitmap.SeekTop | kern/mem/mem.c:130-142 | The highest clear bit of the whole map |
| FragStack.Stack.Push | include/queue.h:42-48 | Appends an entry, or changes nothing if the stack is full |
| FragStack.Stack.Pop | include/queue.h:50-55 | Removes and returns the last entry; nothing for an empty stack |
| FragStack.Stack.Sort | kern/mem/mem.c:208-238 | mem_frag_sort leaves a permutation sorted by page |
| FragStack.OrderIrrelevant | kern/mem/mem.c:256-297 | Which pages are complete and which entries remain does not depend on the order of the stack |
| FragStack.TooFewForAPage | kern/mem/mem.c:252-254 | The early return is right: a stack smaller than a page holds no complete page |
| FragStack.GroupIsWholePage | kern/mem/mem.c:263-269 | After sorting, the group the loop finds is all the stack holds for that page |
| FragStack.CleanStack | kern/mem/mem.c:243-298 | As a multiset exactly the entries of incomplete pages stay; each complete page is freed once, and the free count rises by the number of complete pages |
| FragSets.CountsAllPieces | kern/mem/mem.c:271-272 | Counting a group to 2^fs means that every piece of the page is free |
| FragSets.CompleteIsFull | kern/mem/mem.c:243-298 | The pages that the cleanup finds by counting are exactly those all of whose pieces are on the stack |
| FragSets.WithoutIsOffPages | kern/mem/mem.c:271-293 | What remains is the set of free fragments without those pages |
| Heap.LiveBlocksDisjoint | kern/mem/mem.c:316-432 | No byte belongs to two live blocks, whether runs of pages or fragments |
| Heap.LiveBlocksUnlocked | kern/mem/mem.c:100-113 | Live blocks lie on used, unlocked pages of their owner |
| Heap.StackedIsNotLive | kern/mem/mem.c:360-432 | A fragment on a stack shares no byte with a live block |
| Heap.PieceIsStretch | include/mem.h:144-151 | Piece idx of a page is the stretch of FRAGSIZE bytes from idx * FRAGSIZE on, within the page |
| HeapSteps.StepKeepsInv | kern/mem/mem.c:316-626 | Taking runs and pieces, dividing pages, freeing, cleaning stacks, killing an owner and client writes all keep the invariant of the whole allocator |
| HeapSteps.RunKeepsInv | kern/mem/mem.c:316-626 | So does every run of them |
| HeapSteps.RunKeepsBlocksApart | kern/mem/mem.c:316-626 | In every run live blocks are pairwise disjoint and off locked pages, and the free counter is the number of clear bits; stack pages are live blocks themselves |
| HeapSteps.NewBlocksAreZero | kern/mem/mem.c:52-68 | In every run each block is new and all zero when it is handed out, as pages are cleared on allocation and fragments when they are freed |
| HeapSteps.BlockKeepsContents | kern/mem/mem.c:316-626 | While a block stays live and its holder does not write, no call for anyone changes a byte of it |
| Leaks.RunLeaksExactly | kern/mem/mem.c:360-432 | In a run from a state without leaks every used page belongs to a live run, and every piece of a divided page is live or on its stack, exactly if each owner of a fragment that did not fit on its stack has been killed since |
| Leaks.OverflowLeaks | kern/mem/mem.c:423-427 | A fragment freed while its stack is full is lost |
| Leaks.LostStaysLost | kern/mem/mem.c:243-298 | It stays lost until its owner is killed, as its page never becomes complete |
| Overflow.StackOverflows | kern/mem/mem.c:398-433 | From any state with one more free page than a stack has entries, such as that after mem_init, calls of pmalloc2 and freep fill the stack, and the last half that is given back is lost |
| HeapSteps.CleansStackKeepsInv | kern/mem/mem.c:243-298 | Giving complete pages back leaves every live block, stack and counter right |
| HeapSteps.KillsOwnerKeepsInv | kern/mem/mem.c:535-549 | Killing an owner leaves everything of all other owners right |
| Blocks.AddressRoundTrip | include/mem.h:55-63 | From the address of a fragment ADDR2PAGE, ADDR2FRAGIDX and IS_ILLEGAL_FRAG find its page, its index and a legal boundary |
| Blocks.IndexCastExact | include/mem.h:157-159 | The cast inside ADDR2FRAGIDX is harmless exactly for offsets below 256, hence for pages of at most 256 bytes |
| Blocks.SizeClass | kern/mem/mem.c:371-374 | The smallest fragments that are large enough |
| Blocks.RoundedIsCeiling | kern/mem/mem.c:436 | ROUNDBLEN is the smallest number of pages that holds the request |
| Blocks.RunIsLargeEnough | kern/mem/mem.c:573 | After the cut to pagenum_t a run is large enough exactly if the page count fits pagenum_t |
| Blocks.StackFillsPage | include/queue.h:42-48 | A full stack and its header fill its page but for less than one entry |
| Blocks.CoversIsRange | include/mem.h:55-63 | The bytes that a block covers are those of its address range |
| Owners.Proc.Clean | kern/mem/mem.c:243-298 | On a stack that holds a set of free fragments, exactly the full pages and their pieces go |
| Owners.Proc.Fill | kern/mem/mem.c:337-354 | Pushing a new page fills the empty stack with all pieces; the roll-back for a full stack is never reached after the check of FRAGSPACE |
| Allocator.MemInit | kern/mem/mem.c:454-512 | From cleared tables: the locked pages are page 0, those of the kernel, of its stack and of the tables page_map and page_list, all of which are locked exactly if each table is smaller than a page or a multiple of it; then the tables also lie apart from each other and from the stacks. One page of its own for each kernel stack, nothing leaked, every other page free |
| Allocator.TablesSafeExactly | kern/mem/mem.c:477-496 | As byte ranges, page_map and page_list lie on locked pages, apart from each other and from the pages of the stacks, exactly if each of the two is smaller than a page or a multiple of it, as their page counts are rounded down |
| Allocator.DocumentedTables | include/config.h:212-219 | With the documented sizes page_map is on page 96 and page_list on page 97, and the first stack follows on page 98 |
| Allocator.TablesOverlap | kern/mem/mem.c:477-496 | With pages of 16 bytes and 24 of them page_list runs into the first stack |
| Allocator.Memory.InitProc | kern/mem/mem.c:519-530 | A process gets one page per stack, each zero and therefore an empty stack; it fails only if every page is in use |
| Allocator.Memory.FragAddPage | kern/mem/mem.c:316-357 | Puts all pieces of a fresh page on the empty stack, or changes nothing because pages are out or the stack page is too small |
| Allocator.Memory.FragAlloc | kern/mem/mem.c:360-394 | Hands out one new zero fragment that is large enough; fails only if none of its class is free and no page can be added, and then changes nothing |
| Allocator.Memory.Pmalloc2 | kern/mem/mem.c:554-583 | Hands out one new zero block of the owner that overlaps no live block; it is large enough exactly if the page count fits pagenum_t; it fails only if the fragments of the class and the pages are used up or the search of pages finds no run, and then changes nothing |
| Allocator.Memory.FragFree | kern/mem/mem.c:397-432 | An address within a fragment changes nothing; otherwise the stack is cleaned, the fragment cleared, and pushed exactly if the stack has room after the cleanup |
| Allocator.Memory.PageFree | kern/mem/mem.c:187-201 | A free page and one inside a run change nothing; otherwise exactly the run that begins there is freed |
| Allocator.Memory.Freep | kern/mem/mem.c:605-626 | A free page, a page inside a run and an address within a fragment change nothing; otherwise exactly the given block stops being live, and a fragment is lost exactly if its stack has no room after the cleanup |
| Allocator.Memory.Poke | kern/mem/mem.c:554-583 | A client writes within its block: that byte changes and nothing else, so the recorded runs have writing clients |
| Allocator.Memory.KillProc | kern/mem/mem.c:535-549 | The owner's pages, blocks and stacks are gone, all others are as before |
| Checksum.Add32 | arch/unix/uip_arch.c:44-70 | The byte-by-byte addition with its carries is 32-bit big-endian addition modulo 2^32 |
| TcpEngine.Connection.AddRcvNxt | contrib/dev/uip/uip.c:469-477 | rcv_nxt advances by n modulo 2^32 |
| Tcp.WrapIsModulo | contrib/dev/uip/uip.c:469-477 | The sequence space of the model is the integers modulo 2^32 |
| TcpEngine.Connection.AckInput | contrib/dev/uip/uip.c:1057-1095 | Takes an acknowledgement exactly if the ACK bit is set, data are outstanding and its number is (snd_nxt + len) % 2^32; then that is the new snd_nxt, otherwise nothing changes. With the byte arithmetic of the round-trip estimate |
| TcpEngine.EstimateTracks | contrib/dev/uip/uip.c:1074-1090 | For round trips of up to 31 ticks sa / 8 moves towards the measured time without passing it, and with sv below 128 the time-out is sa / 8 + sv without wrap-around |
| TcpSend.WhenSndNxtMoves | contrib/dev/uip/uip.c:1057-1095 | In every state and for every stimulus snd_nxt changes exactly if the segment is no reset, has no data or the expected number, has ACK and the number (snd_nxt + len) % 2^32 while something is outstanding; then to that number |
| TcpSend.SndNxtCountsAcks | contrib/dev/uip/uip.c:1057-1095 | In every run from an open snd_nxt is the initial number plus all that has been acknowledged, modulo 2^32 |
| TcpSend.NothingAcked | contrib/dev/uip/uip.c:1057-1095 | Without such a segment it is still the initial number |
| TcpSend.AckRestartsTimer | contrib/dev/uip/uip.c:1089-1093 | Such a segment sets the timer to the retransmission time out, which is the new estimate exactly if nothing has been retransmitted; other segments leave it, and the step to TIME_WAIT sets it to 0 |
| TcpSend.WhenDataAreSent | contrib/dev/uip/uip.c:1278-1343 | Data leave exactly if the application has some and is called, or has to send again: what is in flight, otherwise what it has up to mss |
| TcpSend.MssFollowsWindow | contrib/dev/uip/uip.c:1251-1256 | mss is the advertised window up to the initial mss, and that for a window of 0; it changes only by segments that are taken in ESTABLISHED |
| TcpSend.DataFitMss | contrib/dev/uip/uip.c:1296-1343 | In every run from an open no packet carries more data than the mss agreed on |
| TcpSend.WhatStaysInFlight | contrib/dev/uip/uip.c:1296-1330 | What an established connection has in flight after any stimulus: as much as before, until it is acknowledged and replaced by what is sent next, but for the next row |
| TcpSend.WhenDataAreForgotten | contrib/dev/uip/uip.c:1327-1329 | Unacknowledged data are forgotten exactly if new data arrive in ESTABLISHED and the application, which is called for them, sends nothing |
| TcpSend.ForgetsExample | contrib/dev/uip/uip.c:1327-1329 | One such segment: 500 bytes in flight are neither sent again nor can they be acknowledged any more |
| TcpSend.SendingStartsOver | contrib/dev/uip/uip.c:1330 | A call of the application that leaves the connection established starts the count of retransmissions over |
| TcpSend.WhereItGoes | contrib/dev/uip/uip.c:1098-1418 | The next state in every case |
| TcpSend.CloseSendsFin | contrib/dev/uip/uip.c:1287-1294 | Closing sends a FIN and leaves one byte outstanding |
| TcpSend.OpensGiveUp | contrib/dev/uip/uipopt.h:343-365 | An open without answer is given up after 28 ticks for a listener and 26 for the side that connects |
| TcpSend.TickResends | contrib/dev/uip/uip.c:513-576 | A tick at timer 0 sends again what the state has outstanding, as far as the application supplies it, until the attempts are used up |
| TcpSend.WhenTheyAreSent | contrib/dev/uip/uip.c:1178-1412 | When exactly SYN, SYN with ACK, FIN and a bare ACK are sent |
| TcpSend.WhenResetIsSent | contrib/dev/uip/uip.c:520-529 | When exactly a reset is sent: an abort of the application, giving up, and what does not answer our SYN |
| TcpSend.WhenAcceptedIsAnswered | contrib/dev/uip/uip.c:1363-1390 | What moves rcv_nxt is acknowledged by the same call, but for data that come to FIN_WAIT_1 with the acknowledgement of our FIN |
| TcpSend.OutOfOrderIsAnswered | contrib/dev/uip/uip.c:1046-1055 | Data at another number are answered with an acknowledgement and change nothing |
| TcpEngine.Connection.Send | contrib/dev/uip/uip.c:1278-1351 | The code behind appsend and apprexmit, field by field |
| TcpEngine.Connection.EstablishedInput | contrib/dev/uip/uip.c:1178-1277 | A segment in ESTABLISHED: FIN, stopped flow, window and application call |
| TcpEngine.Connection.FinWait1Input | contrib/dev/uip/uip.c:1363-1390 | A segment in FIN_WAIT_1 |
| TcpEngine.Connection.FinWait2Input | contrib/dev/uip/uip.c:1392-1407 | A segment in FIN_WAIT_2 |
| TcpEngine.Connection.SynRcvdInput | contrib/dev/uip/uip.c:1103-1120 | A segment in SYN_RCVD |
| TcpEngine.Connection.SynSentInput | contrib/dev/uip/uip.c:1122-1175 | A segment in SYN_SENT |
| TcpEngine.Connection.Found | contrib/dev/uip/uip.c:1023-1418 | The whole input path for a matched connection changes the fields as the value-level machine does |
| TcpEngine.Connection.Timer | contrib/dev/uip/uip.c:488-588 | So does the periodic timer |
| TcpMachine.FreshInv | contrib/dev/uip/uip.c:943-965 | A slot filled by a passive or an active open satisfies the machine's invariant |
| TcpMachine.StepKeepsInv | contrib/dev/uip/uip.c:480-1418 | Every segment and tick keeps the invariant (len is 1 while a SYN or FIN is out) and moves only along the arrows of the connection diagram |
| TcpMachine.RunKeepsInv | contrib/dev/uip/uip.c:480-1418 | So does every sequence of segments and ticks |
| TcpMachine.TickCountsDown | contrib/dev/uip/uip.c:488-588 | Without segments the lexicographic measure on retransmissions and timer falls by one each tick, and reaches the close |
| TcpMachine.ClosesExactlyThen | contrib/dev/uip/uip.c:488-588 | A connection with outstanding data is closed after exactly as many ticks as the measure says |
| TcpMachine.TicksLeftBound | contrib/dev/uip/uipopt.h:343-365 | The measure is at most the timer plus 246 ticks; without a retransmission so far it is exactly that, and the timer plus 25 in SYN_SENT and SYN_RCVD |
| TcpMachine.BoundedClose | contrib/dev/uip/uip.c:488-588 | From any reachable state with outstanding data 501 ticks close the connection |
| TcpReceive.ReceiveSafety | contrib/dev/uip/uip.c:1046-1055 | Under any loss, duplication and reordering of segments cut from a stream below 2^32 bytes, the bytes shown as new data are a prefix of the stream and rcv_nxt is the initial number + 1 + bytes accepted (+ 1 after the FIN) |
| TcpReceive.PassiveOpenReceives | contrib/dev/uip/uip.c:943-965 | That holds from a passive open on |
| TcpReceive.ActiveOpenReceives | contrib/dev/uip/uip.c:248-266 | And from an active open on |
| TcpReceive.InOrderDataIsDelivered | contrib/dev/uip/uip.c:1234-1237 | The next segment in order is delivered, so the prefix grows |
| TcpReceive.WhenBytesAreDropped | contrib/dev/uip/uip.c:1363-1407 | Bytes are acknowledged but not shown exactly for data at the expected number in FIN_WAIT_1 and FIN_WAIT_2 without a reset, and then all of the segment |
| TcpReceive.WhenFinIsTaken | contrib/dev/uip/uip.c:1190-1402 | In every state a FIN is taken exactly if its segment is no reset and has no data or the expected number, in ESTABLISHED with nothing outstanding, in FIN_WAIT_1 and in FIN_WAIT_2; so a bare FIN is taken at any number, against section 3.9 of RFC 793 |
| TcpReceive.NothingAfterFin | contrib/dev/uip/uip.c:1350-1412 | After a FIN nothing more is accepted or shown, whatever arrives |
| TcpReceive.WhenDataAreTaken | contrib/dev/uip/uip.c:1103-1407 | In every state how many bytes of a segment are accepted and which are shown |
| TcpReceive.WhenFlowStops | contrib/dev/uip/uip.c:1231-1237 | The flow stops exactly when the application asks for it while ESTABLISHED, until it restarts it |
| TcpReceive.FinEndsStream | contrib/dev/uip/uip.c:1190-1209 | A FIN taken in ESTABLISHED ends the stream where it was: the application gets all of it exactly if the segment with the FIN reaches its end, which a bare FIN that overtakes data does not |
| TcpReceive.OneByteIsFromPeer | contrib/dev/uip/uip.c:1046-1055 | The segments of the next two rows are those of a peer with a stream of one byte, in any order |
| TcpReceive.FinOvertakesData | contrib/dev/uip/uip.c:1046-1055 | A byte and a FIN of one peer: the byte is never shown if the FIN arrives first |
| TcpReceive.DataThenFin | contrib/dev/uip/uip.c:1046-1055 | The same three segments in order: the byte is shown |
| TcpOpen.FindPort | contrib/dev/uip/uip.c:210-226 | The port search ends within one try more than there are slots, at a port that no open connection uses |
| TcpOpen.ListenSlot | contrib/dev/uip/uip.c:919-931 | The first closed slot, otherwise the first TIME_WAIT slot with the largest timer |
| TcpOpen.ConnectSlot | contrib/dev/uip/uip.c:229-242 | Takes the first closed slot, otherwise the last TIME_WAIT slot with a timer above that of the current connection, otherwise the first one in TIME_WAIT |
| TcpOpen.WhenOldestIsTaken | contrib/dev/uip/uip.c:229-242 | That is the oldest exactly if the last timer above the current connection's is the largest, or none is above it and the first one is |
| TcpOpen.YoungerIsTaken | contrib/dev/uip/uip.c:236-240 | With timers 50 and 10, and 5 for the current connection, the younger one is recycled |
| TcpOpen.Connect | contrib/dev/uip/uip.c:206-269 | One slot is set up for SYN_SENT with a local port that no other open connection has; without a slot nothing changes |
| Checksum.Chksum | arch/unix/uip_arch.c:72-96 | The loop computes the one's complement sum of the words (section 1 of RFC 1071), for odd lengths too |
| Checksum.ChksumCongruent | arch/unix/uip_arch.c:72-96 | The sum is congruent to the plain sum modulo 65535 |
| Checksum.ChksumZero | arch/unix/uip_arch.c:72-96 | It is zero only for all-zero input |
| Checksum.ByteOrderIndependent | arch/unix/uip_arch.c:72-96 | Summing in the other byte order swaps the result (section 2 of RFC 1071) |
| Checksum.FoldSum | arch/unix/uip_arch.c:72-96 | Sums of parts combine to the sum of the whole |
| Checksum.ComplementAccepts | arch/unix/uip_arch.c:72-96 | Adding the complement makes the sum 0xffff |
| Packet.IpChksum | arch/unix/uip_arch.c:98-102 | The sum of the 20 bytes of the IP header |
| Packet.TcpChksum | arch/unix/uip_arch.c:104-145 | The sum of TCP header, data and pseudo header, for odd and even data lengths |
| Packet.TcpSumCovers | arch/unix/uip_arch.c:104-145 | That is the sum over the header, the data and the pseudo header of section 3.1 of RFC 793, written out |
| Packet.FillTcpChecksum | contrib/dev/uip/uip.c:1469-1471 | With the checksum filled in the TCP sum is 0xffff |
| Packet.SendNoConn | contrib/dev/uip/uip.c:1464-1483 | Every packet that leaves re-verifies to 0xffff in both sums; addresses, ports and numbers are those that were filled in |
| Packet.TcpSend | contrib/dev/uip/uip.c:1429-1483 | The same for a connection's packet, with its endpoints, numbers and window |
| Packet.EchoInPlace | contrib/dev/uip/uip.c:700-735 | The buffer becomes the reply: type 0, addresses swapped, all but the checksum as before; or it stays if it is not an echo request |
| Packet.EchoKeepsIpSum | contrib/dev/uip/uip.c:726-732 | Swapping the addresses keeps the IP header sum |
| Packet.EchoIcmpSum | contrib/dev/uip/uip.c:718-724 | The ICMP sum of the reply is that of the request, or less by 65535 |
| Packet.EchoReplyAccepted | contrib/dev/uip/uip.c:718-724 | A reply to a request with valid checksum verifies exactly if not all of its words are zero (section 3 of RFC 1624) |
| Packet.EchoReplyEchoes | contrib/dev/uip/uip.c:700-735 | The reply differs from the request in type, checksum and the swapped addresses alone |
| Packet.BlankReplyRejected | contrib/dev/uip/uip.c:718-724 | A request whose reply fails the check |
| CacheSteps.NextKeepsInv | kern/io/buf.c:59-354 | Every event keeps each record in one place, at most one buffer per block, and buffers_in_use equal to what it counts, and the bytes dirtybufs and refcnt modulo 256 |
| CacheSteps.ReuseKeepsInv | kern/io/buf.c:239-282 | Looking up moves a buffer to the front of its list without losing or doubling any |
| CacheSteps.CreateKeepsInv | kern/io/buf.c:102-155 | A new buffer is for a block that had none |
| CacheSteps.FreeKeepsInv | kern/io/buf.c:191-233 | Freeing takes the record from its list to the pool |
| CacheSteps.WriteKeepsInv | kern/io/fs.c:337-357 | Writing back keeps the count of dirty buffers and writes nothing beyond the new end |
| CacheContent.Transparency | kern/io/buf.c:239-330 | The content of every block after any event is the data the event commits, and otherwise what it was |
| CacheContent.RunKeepsContent | kern/io/buf.c:59-354 | Over any stretch of a run that commits nothing to a block its content stays, whatever is looked up, reordered, evicted, written back or let go of |
| CacheContent.WriteBackKeepsContent | kern/io/fs.c:337-357 | bwrite leaves the content exactly if the buffer was not changed without being marked dirty |
| CacheContent.CreatedReadsContent | kern/io/buf.c:306-313 | A new buffer has the content of its block exactly if it was read or the block is zero |
| CacheContent.StaleIsOpen | kern/io/buf.c:336-354 | A buffer disagrees with its block only if a client changed it, or got it unread, and has not marked it dirty or written it since |
| CacheContent.CacheReadsContent | kern/io/fs.c:379-439 | In every run a buffer that no client has left so holds the content of its block |
| CacheContent.FlushedIsOnDisk | kern/io/syncer.c:34-67 | Without dirty buffers the driver has everything that clients see |
| CacheUsers.CountWraps | include/buf.h:29 | The count is a byte: it is the number of references exactly below 256, and a clean buffer with users is taken for idle exactly if they are a multiple of 256 |
| CacheUsers.NextKeepsUsers | kern/io/buf.c:59-354 | No event of the machine takes a buffer away from a process that refers to it |
| CacheUsers.RunKeepsUsers | kern/io/fs.c:379-506 | In every run a buffer stays that of its block as long as anybody refers to it |
| CacheUsers.FreeForClients | kern/io/buf.c:191-233 | Freeing a buffer changes no content exactly if it is clean or holds what the driver has |
| CacheUsers.FreeKeepsUsersExactly | kern/io/buf.c:191-233 | Freeing a buffer takes none away from its users exactly if nobody refers to this one, counted without the wrap |
| CacheUsers.CleanupKeepsUsersExactly | kern/io/buf.c:59-93 | A cleanup takes no buffer away from its users exactly if no clean buffer of the objects has a positive multiple of 256 references |
| CacheUsers.Refilled | kern/io/buf.c:107-117 | A cleanup of all objects fails to bring back a record exactly if all are dirty or counted |
| CacheWraps.FewSlotsNeverWrap | kern/io/fs.c:577-582 | In runs with fewer than 256 entries in all tables together no count ever wraps |
| CacheWraps.Reach256Users | kern/io/fs.c:379-439 | With 256 entries a run of bref calls from the first state leads to a clean buffer with 256 users and count 0, which bfree takes away from them |
| CacheWraps.WhenCountsWrap | include/config.h:77-103 | So counts can wrap exactly if there are a buffer, an object and 256 table entries |
| CacheWraps.ConfiguredCountsWrap | include/config.h:77-103 | 16 processes with 32 entries each are enough |
| CacheContent.RunKeepsInv | kern/io/fs.c:379-506 | The accounting holds in every run of the cache |
| Buffers.BufferCache.BFree | kern/io/buf.c:191-233 | Diagnostic builds refuse a counted buffer; otherwise the record goes back to the pool. Exactly when that loses content, a buffer in use, or the accounting, in terms of the real number of references |
| CacheSteps.FreeKeepsInvExactly | kern/io/buf.c:191-233 | Freeing a buffer keeps the accounting exactly if nobody refers to it and it is clean |
| Buffers.BufferCache.BCleanup | kern/io/buf.c:59-79 | The restart loop ends and leaves, in order, exactly the buffers that are dirty or have a count other than 0; users and accounting are kept exactly if no clean buffer of the object has a positive multiple of 256 references |
| Buffers.BufferCache.BCleanupGlob | kern/io/buf.c:85-93 | The same for all objects |
| Buffers.BufferCache.Miss | kern/io/buf.c:302-313 | Creating under pressure: idle buffers are evicted first, it fails exactly if kmalloc does, every record is dirty or counted, or the table is full; the record popped in vain goes back with what was set in it, no content changes, and users are kept exactly if the eviction meets no wrapped count |
| Buffers.BufferCache.BRef | kern/io/fs.c:379-439 | Every error code exactly when it is due; otherwise the buffer of this block, entered in the table; its data is the content exactly if it was cached and not left changed, or mode is 0, or the block is zero. Content and users are kept exactly if a full table does not make it free a shared or dirty buffer and no wrapped count is evicted |
| Buffers.BufferCache.ReuseInVain | kern/io/fs.c:426-433 | With a full table the buffer that was found is freed: its other users lose it exactly if there are any, its content is lost exactly if it is dirty and differs from the driver's |
| Buffers.BufferCache.BDirty | kern/io/buf.c:336-354 | Marks and counts a buffer once |
| Buffers.BufferCache.BWrite | kern/io/fs.c:337-357 | Stores the data of the block, clears the mark; the size becomes the larger of the old one and block number + 1, and no other object changes |
| CacheEffects.WhenSizesChange | kern/io/fs.c:337-357 | In every event: only bwrite changes what the driver has, in one block, or a size, and that just so far |
| CacheEffects.SizeIsGreatestWrite | kern/io/obj_ops.c:120-121 | In every run the size of an object is that of the first state or, if larger, one more than the greatest block written |
| CacheEffects.EndOfObject | kern/io/fs.c:415-418 | Hence a block is beyond the end exactly if it lies behind the first size and every block written |
| CacheEffects.ReuseMovesToFront | kern/io/buf.c:239-282 | A block that is found gets the first free table entry; with BUF_SORT_REUSED its buffer is then first and all others keep their order |
| CacheEffects.CreateTakesLast | kern/io/buf.c:102-155 | A new buffer is the last record of the pool, at the end of the list or at its front |
| CacheEffects.FreeReturnsRecord | kern/io/buf.c:191-233 | A freed one becomes the last of the pool, and the others keep their order |
| CacheEffects.UnrefErasesFirst | kern/io/fs.c:450-500 | bunrefp erases the first table entry for the buffer and changes its count, nothing else |
| Buffers.BufferCache.BUnrefP | kern/io/fs.c:450-500 | Drops one reference and the first table entry for the buffer |
| Buffers.BufferCache.BSend | kern/io/fs.c:363-371 | Write, then drop the reference |
| Buffers.BufferCache.SyncBufs | kern/io/syncer.c:34-67 | Afterwards the object has no dirty buffer, its counter is 0, lists and data are as before and no content has changed |
| Buffers.BufferCache.SyncerPass | kern/io/syncer.c:78-95 | After a pass the driver has for every block what clients saw before |
| Buffers.BufferCache.FsKillProc | kern/io/fs.c:601-621 | The dead process's table is empty, and each count falls by exactly its entries modulo 256 |
| Buffers.BufferCache.constructor | kern/io/buf.c:42-53 | The invariant holds at the start |
| Queue.Dequeue.Remove | lib/queue.c:75-93 | The links of the remaining nodes are those of the list without the record |
| Queue.Dequeue.InsertAfter | lib/queue.c:95-120 | The record stands behind the given one, or at the front |
| Queue.Dequeue.Push | lib/queue.c:124-138 | The record is last |
| Queue.Dequeue.PushFront | lib/queue.c:140-154 | The record is first |
| Queue.Dequeue.Pop | lib/queue.c:156-176 | The last node leaves the list |
| Queue.Dequeue.PopFront | lib/queue.c:178-198 | The first node leaves the list |
| Queue.Ring.Remove | lib/queue.c:203-221 | The ring closes over the removed node, and an emptied ring has a null header |
| Queue.Ring.Insert | lib/queue.c:224-251 | The node becomes the first and so the successor of the last |
| Pool.Pool.Create | kern/mem/pool.c:96-142 | All records of the block are on the unused list in order, none is used |
| Pool.Pool.Alloc | kern/mem/pool.c:44-61 | The last unused record moves to the used list; null exactly if there is none |
| Pool.Pool.Salloc | kern/mem/pool.c:63-78 | It leaves both lists |
| Pool.Pool.Free | kern/mem/pool.c:80-93 | A used record goes back |
| Sched.NextKeepsRecords | kern/proc/proc.c:91-132 | No operation loses or doubles a process record |
| Sched.NextKeepsInv | kern/proc/proc.c:196-367 | Every operation keeps each record in exactly one list, PROC_RUNNING exactly on the running ring, the current process on it, every waiting process on it, and all lock counters exact |
| Sched.RunKeepsInv | kern/proc/proc.c:196-367 | So does every interleaving, from the records that pool_create built |
| Sched.MutualExclusion | kern/proc/lock.c:47-146 | In every interleaving at most one process holds a lock, and the counter is holder plus waiters and never wraps |
| Sched.UnrefHandsOver | kern/proc/lock.c:118-146 | An unref with waiters lets exactly one of them loose, who holds the lock then |
| SchedEffects.RefTakesOrWaits | kern/proc/lock.c:47-77 | lock_ref raises the count by one; the process becomes the holder exactly if nobody held the lock, which is if the count was 0, and waits otherwise |
| SchedEffects.InsideUntilUnref | kern/proc/lock.c:47-77 | In every interleaving: from its lock_ref until it gives the lock back or dies, a process holds the lock or waits for it |
| SchedEffects.HolderKeepsOthersOut | kern/proc/lock.c:47-77 | And while one holds it nobody else comes back from lock_ref |
| SchedEffects.FirstComerHoldsAlone | kern/proc/lock.c:56-64 | Who finds the lock open has it alone until then |
| SchedEffects.FirstWaiterIsLetLoose | kern/proc/lock.c:93-146 | lock_unref lets the first process loose that waits, from the current one on around the ring |
| SchedEffects.LastOpensLock | kern/proc/lock.c:118-146 | Without a waiter the lock is open again |
| Sched.WalkFinds | kern/proc/lock.c:93-111 | The walk around the ring finds a waiting process wherever it stands |
| Sched.WakerExists | kern/proc/lock.c:93-111 | As waiting processes never leave the ring, the walk finds one whenever anyone waits |
| Sched.CountBound | kern/proc/lock.c:57-58 | The byte that counts a lock does not overflow for up to 254 processes |
| Sched.KillKeepsInvExactly | kern/proc/proc.c:196-246 | Killing a process keeps the invariant exactly if it holds no lock and, in case it waits for one, the walk of lock_wakeup finds it |
| Sched.ExitKeepsInvExactly | kern/proc/proc.c:252-264 | An exit keeps it exactly if the process holds no lock |
| Sched.DyingHolderKeepsLock | kern/proc/lock.c:16 | Against this promise a lock held by a dying process is not released: the count still includes it, whoever waits goes on waiting, and no live process holds the lock |
| Sched.ExitingHolderKeepsLock | kern/proc/lock.c:16 | The same for exit; the next process to reference the lock waits, too |
| Sched.KilledWaiterBreaksExclusion | include/lock.h:50 | If the walk finds another process than the waiting one that is killed, that one holds the lock beside its holder |
| Sched.KilledWaiterExample | include/lock.h:50 | Three processes for which this happens |
| Sched.SleepPassesOn | kern/proc/proc.c:296-337 | The successor in the ring runs when the current process falls asleep |
| Sched.ExitPassesOn | kern/proc/proc.c:215-239 | And when it exits, although proc_current first steps back |
| Sched.RoundRobin | kern/machdep/machdep.c:75 | As many switches as there are processes run each of them exactly once |
| SchedEffects.SleepMoves | kern/proc/proc.c:296-337 | Which lists and which current process proc_sleep leaves, for the current process and any other |
| SchedEffects.WakeupMoves | kern/proc/proc.c:343-367 | A sleeper moves to the front of the running ring, all else stays |
| SchedEffects.CreateTakesLast | kern/proc/proc.c:91-132 | A new process has the last unused record and is the first sleeper |
| SchedEffects.SwitchMovesOn | kern/machdep/machdep.c:58-97 | The next around the ring runs, all else stays |
| SchedEffects.KillReturnsRecord | kern/proc/proc.c:196-246 | A killed process leaves its list for the pool, the others and the current one stay |
| SchedEffects.ExitReturnsRecord | kern/proc/proc.c:252-264 | So does one that exits, and the next around the ring runs, if there is any |
| Proc.Lists.Nod | kern/proc/proc.c:316-331 | Moves the record between the rings; stepping back and switching ends at the successor |
| Proc.Kernel.constructor | kern/proc/proc.c:53-82 | After proc_init all records are unused and the invariant holds |
| Proc.Kernel.ProcCreate | kern/proc/proc.c:91-132 | proc_create does what the machine says, with and without a failing fs_init_proc |
| Proc.Kernel.ProcSleep | kern/proc/proc.c:296-337 | So does proc_sleep |
| Proc.Kernel.ProcWakeup | kern/proc/proc.c:343-367 | So does proc_wakeup |
| Proc.Kernel.ProcKill | kern/proc/proc.c:196-246 | So does proc_kill for any other process; the locks stay in order exactly if it holds none and is found by the walk in case it waits |
| Proc.Kernel.ProcExit | kern/proc/proc.c:252-264 | So does exit; the locks stay in order exactly if the process holds none |
| Proc.Kernel.ProcStart | include/proc.h:121-124 | So does the start of the first process |
| Proc.Kernel.ProcSwitch | kern/machdep/machdep.c:58-97 | So does a switch |
| Proc.Kernel.LockRef | kern/proc/lock.c:47-77 | The count rises by one; if it was 0 the process holds the lock and waits for nothing, otherwise it waits and its record says so |
| Proc.Kernel.FindWaiter | kern/proc/lock.c:93-111 | The loop over the ring ends with the first waiting process from the current one on, or with none |
| Proc.Kernel.LockUnref | kern/proc/lock.c:118-146 | The count falls by one, all lists stay, and the first waiter from the current process on is let loose |
| LongDivision.Ludivmod | arch/i86/bcc/__ldivmod.c:60-166 | Unsigned: quotient and remainder, and q = 0, r = a for b = 0 |
| LongDivision.Ldivmod | arch/i86/bcc/__ldivmod.c:42-194 | Signed: floor quotient and remainder of the sign of b, exact unless -2^31 is divided by -1; q = 0, r = a for b = 0 |
| LongDivision.Loop1 | arch/i86/bcc/__ldivmod.c:108-121 | Leaves the greatest doubling of b that is at most r, despite overflow |
| LongDivision.GreatestDoublingIsGreatest | arch/i86/bcc/__ldivmod.c:108-121 | A doubling of b is at most r exactly if it is not beyond that one |
| LongDivision.Loop2 | arch/i86/bcc/__ldivmod.c:122-142 | Shifting back subtracts out quotient and remainder |
| LongDivision.FloorIsUnique | arch/i86/bcc/__ldivmod.c:23-36 | The stated requirements determine quotient and remainder as integers |
| LongDivision.ModularRequirementIsAmbiguous | arch/i86/bcc/__ldivmod.c:23-36 | Read modulo 2^32, as the header has it, they determine them exactly for the divisors 1 and -1 |
| LongDivision.SignedSolution | arch/i86/bcc/__ldivmod.c:144-194 | The four sign cases give floor quotient and remainder |
| LongDivision.SignedResult | arch/i86/bcc/__ldivmod.c:144-194 | In 32 bits the remainder is exact and the quotient is exact except for -2^31 / -1 |
| IoDaemon.Channel.CopyAll | kern/io/iod.c:131-137 | Calls of iod_copy_buf until the source ends or the destination has no more room, and the flush of a channel that is to be closed: as much of the source as there is room for, cut into blocks with consecutive numbers |
| IoDaemon.Channel.CopyBuf | kern/io/iod.c:316-378 | A source buffer goes to the stream completely exactly if the pending buffer and those that can be had hold it, otherwise as many bytes as they hold |
| IoDaemon.Channel.FreeDstbuf | kern/io/iod.c:52-62 | The pending buffer is written out and forgotten |
| IoDaemon.BlocksConserve | kern/io/iod.c:346-370 | The blocks put together are the stream |
| IoDaemon.BlocksFull | kern/io/iod.c:346-370 | All blocks but the last are full |
| IoDaemon.BlocksUnique | kern/io/iod.c:346-370 | There is no other way to cut it so |
| Namespace.DeescapePath | kern/io/namespace.c:131-169 | Never writes outside the NAME_MAX buffer and ends; fails exactly for a name that does not fit or a backslash at the end, otherwise leaves name and next component |
| Namespace.DirectoryScan | kern/io/namespace.c:70-89 | Answers with the object of the first entry of that name, ENOTFOUND exactly if there is none |
| Namespace.NamespaceLookup | kern/io/namespace.c:98-123 | The object of the first entry in memory; otherwise what the driver answers, if there is one, errors included, and success without an object becomes ENOTFOUND; without a lookup operation ENOTFOUND, or ENOTSUP for an entry that has no object |
| Namespace.LookupAnswers | kern/io/namespace.c:98-123 | These answers and no others, over entries and driver |
| Namespace.LookupPath | kern/io/namespace.c:181-245 | Walks from the root or the working directory along a chain of directories each of which answers the next name, to its end or the first error, unless there is no memory for the name buffer |
| Namespace.WalkIsLookupOfNames | kern/io/namespace.c:215-235 | A walk looks up exactly the names of the path in order |
| Namespace.WalkFollowsChain | kern/io/namespace.c:215-235 | A walk ends where the chain of directories ends that answer its names one by one |
| Namespace.OneResult | kern/io/namespace.c:215-235 | There is only one such end |
| Namespace.SpellingIsRead | kern/io/namespace.c:138-164 | A name with a backslash before any of its characters, and before all slashes and backslashes, is read as that name |
| Namespace.ReadIsSpelt | kern/io/namespace.c:138-164 | And whatever is read as a name is spelt so |
| Namespace.LoneBackslashExactly | kern/io/namespace.c:141-145 | Only a name followed by a backslash at the end of the path is refused for its spelling |
| Namespace.TrailingBackslash | kern/io/namespace.c:141-145 | And each of these is |
| Namespace.EscapedFitsExactly | kern/io/namespace.c:131-169 | A name fits before a slash exactly if it is shorter than NAME_MAX, and at the end of a path if it is shorter by one more |
| Namespace.PrintRoundTrip | kern/io/namespace.c:138-164 | Printing names with escapes and any number of slashes between them parses to exactly these names |
| Namespace.PrintedPathIsLookedUp | kern/io/namespace.c:181-245 | And looks them up in order |
| Namespace.PrintedPathFollowsChain | kern/io/namespace.c:181-245 | A printed path leads where the chain of its names ends |
| Namespace.Canonical | kern/io/namespace.c:230-231 | Every path has the names of its canonical form |
| Namespace.NamesAreNotEmpty | kern/io/namespace.c:230-231 | No component is empty or longer than NAME_MAX - 1 |

## Left out

Weaker than the source, or limited:

- Allocator.Memory.Pmalloc2: no requests of more pages than there are, which bitmap_seek asserts (lib/bitmap.c:24). Owner ids are those that the page info has room for, 32 as shipped, while proc_create counts them up to 255 (kern/proc/proc.c:106-111); this goes for all methods that allocate. Pages.InfoRoundTrip says which bits of a larger id are lost.
- Allocator.Memory.Freep: a legal fragment boundary must be that of a live block of the process, whose stacks it came from; the release of the first kernel stack page at boot (include/proc.h:123) frees a locked page and is not part of the model.
- Allocator.Memory.InitProc: stops at the first stack that gets no page, where the source goes on with a null stack.
- Sched.CountBound: for at most 254 process records; process ids are bytes.
- TcpEngine.EstimateTracks: for longer round trips and deviations the byte arithmetic is exact, but nothing is claimed about what it estimates.
- TcpEngine.Connection.EstablishedInput: no options, no urgent data, and the application calls uip_stop only while ESTABLISHED.
- TcpReceive.ReceiveSafety: the bytes of FIN_WAIT_1 and FIN_WAIT_2 are acknowledged by the code but never shown to the application, so the prefix stops there; WhenBytesAreDropped says when exactly.
- IoDaemon.Channel.CopyBuf: the destination is empty; a full destination ends the copy.
- Buffers.BufferCache.BRef: for objects with an io operation, builds without DIAGNOSTICS if the table is full, block numbers below 65535 and pointers whose low two bytes are not zero (array.c:21).
- Buffers.BufferCache.Miss: kmalloc gives memory or not; the cleanup it runs itself when memory is short (kern/mem/mem.c:590-591) is not modelled within bcreate.
- Proc.Kernel.ProcSleep: the current process needs another running process to pass control to.
- Proc.Kernel.ProcExit: the current process does not wait for a lock, as it would not run.
- Proc.Kernel.LockRef: one round of the wait; with manual switching a waiter spins, so no liveness is claimed.

Not modelled:

- uIP: fragment reassembly, UDP, TCP option parsing, resets for unmatched segments; what the application supplies for a retransmission, which is up to it, so that the peer's view of the bytes sent is not modelled.
- Cache: streams, uncached objects, shared buffers, failing drivers, the shortened last block of a file, buffer locks, object events.
- Allocator: page hints, growing stacks, malloc's wait for memory, the contents of the stack pages themselves (stacks are objects of their own here).
- Locks: lock_ref_wait, read and write locks; what happens after a death that leaves a lock out of order.
- Queue: the macro forms of the list operations; the functions are modelled.
- I/O daemon: the lists of channels (an immediate channel is removed from the wrong one, kern/io/iod.c:132-137 and 174) and polling.
- File systems, drivers, shell, console, context switching and the other helpers of the bcc runtime.
