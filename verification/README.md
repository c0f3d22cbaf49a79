# Verified models of the Serval stack's data structures

A Dafny model of the data structures and algorithms that the Serval network stack is built on, with proofs
that they do what the stack relies on. Code that changes things in place is modelled as classes, arrays and
loops, each proved against a specification; the pure code is modelled as functions. What is promised of each
component is then proved about its specification.

The main results:

- **Service index** (`Bits`, `Trie`, `TrieShape`, `TrieRun`, `TrieWalk`, `TrieDestroy`; `src/stack/bst.c`). The pointer trie
  with packed prefixes refines a finite map from bit strings and a set of paths. Over every run of insertions,
  removals, releases and lookups, with memory failing at any point, map, nodes and answers are exactly those of the
  reference, and each lookup returns the longest live insertion that covers it. The explicit-stack walk, whose
  callbacks may release the node they are given, calls on every entry once, in dictionary order, and takes no freed node
  off its stack; both printers follow the same order, each call writing where the one before ended. The walk that destroys a subtree without a stack terminates, frees every node
  once and calls every destroy hook once. Every node ever allocated is in use, freed or counted as lost.
- **Intrusive lists** (`RingList`; `include/common/list.h`). Every operation on links refines an operation on the
  sequence of links on a ring, and cutting and splicing back restores every link both ways.
- **Checksums** (`Checksum`; `include/serval/checksum.h`, `src/stack/userlevel/checksum.c`). The word-at-a-time sum
  at any length and alignment is the ones' complement sum of section 2 of RFC 1071, and partial sums of two blocks
  combine at even and odd offsets. The pseudo-header sum drops a carry on a family of inputs, given exactly, and is
  the checksum of pseudo-header and data on all others.
- **Congestion control** (`Reno`; `src/stack/serval_tcp_cong.c`). Growth laws over whole runs for slow start,
  limited slow start (section 2 of RFC 3742), congestion avoidance (section 3.1 of RFC 5681) and byte counting
  (sections 2.1 and 2.2 of RFC 3465).
- **Conversions** (`Division`, `Ktime`, `Inet`, `Iovec`, `Hex`). Exact division, exact packed time arithmetic with the
  exact overflow condition, a parser that is the exact inverse of its printer, scatter/gather copies with the exact
  condition under which they use whole segments, and hexadecimal text, whose parser leaves its length limit under a
  condition given exactly.
- **Containers** (`Hashtable`, `DelayQueue`, `Deque`). Reference counts and walks that unhash what they visit;
  over every run of atomic steps of any threads, conservation of packets and references with every release, free and
  loss by a verdict accounted for, one bound peer, and one packet per id exactly while ids are given out fresh; sequences.

Where the code does not do what one might expect of it, the model follows the code. `PseudoHeaderCarry`,
`BlockSubChecksum`, `Hex.LimitIsKept`, `Iovec.AdvancedIffFits` and `Ktime.AddSafeIsCapped` give the exact
conditions, each with an input beside it. `Trie.Release` reads the root after freeing it exactly when the root is
released without children, as the default service is when no other is left (`TrieRun.ReleaseDefaultEntry`); the model
lets that read see what the node held, and lists it in `stale`. `TrieRun.WhatIsLost` says when an insertion loses
nodes, and `Trie.Remove` and `TrieDestroy.Destroy` which nodes stay allocated. A verdict that is heard, is neither of
the known ones and finds an entry leaves its packet nowhere; `DelayQueue.CountersAddUp` holds exactly where no step
does that. `DelayQueue.UniqueIffFresh` says when two entries come to share an id.

Sources of nondeterminism are parameters: how many allocations succeed, whether a control message could be sent,
whether a socket is dead, what callbacks return. A trie entry's record is never null, and its `init` hook succeeds.

## Model

| member | source | states |
|---|---|---|
| Bits.EndMask | src/stack/bst.c:517-523 | the mask built bit by bit keeps exactly the leading bits |
| Bits.PackPrefix | src/stack/bst.c:506-526 | copying and masking the last byte packs exactly the leading bits, with zero padding |
| Bits.BitOrder | src/stack/bst.c:31-34 | bit 0 of a byte is its most significant one, and the others follow downwards |
| Bits.PackedFormIsUnique | src/stack/bst.c:508-526 | a bit string has one packed form |
| Bits.PrefixIsPrefix | src/stack/bst.c:204-248 | the prefix order on trie paths is the prefix order on bit sequences |
| Bits.PrefixOfBuffers | src/stack/bst.c:204-248 | one buffer denotes a prefix of another exactly when it has no more bits and those agree |
| Trie.LongestMatchIsUnique | src/stack/bst.c:250-265 | a brute-force search for the longest match has one answer |
| Trie.LongestMeans | src/stack/bst.c:250-272 | such an answer in terms of the filter: its data passes, and every entry on a prefix of the query whose data passes is no longer; without a filter, the same of every entry |
| Trie.Trie.constructor | src/stack/bst.c:436-442 | a new trie is empty and owns no node |
| Trie.Trie.FindNode | src/stack/bst.c:204-248 | the walk ends at the deepest node on the query; the last match met has data that the filter is true of, and no entry on a prefix of the query with such data, or without a filter no such entry at all, is longer or was missed |
| Trie.Trie.FindLongestMatch | src/stack/bst.c:250-272 | returns the longest entry on a prefix of the query whose data the filter is true of, or without a filter the longest such entry; nothing exactly when there is none |
| Trie.Trie.ParentLink | src/stack/bst.c:278-291 | a node hangs below its parent on the side of its last bit; only the root is its own parent |
| Trie.Trie.CreateNode | src/stack/bst.c:478-529 | a new leaf on the query's next bit keeps the shape, with packed bytes; a failed allocation changes nothing |
| Trie.Trie.NewPath | src/stack/bst.c:537-577 | the missing nodes are made shortest first, exactly as many as memory lasts for, and no other node moves |
| Trie.Trie.InitNode | src/stack/bst.c:453-476 | an inactive node becomes active; an active one is refused and kept |
| Trie.Trie.NewRoot | src/stack/bst.c:621-636 | an empty trie starts over from a new root, or has none when memory fails; all nodes it still had are lost, and counted |
| Trie.Trie.StartOver | src/stack/bst.c:619-636 | a trie with entries is left alone; an empty one starts over at the cost of one allocation |
| Trie.Trie.FindOrCreate | src/stack/bst.c:587-603 | the node of a prefix is found or made exactly when memory lasts for the missing path |
| Trie.Trie.InsertNode | src/stack/bst.c:579-612 | below a root: succeeds exactly when the prefix is free and memory lasts, and changes one key of the map |
| Trie.Trie.Insert | src/stack/bst.c:614-646 | the same for the whole trie: entry count, the exact set of paths that have nodes, and how many nodes were lost; childless nodes stay active when it succeeds |
| Trie.Trie.Orphan | src/stack/bst.c:293-305 | takes one entry off, counts it, and calls its destroy hook if it has one |
| Trie.Trie.Remove | src/stack/bst.c:648-660 | removes exactly that key, reports whether it was there, and keeps every node |
| Trie.Trie.FreeNode | src/stack/bst.c:278-291 | a childless inactive node leaves the trie by its parent's link and is freed |
| Trie.Trie.PruneUp | src/stack/bst.c:322-335 | frees exactly the inactive leaves from a node up to the root, each once; lists the freed nodes that its tests read |
| Trie.Trie.Release | src/stack/bst.c:312-335 | removes only that key, leaves exactly the expected set of nodes, calls one hook, and reads a freed node exactly when the childless root is released |
| TrieRun.ReleaseDefaultEntry | src/stack/service.c:1323-1324 | the default entry is such an input: the root is read after it was freed |
| TrieRun.ReleasePrefix | src/stack/bst.c:307-335 | releasing the entry found at a prefix does to map and nodes what the reference does |
| TrieRun.Perform | src/stack/bst.c:579-660 | each request changes map, nodes and lost nodes, and is answered, exactly as the reference says, memory failure included; childless nodes stay active exactly when it is tidy |
| TrieRun.RunAll | src/stack/bst.c:579-660 | so does every request of every run; where all requests are tidy, childless nodes stay active |
| TrieRun.TidyKeepsPruned | src/stack/bst.c:307-335 | a request leaves an inactive leaf exactly when it removes a childless entry other than the root's, or inserts and memory ends after a new node other than the root |
| TrieRun.RunStaysPruned | src/stack/bst.c:579-660 | all states of a run keep childless nodes active if and only if all its requests are tidy |
| TrieRun.AmpleIsTidy | src/stack/bst.c:579-660 | releasing instead of removing, with memory for a whole path, is tidy |
| TrieShape.ExtendShort | src/stack/bst.c:554-557 | a path cut short by memory ends in an inactive leaf exactly when it got a new node other than the root |
| TrieShape.ReleasePrunes | src/stack/bst.c:322-335 | a release leaves no inactive leaf behind |
| TrieRun.RunTwice | src/stack/bst.c:436-442 | runs on a new trie compose |
| TrieRun.EntriesAreLive | src/stack/bst.c:579-660 | a run from empty leaves exactly the entries that a request inserted and none took away since |
| TrieRun.LookupInRun | src/stack/bst.c:250-265 | a lookup at any point of a run returns the longest path with a live insertion that covers the query and whose inserted data the filter is true of, or without a filter the longest such path; nothing exactly when there is none |
| TrieRun.WhatIsLost | src/stack/bst.c:621-636 | an insertion loses nodes exactly when there is a root and no entry, and at most that root where childless nodes are active |
| TrieRun.InsertAfterLastRelease | src/stack/bst.c:621-625 | such an insertion: the root that the last release left is lost |
| TrieWalk.PreorderIsComplete | src/stack/bst.c:161-202 | the pre-order lists every path of a subtree exactly once |
| TrieWalk.PreorderIsSorted | src/stack/bst.c:161-202 | the pre-order lists paths in dictionary order, a prefix before its extensions and bit 0 before bit 1 |
| TrieWalk.ChildNotStacked | src/stack/bst.c:103-106 | a node pushed on the intrusive stack is never on it already |
| TrieWalk.PushChildren | src/stack/bst.c:391-396 | the children go on the stack, left on top |
| TrieWalk.NextStack | src/stack/bst.c:377-396 | what the walk visits then is what it would have visited after the popped node |
| TrieWalk.PendingFrame | src/stack/bst.c:376-398 | freeing nodes on the way to a visited one changes no pending subtree |
| TrieWalk.ReleaseVisited | src/stack/service.c:1514-1517 | releasing the visited node frees no node on the stack, and the walk goes on as if it were still there |
| TrieWalk.SubtreeFunc | src/stack/bst.c:365-399 | with callbacks that may release their node: calls are the entries in pre-order up to the first negative value, the result is that value or the sum, released entries are gone, the hooks run and the nodes left are those of the releases in order, and no node that comes off the stack was freed |
| TrieWalk.EveryEntryOnce | src/stack/bst.c:365-399 | without a negative value every entry of the subtree is called on exactly once |
| TrieWalk.CallsAreActives | src/stack/bst.c:383-390 | without a negative value every active node is called; a negative result means one call was negative |
| TrieWalk.ResultIsSum | src/stack/bst.c:383-390 | the result is the sum of all calls where none is negative, and otherwise the value of the last call, the only negative one |
| TrieWalk.PrintLaw | src/stack/bst.c:137-144 | there is one print call for each printable entry, in order, at the offset where the one before ended, with what is left of the buffer as room, or none once the buffer is used up |
| TrieWalk.PrintNonrecursive | src/stack/bst.c:121-154 | total and print calls are those of the pre-order; each call starts where the one before ended, and has as room the buffer behind its offset, or none beyond the end |
| TrieWalk.PrintRecursive | src/stack/bst.c:161-202 | the same total and the same calls, with the same law for offset and room, so both printers agree for every print hook |
| TrieDestroy.LedgerStep | src/stack/bst.c:293-305 | freeing one more node keeps the account of what was freed and destroyed |
| TrieDestroy.GoRight | src/stack/bst.c:359-360 | a right link, turned or not, leads to a smaller subtree |
| TrieDestroy.DestroySubtree | src/stack/bst.c:338-362 | terminates; every node of the subtree is freed once, every hook called once, the rest of the trie is intact |
| TrieDestroy.Destroy | src/stack/bst.c:444-451 | a trie with entries ends empty with everything freed once, so only lost nodes stay allocated; one without entries keeps its nodes |
| TrieDestroy.DestroyAfterLastRemove | src/stack/bst.c:446 | a trie without entries that keeps its nodes |
| RingList.ListIsUnique | include/common/list.h:24-26 | head and links determine the sequence |
| RingList.Init | include/common/list.h:38-42 | an initialised head is an empty list |
| RingList.IsEmpty | include/common/list.h:184-187 | decides emptiness |
| RingList.IsSingular | include/common/list.h:226-229 | decides whether there is one entry |
| RingList.AddBetween | include/common/list.h:50-58 | a link goes between two neighbours of a ring |
| RingList.Add | include/common/list.h:68-71 | prepends |
| RingList.AddTail | include/common/list.h:82-85 | appends |
| RingList.Bypass | include/common/list.h:94-98 | the neighbours of a link point to each other, and the rest is a ring |
| RingList.Delete | include/common/list.h:106-111 | takes one entry out and clears it |
| RingList.DeleteInit | include/common/list.h:140-144 | takes one entry out and makes it an empty list |
| RingList.Replace | include/common/list.h:120-127 | another link takes the place of an entry or a head |
| RingList.Move | include/common/list.h:151-155 | moves an entry to the front of another list or its own |
| RingList.MoveTail | include/common/list.h:162-167 | moves an entry to the end of another list or its own |
| RingList.RotateLeft | include/common/list.h:212-220 | rotates; an empty list stays |
| RingList.CutAt | include/common/list.h:231-241 | splits a ring after an entry into two rings |
| RingList.Cut | include/common/list.h:257-269 | splits a list after any entry or the head; the two early returns leave both lists alone |
| RingList.SpliceBetween | include/common/list.h:271-283 | a list's links go between two neighbours of a ring |
| RingList.Splice | include/common/list.h:290-295 | concatenates in front |
| RingList.SpliceTail | include/common/list.h:302-307 | concatenates at the end |
| RingList.SpliceInit | include/common/list.h:316-323 | concatenates in front and empties the other list |
| RingList.SpliceTailInit | include/common/list.h:333-340 | concatenates at the end and empties the other list |
| RingList.CutThenSplice | include/common/list.h:257-323 | cutting anywhere and splicing back restores every next and prev link |
| Checksum.FoldTwice | include/serval/checksum.h:71-77 | two folds reduce any word to its 16-bit ones' complement value |
| Checksum.AddIsEndAround | include/serval/checksum.h:101-106 | addition modulo 2^32 - 1, zero only for two zeros |
| Checksum.SubCancelsAdd | include/serval/checksum.h:108-111 | subtraction undoes addition, up to the two forms of zero |
| Checksum.SwapShifts | include/serval/checksum.h:117-118 | swapping bytes multiplies by 256 in ones' complement |
| Checksum.FoldIsChecksum | include/serval/checksum.h:71-77 | a folded partial sum is the checksum of its bytes |
| Checksum.BlockAddRepresents | include/serval/checksum.h:113-120 | partial sums of two blocks combine at even and odd offsets |
| Checksum.BlockAddChecksum | include/serval/checksum.h:113-120 | and fold to the checksum of the concatenation |
| Checksum.BlockSubChecksum | include/serval/checksum.h:122-129 | taking a block out again gives the rest's checksum exactly when the rest is not all zero |
| Checksum.BlockSubLosesZero | include/serval/checksum.h:122-129 | an all-zero block for which it does not |
| Checksum.SumWords | src/stack/userlevel/checksum.c:74-86 | the word loop with its delayed carry loses nothing |
| Checksum.SumRest | src/stack/userlevel/checksum.c:65-97 | half word, words, half word and byte together cover the rest of the buffer |
| Checksum.DoCsum | src/stack/userlevel/checksum.c:48-103 | the ones' complement sum for every length and every alignment |
| Checksum.IpComputeCsum | src/stack/userlevel/checksum.c:143-146 | the Internet checksum of a buffer |
| Checksum.CsumPartial | src/stack/userlevel/checksum.c:127-137 | adds a buffer's sum to a partial sum of what precedes it |
| Checksum.PseudoHeaderCarry | src/stack/userlevel/checksum.c:180-197 | the sum is right exactly when adding the carries back does not carry again |
| Checksum.PseudoHeaderLosesCarry | src/stack/userlevel/checksum.c:195-196 | an input on which that carry is lost |
| Checksum.PseudoHeaderRepresents | src/stack/userlevel/checksum.c:180-197 | the unfolded sum stands for the pseudo-header in network order and the data |
| Checksum.PseudoHeaderChecksum | include/serval/checksum.h:88-92 | its fold is their checksum exactly when no carry is lost |
| Reno.LimitedIsMonotone | src/stack/serval_tcp_cong.c:43-57 | more in flight never makes the window limit sending less |
| Reno.LimitedFrom | src/stack/serval_tcp_cong.c:43-57 | the exact threshold: the window limits sending exactly when packets in flight and slack reach it; without segmentation offload the slack is the burst, with it the larger of the burst and of the most packets below both offload limits |
| Reno.Sock.IsCwndLimited | src/stack/serval_tcp_cong.c:43-57 | the tests as they are made decide that |
| Reno.LimitedInRun | src/stack/serval_tcp_cong.c:43-57 | in every run an acknowledgement counts as limiting exactly when packets in flight and slack reach the window it meets |
| Reno.BurstsCount | src/stack/serval_tcp_cong.c:56 | where packets in flight stay within a burst of the clamp, every acknowledgement of a run counts |
| Reno.Drained | src/stack/serval_tcp_cong.c:94-98 | the loop ends with the counter below the window, and below the clamp no credit is lost |
| Reno.Sock.Drain | src/stack/serval_tcp_cong.c:94-98 | the loop terminates and computes that |
| Reno.Sock.SlowStart | src/stack/serval_tcp_cong.c:66-99 | one call of slow start, with byte counting and limiting |
| Reno.Sock.CongAvoidAi | src/stack/serval_tcp_cong.c:102-111 | one call of additive increase |
| Reno.Sock.CongAvoid | src/stack/serval_tcp_cong.c:120-144 | one acknowledgement: nothing unless packets in flight and slack, without offload the burst, reach the window; otherwise slow start, byte counting or additive increase |
| Reno.RunKeeps | src/stack/serval_tcp_cong.c:120-144 | every run keeps 1 <= window <= clamp and counter <= window, and never shrinks the window |
| Reno.RunSplits | src/stack/serval_tcp_cong.c:120-144 | a run is its parts, one after the other |
| Reno.TakeAcks | src/stack/serval_tcp_cong.c:120-144 | the code runs along any sequence of acknowledgements, with the state of the reference |
| Reno.StepFits | src/stack/serval_tcp_cong.c:53-54 | a bound on clamp, segment size and divisor under which no 32-bit value computed here overflows |
| Reno.RunBytesFit | src/stack/serval_tcp_input.c:2095-2100 | acknowledged bytes never exceed those that arrived, and are all of them while the window does not limit sending |
| Reno.AverageCounts | src/stack/serval_tcp_cong.c:102-111 | below the clamp each acknowledgement raises the potential by exactly one |
| Reno.AvoidanceGrowth | src/stack/serval_tcp_cong.c:141-143 | in every run above the threshold, the window has reached b exactly when the limiting acknowledgements cover the sum of k + 1 up to b |
| Reno.SlowStartGrowth | src/stack/serval_tcp_cong.c:83-98 | in every run up to the threshold and up to the limit of limited slow start, n limiting acknowledgements give min(clamp, window + n) |
| Reno.ByteSlowStart | src/stack/serval_tcp_cong.c:70-98 | one call with byte counting and without limit: nothing below a full segment; otherwise the bytes are used up and the window widens by one, or by two exactly where doubling is on, two segments came in and the counter is not zero |
| Reno.ByteSlowStartGrowth | src/stack/serval_tcp_cong.c:70-98 | in every run of slow start with byte counting, without doubling and limit, the window widens by one for each time a full segment of bytes has come in |
| Reno.SlowStartIsDetermined | src/stack/serval_tcp_cong.c:66-99 | with any settings, window and counter after a call below the clamp are fixed by the credit before and the increase |
| Reno.OneCallBound | src/stack/serval_tcp_cong.c:86-98 | one call adds at most one segment, or two with doubling |
| Reno.LimitedCredit | src/stack/serval_tcp_cong.c:80-82 | in every run of limited slow start, up to and with the acknowledgement that leaves it, each limiting one adds at most half the limit of credit, exactly so without byte counting below the clamp |
| Reno.LimitedGrowth | src/stack/serval_tcp_cong.c:80-82 | growth times window is at most the counter plus n times half the limit |
| Reno.BytesAreConserved | src/stack/serval_tcp_cong.c:132-140 | in every run with byte counting above the threshold no acknowledged byte is lost below the clamp |
| Reno.ByteGrowth | src/stack/serval_tcp_cong.c:132-140 | in every run with byte counting above the threshold whose acknowledgements limit and bring at most a window each, the window has reached b exactly when the acknowledged bytes cover the sum of k segments up to b |
| Division.ReduceHigh | include/serval/platform.h:278-284 | the upper half is reduced without 32-bit overflow |
| Division.DoubleUp | include/serval/platform.h:286-289 | doubling stops with the remainder below twice the multiple, without 64-bit overflow |
| Division.Div64By32 | include/serval/platform.h:271-302 | quotient and remainder for every 64-bit number and every nonzero 32-bit divisor |
| Division.DoDiv | include/serval/platform.h:307-317 | both branches give quotient and remainder |
| Ktime.AddIsExact | include/serval/ktime.h:188-205 | the sum is normal, and exact in nanoseconds exactly when its seconds fit |
| Ktime.SubIsExact | include/serval/ktime.h:170-179 | the difference is normal, and exact exactly when its seconds fit |
| Ktime.OrderIsTimeOrder | src/stack/userlevel/ktime.c:90 | packed values compare as times |
| Ktime.EqualIsSameTime | include/serval/ktime.h:294-297 | packed equality is equality in nanoseconds |
| Ktime.LatestIsLatest | src/stack/userlevel/ktime.c:91 | the cap of a safe sum is 2^31 - 1 seconds, and no packed whole second is later |
| Ktime.AddSafeIsCapped | src/stack/userlevel/ktime.c:82-94 | the safe sum is exact or capped, except for two early times that wrap around |
| Ktime.EarlyTimesWrap | src/stack/userlevel/ktime.c:90-91 | such a pair of times |
| Ktime.FromNs | src/stack/userlevel/ktime.c:23-29 | nanoseconds packed; exact exactly when the seconds fit |
| Ktime.AddNs | src/stack/userlevel/ktime.c:19-32 | exact exactly when the seconds of the result fit |
| Ktime.SubNs | src/stack/userlevel/ktime.c:41-54 | exact exactly when the seconds of the result fit |
| Ktime.DivS64Rem | src/stack/platform.c:268-285 | signed division towards zero through unsigned division |
| Ktime.NsToTimespec | src/stack/platform.c:311-327 | normal for negative times too; exact exactly when the seconds fit |
| Ktime.TimespecRoundTrip | include/serval/ktime.h:231-235 | a packed time survives nanoseconds and timespec |
| Inet.InetNtop | src/stack/platform.c:63-74 | prints exactly for the right family and enough room, fits that room, and the parser reads the address back |
| Inet.ParseInvertsPrint | src/stack/platform.c:76-117 | a string parses to an address exactly when it is that address printed |
| Inet.Scan | src/stack/platform.c:86-115 | the one-pass loop over the four-byte buffer computes that parse |
| Inet.InetPton | src/stack/platform.c:76-117 | accepts exactly the printed addresses and returns theirs |
| Iovec.Consume | src/stack/platform.c:192-195 | moving a segment forward moves the vector past exactly those addresses |
| Iovec.ToIovec | src/stack/platform.c:168-184 | writes the bytes in order to the addresses offered by the lower 32 bits of each length, and moves each segment past its own |
| Iovec.FromIovec | src/stack/platform.c:186-200 | reads the bytes in order from those addresses, and moves each segment past its own |
| Iovec.AdvancedIffFits | src/stack/platform.c:172 | copies move a vector past exactly its first n bytes if and only if every segment reached is shorter than 2^32 or has enough in its lower 32 bits |
| Iovec.FitsUsesAll | src/stack/platform.c:172 | and then the addresses used are the first n that the vector denotes |
| Iovec.DroppedAddresses | src/stack/platform.c:178-179 | moving past n bytes leaves the addresses after the first n |
| Iovec.LongSegmentIsCut | src/stack/platform.c:172 | a segment of 2^32 + 1 bytes gets one byte of ten |
| Iovec.ShortSegmentsFit | src/stack/platform.c:172 | segments shorter than 2^32 always fit |
| Iovec.DifferentAddressesRoundTrip | src/stack/platform.c:168-200 | what is written through disjoint segments is read back |
| Iovec.RoundTripsIffDisjoint | src/stack/platform.c:168-200 | a vector gives back everything exactly when its segments do not overlap |
| Iovec.OutAndBack | src/stack/platform.c:168-200 | copying out and back in returns the bytes, whatever the lengths, and leaves both vectors the same |
| Hex.DigitValues | include/netinet/serval.h:153-166 | exactly the digits and the letters a to f of both cases have values |
| Hex.DecodeUndoesEncode | include/netinet/serval.h:172-228 | reading undoes printing as far as there is room |
| Hex.DecodeFailsIff | include/netinet/serval.h:180-191 | reading fails exactly at a non-digit within the limits |
| Hex.EncodeDigits | include/netinet/serval.h:205-228 | the digits of a byte stand side by side, the upper half first |
| Hex.EncodeUndoesDecode | include/netinet/serval.h:172-228 | printing what was read gives the text in lower case |
| Hex.LimitIsKept | include/netinet/serval.h:179-187 | the parser keeps its length limit exactly when it is even, or text, room or digits end first |
| Hex.OddLimitOverruns | include/netinet/serval.h:179-187 | a text that is read past its limit |
| Hex.ParseHex | include/netinet/serval.h:172-199 | the loop into a buffer, with wrap-around of the limit |
| Hex.PrintHex | include/netinet/serval.h:205-228 | as many digits as fit, a terminator, and nothing beyond |
| Hex.ServiceIdRoundTrip | include/netinet/serval.h:253-265 | a printed service identifier is read back |
| Hashtable.Elm.constructor | src/common/hashtable.c:178-190 | a new element has one client reference |
| Hashtable.Elm.Hold | src/common/hashtable.c:165-168 | one more client reference |
| Hashtable.Elm.Put | src/common/hashtable.c:170-176 | one fewer; the last frees, and a hashed element is never freed |
| Hashtable.Table.constructor | src/common/hashtable.c:27-50 | an empty table |
| Hashtable.Table.Create | src/common/hashtable.c:27-50 | an empty table, or none exactly when memory fails |
| Hashtable.MaskIsRemainder | src/common/hashtable.c:107-111 | masking a hash with a power of two less one is its remainder |
| Hashtable.Table.SlotIsRemainder | src/common/hashtable.c:107-111 | so a hash leads to the slot of its remainder |
| Hashtable.Table.Hash | src/common/hashtable.c:118-139 | puts an element at the head of its chain, with the table's reference, and changes no other chain; refuses a hashed one |
| Hashtable.Table.Unhash | src/common/hashtable.c:141-163 | takes one element and the table's reference away; the others stay in their order |
| Hashtable.Table.Lookup | src/common/hashtable.c:192-214 | finds the first matching element in the chain of the key exactly when there is one, and takes one reference |
| Hashtable.Table.LookupIsScan | src/common/hashtable.c:192-214 | that is a scan of the whole table, if matching elements hash as the key |
| Hashtable.Table.VisitSlot | src/common/hashtable.c:90-97 | one slot, element by element in chain order, while the action unhashes elements it is given |
| Hashtable.Table.ForEach | src/common/hashtable.c:77-100 | visits every element once, the result is the old count, and exactly the elements that the action unhashes are gone |
| Hashtable.Table.Fini | src/common/hashtable.c:52-75 | every element loses the table's reference and keeps its clients' |
| DelayQueue.Queue.MakeEntry | src/stack/delay_queue.c:107-121 | a packet gets an entry, and its socket one reference |
| DelayQueue.Queue.AdmitEntry | src/stack/delay_queue.c:123-152 | queued at the end, or refused because the queue is full or no one listens |
| DelayQueue.Queue.DropEntry | src/stack/delay_queue.c:156-161 | a refused packet is freed once and its reference given back |
| DelayQueue.Queue.RejectPacket | src/stack/delay_queue.c:109-112 | a packet without an entry is freed |
| DelayQueue.Queue.DelaySkb | src/stack/delay_queue.c:101-162 | all the steps: result, queue, counter, and what happened to packet and socket reference |
| DelayQueue.Queue.Find | src/stack/delay_queue.c:55-64 | the first entry with an id |
| DelayQueue.Queue.SetVerdict | src/stack/delay_queue.c:164-236 | another peer than the bound one gets -16 and changes nothing; an unknown id changes nothing but the peer; otherwise the first entry with the id leaves the queue, and its packet is released by 0 with result 1, freed by 0 on a dead socket or by 1, and lost by any other |
| DelayQueue.Queue.FreeEntry | src/stack/delay_queue.c:66-71 | a judged entry gives its socket reference back |
| DelayQueue.Queue.PurgeSock | src/stack/delay_queue.c:73-93 | no entry of the socket is left, all others are, in their order, and the packets freed are exactly those of the entries of the socket; without a socket nothing is left |
| DelayQueue.PurgeTakesSocket | src/stack/delay_queue.c:73-93 | for every queue and socket, what a purge keeps and throws away: sequences of entries of others and of the socket, each in the order of the queue, with nothing missing |
| DelayQueue.Queue.ResetQueue | src/stack/delay_queue.c:95-99 | drops everything queued and unbinds the peer |
| DelayQueue.Queue.SocketReleased | src/stack/delay_queue.c:239-251 | a reset exactly when the closed socket was the peer's |
| DelayQueue.TakeAll | src/stack/delay_queue.c:66-251 | the code takes the steps of any run of any threads, with the state and the effects of the reference |
| DelayQueue.StepConserves | src/stack/delay_queue.c:66-251 | every atomic step conserves packets and socket references, and counts the packets it frees |
| DelayQueue.RunConserves | src/stack/delay_queue.c:66-251 | so does every run of steps in any order, and the queue keeps its bound |
| DelayQueue.VerdictMeans | src/stack/delay_queue.c:164-236 | what a verdict does to queue, peer, counter and packet, in every case, by its value and whether the socket is dead |
| DelayQueue.StepJudges | src/stack/delay_queue.c:193-229 | a step releases a packet, with result 1, exactly if it is a heard verdict 0 that finds an entry with no or a live socket; a verdict frees one, with result 0, exactly if it is heard and is 1, or 0 for a dead socket |
| DelayQueue.VerdictsAreCounted | src/stack/delay_queue.c:193-229 | over every run the packets released, and those freed by verdicts, are exactly those |
| DelayQueue.LossesAreCounted | src/stack/delay_queue.c:183-229 | over every run the packets lost are exactly those of heard verdicts that are neither known one and find an entry |
| DelayQueue.NothingIsLeftOver | src/stack/delay_queue.c:66-251 | from the start every packet taken in waits, was freed, was released, or was lost at a step that loses; once nothing waits, it was freed or released if and only if no step lost it, and every reference was given back |
| DelayQueue.CountersAddUp | src/stack/delay_queue.c:30-31 | entries made are those waiting, dropped and released if and only if no step loses |
| DelayQueue.UnknownVerdictLosesPacket | src/stack/ctrl_handler.c:516 | a run in which they are not |
| DelayQueue.LostByUnknownVerdicts | src/stack/delay_queue.c:193-229 | where every verdict is a known one, nothing is lost |
| DelayQueue.VerdictBinds | src/stack/delay_queue.c:179-181 | the first verdict binds its peer |
| DelayQueue.OnlyPeerIsHeard | src/stack/delay_queue.c:173-178 | from then until a reset, through any other steps, a verdict of another peer gets -EBUSY and changes nothing |
| DelayQueue.UniqueIffFresh | src/stack/delay_queue.c:116 | over every run, past any wrap-around, ids are always unique if and only if no entry is made with an id still in hands |
| DelayQueue.VerdictReachesItsPacket | src/stack/delay_queue.c:55-64 | while ids are given out fresh, no two queued packets share an id |
| DelayQueue.FreshUntilWrap | src/stack/delay_queue.c:116 | until they wrap around, ids are given out fresh |
| DelayQueue.IdsRepeat | src/stack/delay_queue.c:116 | a run that gives one id to two entries |
| Deque.Iterator.constructor | list-master/src/list_iterator.c:15-36 | an iterator starts at its end of the list |
| Deque.List.NewIterator | list-master/src/list_iterator.c:15-36 | a new iterator, or none exactly when memory fails |
| Deque.Iterator.Next | list-master/src/list_iterator.c:43-52 | returns the next node from that end, nothing after the last |
| Deque.List.RPush | list-master/src/list.c:52-68 | appends; a null node changes nothing |
| Deque.List.LPush | list-master/src/list.c:115-131 | prepends; a null node changes nothing |
| Deque.List.RPop | list-master/src/list.c:74-88 | detaches the last node, nothing from an empty list |
| Deque.List.LPop | list-master/src/list.c:94-108 | detaches the first node, nothing from an empty list |
| Deque.List.Remove | list-master/src/list.c:188-202 | takes out one node anywhere, frees it once, and gives its value to the free hook if there is one |
| Deque.List.Find | list-master/src/list.c:137-158 | the first node whose value the match function, or without one equality, accepts; nothing exactly when there is none, and no result exactly when there is no memory for the iterator |
| Deque.List.AtIndex | list-master/src/list.c:164-182 | the node at an index from the head, or from the tail if negative, nothing outside; no result exactly inside without memory for the iterator |
| Deque.List.Iterate | list-master/src/list_iterator.c:15-52 | iterators yield the sequence or its reverse |

## Left out

- The SAL protocol engine, service resolution, TCP input and output, socket glue, control channels and the daemons: not part of this model.
- Locks and memory ordering: each locked section, and each thread's work on its own entry, is one atomic step. In the delay queue `queue_id++` and one `queue_dropped++` run outside the lock and are atomic here.
- Heap and timers (`src/common/heap.c`, `src/common/timer.c`): the heap's insertion and sift-down disagree on the order, so the natural claim about the earliest timer is false of them.
- `memcpy_fromiovecend`: it fails after its first copy.
- Plain predicates and small operations that would only add easy members: `list_is_last`, `list_empty_careful`, `hlist_*`, `serval_tcp_reno_ssthresh`, `serval_tcp_reno_min_cwnd`, `ktime_divns`, `ilog2`, `list_destroy`, `bst_subtree_func_recursive`, `bst_node_print_prefix`.
- TrieWalk.SubtreeFunc: what a callback returns, and whether it releases its node, depends on the entry's record; a callback that changes the trie elsewhere is not part of this model.
- TrieWalk.StackPush: the stack is a sequence of nodes; that its links are fields of the nodes is kept as the condition that no node is on it twice.
- Trie.Trie.FindLongestMatch: a filter sees the entry's record, which is all that the filters in `src/stack/service.c` look at, not the node.
- Reno.StepFits: does not bound the acknowledged bytes, which `src/stack/serval_tcp_input.c` adds up without limit; `RunBytesFit` says how far they grow. Counts are unbounded in the model.
- DelayQueue.Queue.SetVerdict: the counters are unbounded, except for packet ids, which wrap around.
- Iovec.ToIovec: needs as many bytes in the lower 32 bits of the lengths as are copied; otherwise the code goes on behind the end of the vector.
- Hashtable.Table.Hash: chains are sequences, so that `hlist` links are well formed is not part of this model.
- Checksum.DoCsum: the host is little-endian.
