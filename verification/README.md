# Verified core of green_turtle and its storage engine

This project models, in Dafny, the parts of the green_turtle network library and of the sophia
storage engine it links that carry the most intricate logic, and proves what they are for. It needs
no other library; `dafny verify dfyconfig.toml` checks all of it.

| modules | what they model |
|---|---|
| `Lz4Format`, `Lz4Buffer`, `Lz4Copy`, `Lz4Compress`, `Lz4Decompress`, `Lz4Outcomes`, `Lz4RoundTrip`, `Lz4Reads`, `Lz4Stale` | the LZ4 block codec: a format stated by itself, the greedy compressor with an arbitrary hash, the safe in-place decoder, what it accepts and refuses, what it reads outside its block and what old bytes it may hand out |
| `RbShape`, `RbTree`, `RbInsert`, `RbRemove`, `RbUnlink`, `RbWalk` | the red-black tree with parent links, as cells of an addressable memory |
| `Compaction`, `CompactionRuns`, `Tracking`, `Validation`, `CrashSafety`, `Recovery` | compactions as interleaved file steps, a crash after any of them, and recovery |
| `TimerSlots`, `TimerPlan`, `TimerTurns`, `TimerWheel` | the hashed timer wheel against a plain list of due times, and timers that are in a wrong slot |
| `Decimal`, `DigitGen`, `IntegerText` | Grisu2 digit generation and integer printing by multiplication |
| `PageOrder`, `PageIter`, `BranchRead` | reading a branch: page index, page search, duplicate chains |
| `Leb128`, `PageFormat`, `KeyTracker`, `PartSharing`, `PageBuild`, `PageKv` | pages with shared key parts, written and read back |
| `LogFormat`, `LogWriter`, `LogReplay`, `LogRoundTrip` | the write-ahead log: batched writer, iterator, replay, and the two together |
| `NodeRouting`, `Redistribution`, `IndexSplit` | routing a key to a node, splitting a node's versions, and putting its replacements in the tree |
| `MessageQueue` | the single-producer, single-consumer ring, one load or store a step |
| `Slicing`, `Crc32c`, `Polynomials`, `WordPolynomials`, `CrcRemainder` | CRC32C eight bytes at a time, and as the remainder of a division of polynomials |
| `BucketLists`, `RangeCore`, `RangeQueue`, `RequeuedNode`, `Planner` | the scheduler's bucket queue over linked lists, what a stale node does to it, and the peeks |
| `BranchCache` | the branch read cache |
| `Machine`, `Arithmetic`, `Sequences` | what the others share |

Each group states what it promises by definitions of its own (`Expand`, `InOrder`, `Survives`,
`Run`, `Scan`, `Remainder`, `Belongs`, `ReplayedCount`, `History` and so on) and proves the code's form against them.

What a reader may want to know about the modelling:

- An object whose fields the source updates is a class, an in-place buffer an array. Tree nodes are
  cells of a memory map inside the tree object, so that links are addresses; the two mirrored halves
  of the tree algorithms are one method with a side as a parameter.
- Compactions and the ring are state machines over single steps, so that every interleaving and
  every point of a crash is covered. Recovery itself is taken as uninterrupted.
- The hash of the LZ4 compressor, of the page builder's tracker, and the `wp_w` argument of the digit
  generator are arbitrary.
- Masks and shifts by powers of two are remainders and quotients, except in `Crc32c`, which works on
  32-bit vectors. Integers are unbounded where the source's width cannot be exceeded; where it could
  be, the bound is an assertion or a precondition (`DigitGen`, `IntegerText`), and the ring's counters
  wrap.
- Keys compare as integers; a page starts with the head of a chain, and keys rise from page to page.

Where the code and its description differ, the model follows the code. Where a promise holds only under
a condition, the input that breaks it is given and the condition is proved to be exact:

- The LZ4 decoder may read up to two bytes of a shorter input. `Lz4Reads.ReadsInside` says exactly when it reads
  outside the block, and `Lz4Reads.AnswerOfBlock` that only for an empty block the answer depends on it
  (`Lz4Reads.EmptyBlock`).
- The LZ4 decoder accepts an offset of zero and leaves the buffer there as it was, so bytes from before the call may be
  handed out (`Lz4Stale.StaleOutput`). They need not be: the literal copy may have overrun them
  (`Lz4Stale.SettledOutput`). `Lz4Stale.AnswerFromBlock` says exactly when the answer is that of the block alone, by
  decoding cell numbers, which takes the block and the sizes and no buffer.
- The two assertions in the timer queue's constructor can never fail; powers of two are a
  precondition of the caller. A timer scheduled before the first update may be overdue and unheard after it or after
  the next (`TimerWheel.LeftBehind`). `TimerTurns.ScheduledEarly` says exactly which timers are never late, whatever
  updates follow; the event loop updates its wheel once before anything is scheduled.
- The log iterator compares the number of statements in an announcing record with the bytes left in
  the log. A log that is cut right behind such a record can therefore lose the whole transaction in
  front of it (`LogReplay.WholeTransactionLost`); `LogReplay.CutReplay` says exactly when, and
  `LogReplay.CutSucceeds` when recovery reports a failure.
- In the log format an empty transaction stops the replay (`LogReplay.CompleteReplay`). The engine
  writes none: a commit of nothing returns before the log is reached (`se_tx.c:220-225`,
  `se_batch.c:121-124` in the environment directory).
- After a split, a version whose key is below the first new minimum is not where reads look for it,
  unless the node was the leftmost (`IndexSplit.RoutePlaced`). If the key is not above the left neighbour's greatest,
  the next compaction breaks the order of the two ranges, and exactly then (`Redistribution.NextCompaction`).
- A node deleted from a range queue still remembers its bucket, and an update deletes it once more.
  The queue then loses nodes or hands out a list head (`RequeuedNode.UpdateAfterDelete`);
  `RangeCore.UpdateExactly` says exactly which updates work. The engine frees a node once it is
  removed from the planner and updates none after that.
- A planner peek can miss a node that reaches the watermark (`Planner.PeekMisses`).
  `Planner.ReliableExactly` says for which watermarks none can.
- Equal key parts of a page are written once only as long as the tracker need not grow, which is up to 16385 different
  parts (`PageBuild.Builder.End`). A part whose slot was found before the table grew is set there all the same;
  `KeyTracker.StaleSlot` says exactly when a later search misses it. Nothing is lost then, the part is written again.
- A crash in the first deployment leaves a directory that one recovery refuses and empties
  (`Recovery.Repository.RecoverDeployment`).

## Model

| member | source | states |
|---|---|---|
| Lz4RoundTrip.RoundTrip | deps/sophia/sophia/std/ss_lz4filter.c:2215-2424 | For every input up to the maximum size and every hash function, the safe decoder given the compressor's output and an output buffer at least as large as the input returns the input's length and exactly the input; the compressed size is positive and within the bound. |
| Lz4Decompress.DecodeEncode | deps/sophia/sophia/std/ss_lz4filter.c:2659-2835 | Every valid block, whoever made it, decodes to the data it stands for, with any bytes behind it in memory and any output buffer that is large enough. |
| Lz4Outcomes.DecodeExactly | deps/sophia/sophia/std/ss_lz4filter.c:2694-2835 | The decoder's answer, whatever it is, is the one the format gives, and no other: the input begins with encoded sequences that fit, and behind them stand the last literals, or a zero offset, or one of five flaws, each with the position reported: literals that do not end the input or do not fit, an endless literal length, an offset before the output, an endless match length, a match that does not fit. |
| Lz4Outcomes.AcceptedIsBlock | deps/sophia/sophia/std/ss_lz4filter.c:2724-2737 | What is accepted is a valid block and the output is its expansion: the converse of decoding an encoding. |
| Lz4Outcomes.OneByteShort | deps/sophia/sophia/std/ss_lz4filter.c:2730-2733 | The block of thirteen equal bytes, given room for twelve, is refused at its second byte. |
| Lz4Format.BlockBound | deps/sophia/sophia/std/ss_lz4filter.c:378 | Any list of sequences that stands for data of a given size encodes to at most size + size/255 + 16 bytes. |
| Lz4Format.SequencesBound | deps/sophia/sophia/std/ss_lz4filter.c:2315-2375 | What the sequences of a valid block take up, against the data they stand for: at most 256/255 of it. |
| Lz4Format.CopyMatchUnique | deps/sophia/sophia/std/ss_lz4filter.c:2796-2823 | A back reference determines the bytes it stands for, also when it overlaps what it produces. |
| Lz4Compress.Compress | deps/sophia/sophia/std/ss_lz4filter.c:2215-2424 | Refuses exactly the inputs above 2113929216 bytes, or above 65546 with the 16-bit table; otherwise writes the encoding of a valid block whose expansion is the input, within the bound, for any table size, hash function and table kind. No match could be longer in either direction, inputs below thirteen bytes are literals, and fourteen or more equal bytes take one sequence, whose match reaches up to the last five. |
| Lz4Compress.EmitSequences | deps/sophia/sophia/std/ss_lz4filter.c:2267-2408 | The main loop: what is written is always the encoding of sequences that expand to the input up to the anchor, none of whose matches could be longer, and it stops only where no match may begin any more or a whole search behind the anchor has found none. |
| Lz4Compress.NextSequence | deps/sophia/sophia/std/ss_lz4filter.c:2271-2404 | One turn: the block grows by one sequence and the next position is known to match or not, or the search from behind the anchor gives up and nothing is written. |
| Lz4Compress.AppendLongest | deps/sophia/sophia/std/ss_lz4filter.c:2312-2375 | A sequence extended as far back and ahead as its copies agree keeps the block one for the input in which no match could be longer. |
| Lz4Compress.FindMatch | deps/sophia/sophia/std/ss_lz4filter.c:2276-2310 | The outcome is that of probing positions with strides that grow by one every sixty-four probes: the first whose suggestion in the table is within reach and has the same four bytes, or none before the end; the table has then exactly the probed positions entered. |
| Lz4Compress.CatchUp | deps/sophia/sophia/std/ss_lz4filter.c:2312-2313 | Moving both positions back keeps the match, never passes the anchor, and stops only there, at the start or at a difference. |
| Lz4Compress.Count | deps/sophia/sophia/std/ss_lz4filter.c:2111-2127 | The number of equal bytes up to the limit, found a word at a time, is exactly the length of the longest common run. |
| Lz4Compress.NextMatch | deps/sophia/sophia/std/ss_lz4filter.c:2382-2404 | The position right behind a match is accepted exactly when its suggestion, after the position two back has been entered, is within reach and has the same four bytes; the table then holds both positions and earlier ones. |
| Lz4Compress.EmitLiterals | deps/sophia/sophia/std/ss_lz4filter.c:2315-2333 | Token, length bytes and literals are those of the format, although the copy writes up to eight bytes too many. |
| Lz4Compress.EmitMatch | deps/sophia/sophia/std/ss_lz4filter.c:2335-2375 | Offset and match length bytes are those of the format, with the low half of the token completed in place. |
| Lz4Compress.EmitLast | deps/sophia/sophia/std/ss_lz4filter.c:2410-2420 | The last literals complete the encoding of the block. |
| Lz4Decompress.Decompress | deps/sophia/sophia/std/ss_lz4filter.c:2659-2835 | Result and buffer are exactly those of the decoding of cells, for every input and every buffer, zero offsets included; without a zero offset they are those of the byte-at-a-time decoding, which `Lz4Outcomes.DecodeExactly` fixes by the format: the output and its length, or the negative position of the error. Nothing outside the buffer is written. |
| Lz4Decompress.DecodeLeaves | deps/sophia/sophia/std/ss_lz4filter.c:2687-2835 | What is left in the buffer is what the block stands for, byte by byte, unless a zero offset is met. |
| Lz4Decompress.DecodeTurn | deps/sophia/sophia/std/ss_lz4filter.c:2699-2824 | One turn of the decoding loop, with all its end-of-buffer branches, leaves exactly the buffer that the turn's copies leave, overrun included. |
| Lz4Decompress.LiteralLength | deps/sophia/sophia/std/ss_lz4filter.c:2705-2718 | The loop over literal length bytes agrees with the length run, including the single byte read near the end of the input. |
| Lz4Decompress.MatchLength | deps/sophia/sophia/std/ss_lz4filter.c:2747-2760 | The loop over match length bytes agrees with the length run and stops with an error when it runs into the last literals. |
| Lz4Copy.CopyMatchInPlace | deps/sophia/sophia/std/ss_lz4filter.c:2796-2823 | The eight-byte copies, the tables for offsets below eight and the exact copy near the end leave exactly the buffer of the match on cells; for a proper offset this is the overlapping copy byte by byte. |
| Lz4Copy.StartShortMatch | deps/sophia/sophia/std/ss_lz4filter.c:2798-2807 | The first eight bytes and the place to go on reading for an offset below eight, zero included, are those of the match on cells. |
| Lz4Copy.WildCopyMatch | deps/sophia/sophia/std/ss_lz4filter.c:2003-2009 | Copying eight bytes at a time inside the buffer leaves the buffer of the copy on cells, with what runs past the end. |
| Lz4Buffer.MatchCopies | deps/sophia/sophia/std/ss_lz4filter.c:2796-2823 | With a proper offset the match on cells produces the overlapping copy, although the tables stretch the distance. |
| Lz4Buffer.SelfKeeps | deps/sophia/sophia/std/ss_lz4filter.c:2796-2823 | With offset zero the first eight cells, and all before, stay as they were. |
| Lz4Buffer.MatchTraces | deps/sophia/sophia/std/ss_lz4filter.c:2796-2823 | A match moves the same cells whatever they hold. |
| Lz4Reads.ReadsInside | deps/sophia/sophia/std/ss_lz4filter.c:2694-2718 | A byte behind the readable memory is read exactly when there is room for output and the memory is empty, or is one byte of 240 or more. |
| Lz4Reads.AnswerOfBlock | deps/sophia/sophia/std/ss_lz4filter.c:2694-2835 | The answer is the same for all memories with the same block exactly when the block is not empty or there is no room for output. |
| Lz4Reads.EmptyBlock | deps/sophia/sophia/std/ss_lz4filter.c:2703-2718 | Two memories behind an empty block that give different answers. |
| Lz4Stale.AnswerFromBlock | deps/sophia/sophia/std/ss_lz4filter.c:2659-2835 | The answer is the same for all buffers exactly when no cell number of the buffer is left in the output of cell numbers, which depends on the block and the sizes alone. |
| Lz4Stale.OriginsTrace | deps/sophia/sophia/std/ss_lz4filter.c:2659-2835 | Every byte left in the buffer is the one that its cell number names, in the block or in the old buffer. |
| Lz4Stale.ProperOffsets | deps/sophia/sophia/std/ss_lz4filter.c:2743-2823 | Without a zero offset no byte comes from the old buffer. |
| Lz4Stale.SelfCopies | deps/sophia/sophia/std/ss_lz4filter.c:2740-2823 | After a sequence with offset zero the eight bytes behind the literals are input as far as the literal copy ran over, and old bytes from there on. |
| Lz4Stale.StaleOutput | deps/sophia/sophia/std/ss_lz4filter.c:2796-2823 | A block whose output holds four bytes of the old buffer, for every buffer of 32 bytes. |
| Lz4Stale.SettledOutput | deps/sophia/sophia/std/ss_lz4filter.c:2740-2823 | A block with a zero offset whose output is the same for every buffer of 32 bytes. |
| RbInsert.Set | deps/sophia/sophia/std/ss_rb.c:158-174 | Insertion keeps all red-black and parent-link invariants and puts the node next to the given parent in the order; no other node moves and no cell outside the tree changes. |
| RbInsert.Fixup | deps/sophia/sophia/std/ss_rb.c:112-156 | The repair loop ends in a valid tree with the same order and the same nodes. |
| RbInsert.FixRedUncle | deps/sophia/sophia/std/ss_rb.c:120-125 | Recolouring moves the only red pair two levels up and keeps black heights and order. |
| RbInsert.FixBlackUncle | deps/sophia/sophia/std/ss_rb.c:132-135 | The rotation with recolouring removes the red pair and keeps black heights and order. |
| RbInsert.FixInnerNode | deps/sophia/sophia/std/ss_rb.c:127-131 | The first rotation of the inner case leaves an outer case with the same order. |
| RbTree.Tree.Rotate | deps/sophia/sophia/std/ss_rb.c:68-110 | A rotation of any node in any context gives the rotated shape, with every parent and child link right. |
| RbShape.RotateShape | deps/sophia/sophia/std/ss_rb.c:68-110 | A rotation keeps order, nodes and everything around it. |
| RbShape.HeightBound | deps/sophia/sophia/std/ss_rb.c:112-156 | In a red-black tree 2 to the height is at most the square of size + 1, so the height is at most twice the logarithm. |
| RbUnlink.Remove | deps/sophia/sophia/std/ss_rb.c:195-323 | Removal keeps all invariants and takes exactly the given node out of the order; a node that was never linked leaves everything as it is. |
| RbUnlink.RemoveInner | deps/sophia/sophia/std/ss_rb.c:207-253 | A node with two children is replaced by its successor, near or deep, and the tree is valid again with the node gone from the order. |
| RbUnlink.RemoveOuter | deps/sophia/sophia/std/ss_rb.c:202-221 | A node with at most one child is replaced by that child, and the tree is valid again with the node gone from the order. |
| RbUnlink.FindSuccessor | deps/sophia/sophia/std/ss_rb.c:208-210 | The walk down the left links ends at the successor, with the path it took. |
| RbUnlink.Settle | deps/sophia/sophia/std/ss_rb.c:244-253 | What is to be done about the removed colour: nothing, painting one node, or the repair loop. |
| RbUnlink.Replace | deps/sophia/sophia/std/ss_rb.c:176-193 | The new node takes the old one's place in the order and its links and colour; the tree stays valid. |
| RbRemove.Mend | deps/sophia/sophia/std/ss_rb.c:254-322 | The loop that repairs a missing black ends in a valid tree with the same order and the same nodes. |
| RbRemove.MendRedSibling | deps/sophia/sophia/std/ss_rb.c:260-267 | A red sibling is rotated up; the sibling is black afterwards and order and black heights are kept. |
| RbRemove.MendBlackNephews | deps/sophia/sophia/std/ss_rb.c:268-275 | With two black nephews the missing black moves one level up. |
| RbRemove.MendNearNephew | deps/sophia/sophia/std/ss_rb.c:276-282 | A red near nephew is rotated to the far side; order and black heights are kept. |
| RbRemove.MendFarNephew | deps/sophia/sophia/std/ss_rb.c:283-288 | A red far nephew pays for the missing black: the tree is balanced again. |
| RbWalk.Outermost | deps/sophia/sophia/std/ss_rb.c:16-33 | The first or last node of a subtree in order. |
| RbWalk.Neighbor | deps/sophia/sophia/std/ss_rb.c:36-66 | The next or previous node in order, or none at the end; from no node, the first or last one. |
| RbWalk.Get | deps/sophia/sophia/std/ss_rb.h:37-59 | The descent finds a node that compares equal, or the one gap with everything smaller before it and everything greater behind it. |
| Compaction.StepKeepsInv | deps/sophia/sophia/index/si_compaction.c:163-346 | Every step of any number of concurrent compactions, with a number drawn before its file appears, and every branch appended to a node, keeps the invariant that ties files, stages and numbers together. |
| Compaction.StepIsFileOperation | deps/sophia/sophia/index/si_node.c:228-251 | Each step is at most one file created, extended, renamed or removed. |
| Compaction.EveryRunKeepsInv | deps/sophia/sophia/index/si_compaction.c:298-346 | The invariant holds after any run of steps with any number of crashes and recoveries in between. |
| Compaction.StepExtends | deps/sophia/sophia/index/si_balance.c:127-129 | A node that is there before and after a step keeps its parent, and its branches grow at the end only. |
| Compaction.EveryRunKeepsBranches | deps/sophia/sophia/index/si_balance.c:60-66 | After any run, with any number of crashes, a node has the parent it was made with and its first branch followed by every branch appended since, as read off the run. |
| CompactionRuns.RunsToEnd | deps/sophia/sophia/index/si_compaction.c:298-346 | From any state at rest a compaction of any node into any number of replacements runs to its end: exactly that node is replaced, by that many new ones with the next numbers. |
| CompactionRuns.BranchRuns | deps/sophia/sophia/index/si_balance.c:113-135 | From any state at rest a branch can be appended to any node: that node has one more branch and nothing else changes. |
| Compaction.AllOrNothing | deps/sophia/sophia/index/si_compaction.c:298-346 | At every point, what must survive of a compaction is exactly the old node or exactly all its replacements: the old one while building, the new ones once it is unlinked. |
| Compaction.SurvivorsAtRest | deps/sophia/sophia/index/si_recover.c:325-357 | The surviving nodes form a database at rest again, so that crashes can follow one another. |
| Recovery.Repository.Recover | deps/sophia/sophia/index/si_recover.c:359-384 | Recovery of the directory left by a crash at any point succeeds and leaves exactly the surviving nodes, as complete files and in the index, with a number that is the highest seen. |
| Recovery.Repository.RecoverRun | deps/sophia/sophia/index/si_recover.c:359-384 | After any run of steps and crashes from a state at rest, recovery indexes every surviving node with the parent it was made with and every branch ever appended to it, computed from the run alone. |
| Recovery.Repository.TrackCrash | deps/sophia/sophia/index/si_recover.c:176-271 | Tracking what a crash left gives every node the entry of the stage it was in. |
| Recovery.Repository.JudgeCrash | deps/sophia/sophia/index/si_recover.c:273-323 | Judging what a crash left succeeds and condemns exactly the nodes that do not survive. |
| Recovery.Repository.TrackDir | deps/sophia/sophia/index/si_recover.c:176-271 | Tracking a directory listed in any order gives each id the entry its files determine, removes incomplete files only, and the number found is the highest in any name or header. |
| Recovery.Repository.TrackFile | deps/sophia/sophia/index/si_recover.c:180-264 | One directory entry extends the tracked state from the files seen before to those and this one. |
| Recovery.Repository.TrackMetrics | deps/sophia/sophia/index/si_track.h:38-61 | The highest number is raised to every branch of an opened node and to nothing else. |
| Tracking.TrackUnique | deps/sophia/sophia/index/si_recover.c:176-271 | The tracked nodes and their flags are determined by the files, so they do not depend on the order of listing. |
| Tracking.MarkSealed | deps/sophia/sophia/index/si_recover.c:195-231 | A sealed file marks its parent, and its own node is new to the track. |
| Tracking.MarkComplete | deps/sophia/sophia/index/si_recover.c:235-264 | A complete file takes over the flags of the placeholder made for it before. |
| Recovery.Repository.Validate | deps/sophia/sophia/index/si_recover.c:273-323 | Walking the ids from the highest down gives every node the verdict that the tracked flags determine, and fails exactly when some combination of flags is none a compaction leaves. |
| Recovery.Repository.Judge | deps/sophia/sophia/index/si_recover.c:279-319 | The visit of one node, including the rename of a sealed node that is not condemned. |
| Validation.VisitKeeps | deps/sophia/sophia/index/si_recover.c:278-321 | A visit brings one more id to its verdict, since ids above it have all been visited. |
| Recovery.Repository.Complete | deps/sophia/sophia/index/si_recover.c:325-357 | Exactly the condemned nodes lose their files, and exactly the others enter the index. |
| CrashSafety.CrashTrackable | deps/sophia/sophia/index/si_recover.c:176-271 | The directory left by a crash satisfies what tracking needs. |
| CrashSafety.CrashEntries | deps/sophia/sophia/index/si_recover.c:180-264 | What is tracked after a crash, stage by stage. |
| CrashSafety.CrashCondemned | deps/sophia/sophia/index/si_recover.c:289-305 | A node is condemned exactly when all replacements of its compaction were sealed. |
| CrashSafety.CrashAccepted | deps/sophia/sophia/index/si_recover.c:280-319 | No crash during a compaction leads to a combination of flags that recovery refuses. |
| CrashSafety.CrashDecided | deps/sophia/sophia/index/si_recover.c:273-323 | Validation keeps exactly the nodes that must survive. |
| CrashSafety.RefusedExactly | deps/sophia/sophia/index/si_recover.c:280-319 | Which tracked ids recovery refuses, for every directory that can be tracked, by the names and headers of its files. |
| CrashSafety.CondemnedExactly | deps/sophia/sophia/index/si_recover.c:289-311 | A tracked id is condemned exactly when a complete file's header names it as parent, or a sealed file's does and no replacement of it is incomplete; ids without a file count as naming 0. |
| Recovery.Repository.RecoverDeployment | deps/sophia/sophia/index/si_recover.c:191-215 | The directory left by a crash in the first deployment, whatever number its node got, is refused by one recovery and left empty. |
| TimerWheel.Wheel.Update | green_turtle/net/timer_queue.cc:63-92 | Every queued timer, in whatever slot it is, goes through exactly the turns of the update, and timers in no queue are left alone. If all were on time they do what the plain list of due times does and stay on time, except that a first update sets the clock under timers scheduled before it. |
| TimerWheel.Wheel.UpdateAll | green_turtle/net/event_loop.cc:102-107 | Any number of updates takes every queued timer through exactly that run of updates. |
| TimerTurns.PunctualTurns | green_turtle/net/timer_queue.cc:68-91 | A timer in the slot it is due in does over any turns what the plain list of due times does, and is in the slot it is due in afterwards. |
| TimerTurns.NeverLate | green_turtle/net/timer_queue.cc:63-92 | On a wheel that has been updated, no run of updates leaves a timer overdue, exactly when its slot comes up before the clock passes its due time by a tick. |
| TimerTurns.ScheduledEarly | green_turtle/net/timer_queue.cc:63-72 | A timer scheduled before the first update is overdue after no run of updates, exactly when it is in the slot served first or its slot comes up before it is late: a condition on its slot, its due time and the time of the first update. |
| TimerTurns.UpdatesHear | green_turtle/net/timer_queue.cc:63-92 | Late or not, over any run of updates a timer hears every instant of its progression once and in order, and none two ticks or more before it is due. |
| TimerWheel.EarlyInTime | green_turtle/net/timer_queue.cc:40-92 | For every wheel, interval, delay and run of updates, a timer scheduled before the first update that meets the condition is not overdue. |
| TimerWheel.LeftBehind | green_turtle/net/timer_queue.cc:40-92 | For every wheel, interval, delay and first update that do not meet it, the timer is overdue and unheard after a second update, at its due time or the time of the first. |
| TimerWheel.LeftBehindAtNinetyNine | green_turtle/net/timer_queue.cc:40-92 | A run in which only the second update leaves a timer overdue. |
| TimerPlan.UpdateHears | green_turtle/net/timer_queue.cc:63-92 | In an update at some time a timer hears every instant of its progression once and in order; none due by then is left over and none two ticks later or more is heard. |
| TimerPlan.RunHears | green_turtle/net/timer_queue.cc:68-91 | Over any number of ticks the instants before the clock are heard, each once and in order, and none after it. |
| TimerWheel.Wheel.Turn | green_turtle/net/timer_queue.cc:69-90 | One turn of the wheel is one turn for every timer: those in the slot hear everything due and move, the others stay. |
| TimerWheel.Wheel.ServeSlot | green_turtle/net/timer_queue.cc:75-90 | The loop over a slot serves each timer in it once, although served timers may return to the same slot. |
| TimerWheel.Wheel.ServeTimer | green_turtle/net/timer_queue.cc:76-85 | A timer hears everything due and moves to the slot of its next due time; in the same slot it gets its own cell back. |
| TimerWheel.Wheel.CatchUp | green_turtle/net/timer.cc:19-23 | The callback gets every due instant in order. |
| TimerWheel.Wheel.ScheduleTimer | green_turtle/net/timer_queue.cc:40-61 | Scheduling sets the due time and keeps the wheel valid; no other timer changes. |
| TimerWheel.Wheel.CancelTimer | green_turtle/net/timer_queue.cc:28-39 | Cancelling takes one timer out and keeps the wheel valid. |
| TimerTurns.ToSlotIsSlotFor | green_turtle/net/timer_queue.cc:48-53 | The slot computed with a full circle added is the one served in the tick of the due time, also for negative delays. |
| TimerTurns.SlotMissed | green_turtle/net/timer_queue.cc:71-72 | A timer outside the slot being served is due later and is where the advanced wheel expects it. |
| TimerTurns.SlotHit | green_turtle/net/timer_queue.cc:75-81 | In the slot being served, exactly what is due within the tick fires. |
| TimerSlots.Insert | green_turtle/unordered_list.h:49-60 | Insertion takes the last freed position, or a new one, and leaves all others alone. |
| TimerSlots.Erase | green_turtle/unordered_list.h:62-65 | Erasing frees a position, which is the next to be used. |
| DigitGen.Generate | green_turtle/num2a.h:500-557 | The digits are valid and begin with no zero, their scaled value lies in [Mp - delta, Mp], no multiple of a higher power of ten lies in (Mp - delta, Mp], and among the multiples of their own power of ten in the interval none is nearer to the distance that rounding aims at. |
| DigitGen.NearestToAim | green_turtle/num2a.h:503-555 | When rounding aims at Mp - W, that says that no number of these digits in the interval is nearer to W. |
| DigitGen.IntegralDigits | green_turtle/num2a.h:509-540 | The loop over the integral part ends with such digits, rounded to the nearest, or with the whole part printed and more than delta left. |
| DigitGen.FractionalDigits | green_turtle/num2a.h:543-556 | The loop over the fraction ends with such digits, rounded to the nearest, and never overflows 64 bits. |
| DigitGen.GrisuRound | green_turtle/num2a.h:477-484 | Rounding lowers the last digit only, never below zero, to the rest that is nearest to the given distance among those delta allows. |
| DigitGen.CountDecimalDigit32 | green_turtle/num2a.h:486-498 | The number of decimal digits. |
| IntegerText.U32ToA | green_turtle/num2a.h:112-164 | The text of every 32-bit number is its decimal numeral without leading zeros. |
| IntegerText.U64ToA | green_turtle/num2a.h:174-272 | The text of every 64-bit number is its decimal numeral without leading zeros. |
| IntegerText.Convert8Digits | green_turtle/num2a.h:64-94 | The text of any number below 10^8 in eight digits, computed with multiplications and shifts. |
| IntegerText.DivideBy10000 | green_turtle/num2a.h:66-68 | Multiplying by 0xd1b71759 and shifting by 45 is division by 10000. |
| IntegerText.FourDigitsAre | green_turtle/num2a.h:70-93 | The lanes of sixteen bits hold the four decimal digits. |
| IntegerText.Below10000000000000000 | green_turtle/num2a.h:209-232 | Shifting out the leading zeros of sixteen digits leaves the numeral. |
| IntegerText.Lut | green_turtle/num2a.h:32-43 | The two characters at twice a number below a hundred in the digit table are its digits. |
| IntegerText.FewZeros | green_turtle/num2a.h:96-110 | A number of more than eight digits has fewer than eight leading zeros among sixteen, so the shift is one of those that exist. |
| BranchRead.ReadAll | deps/sophia/sophia/index/si_read.h:142-217 | Reading a branch to the end from any key in any order gives exactly the records a linear scan of all pages selects: stored order ascending, or chains by descending key with the newest version first. |
| BranchRead.Reader.constructor | deps/sophia/sophia/index/si_read.h:142-170 | Opening a read leaves to be read exactly what the scan selects. |
| BranchRead.Reader.Next | deps/sophia/sophia/index/si_read.h:197-217 | Moving on takes one record off what is left to be read. |
| BranchRead.Reader.Retry | deps/sophia/sophia/index/si_read.h:204-216 | Turning pages until there is a record changes nothing of what is left. |
| BranchRead.ScanRouted | deps/sophia/sophia/index/si_read.h:142-170 | The scan of the page routed to, followed by the pages behind it, is the scan of the whole branch. |
| BranchRead.IndexIterator.FindRoute | deps/sophia/sophia/database/sd_indexiter.h:83-106 | Binary search finds the first page whose greatest key is not below the key, or the last page. |
| BranchRead.IndexIterator.Open | deps/sophia/sophia/database/sd_indexiter.h:108-166 | The page chosen splits the branch: pages on one side are wanted whole and on the other not at all; no page means that nothing is wanted. |
| BranchRead.AdjustedRoutes | deps/sophia/sophia/database/sd_indexiter.h:142-160 | The correction by one page is right for all four orders. |
| PageIter.Iterator.Open | deps/sophia/sophia/database/sd_pageiter.h:180-211 | Opening a page at any key and order leaves to be read what a scan of the page selects, and tells whether the key is there. |
| PageIter.Iterator.Next | deps/sophia/sophia/database/sd_pageiter.h:233-271 | Moving on takes the current record off what is left, through and between duplicate chains. |
| PageIter.Iterator.Search | deps/sophia/sophia/database/sd_pageiter.h:71-90 | Binary search ends at a record with the key or at the first greater one. |
| PageIter.Iterator.ChainHead | deps/sophia/sophia/database/sd_pageiter.h:92-106 | The head of the chain a record is in. |
| PageIter.Iterator.ChainNext | deps/sophia/sophia/database/sd_pageiter.h:108-123 | The head of the next chain. |
| PageIter.CutIsScan | deps/sophia/sophia/database/sd_pageiter.h:125-178 | A position at a chain boundary that separates the wanted records leaves exactly those to be read. |
| PageOrder.BackwardConcat | deps/sophia/sophia/database/sd_pageiter.h:249-267 | Chains read backward over a concatenation are those of the second part, then those of the first. |
| PageKv.RoundTrip | deps/sophia/sophia/database/sd_build.c:118-265 | Every record of any list comes back from the page built of it, with all key parts, value, lsn and flags, with or without deduplication, for any hash function and across resizes of the tracker. |
| PageKv.Build | deps/sophia/sophia/database/sd_build.c:68-341 | The page built of a list of records holds each of them; its key area holds every part in order without deduplication, and with it every different part once, in order of first use, up to 16385 of them. |
| PageKv.ReadBack | deps/sophia/sophia/database/sd_pagekv.h:56-83 | Reading record i gives the record that was added. |
| PageKv.Key | deps/sophia/sophia/database/sd_pagekv.h:21-34 | A key part read through its offset is the part that was added. |
| PageKv.Value | deps/sophia/sophia/database/sd_pagekv.h:36-54 | The value read is the one that was added: what the size leaves after the key parts. |
| PageBuild.Builder.Add | deps/sophia/sophia/database/sd_build.c:226-265 | Adding a record keeps every earlier record readable and makes this one readable. |
| PageBuild.Builder.AddPart | deps/sophia/sophia/database/sd_build.c:144-199 | The part is appended exactly when deduplication is off or the tracker's search finds no equal one; otherwise nothing is appended. Either way the offset leads to exactly its bytes, and the tracker stays valid. |
| PageBuild.Builder.End | deps/sophia/sophia/database/sd_build.c:304-341 | The finished page holds every record at the place its meta says, and no part twice as long as the tracker has not had to grow. |
| PageBuild.Builder.Commit | deps/sophia/sophia/database/sd_build.c:343-354 | After a page is committed the tracker holds no entry of it, so the next page starts with none. |
| PageBuild.Builder.Begin | deps/sophia/sophia/database/sd_build.c:68-103 | A page starts empty behind what the buffers hold. |
| PageBuild.TableSet | deps/sophia/sophia/database/sd_build.c:183-198 | Setting any slot, even one found before the table was resized, keeps every tracked entry valid. |
| PageBuild.MatchIsPart | deps/sophia/sophia/database/sd_build.c:112-116 | An entry whose hash, size and bytes match refers to the part itself. |
| KeyTracker.Search | deps/sophia/sophia/std/ss_ht.h:96-113 | Probing passes occupied slots that do not match, one after the other from the hash, and ends at the first that matches or is vacant. |
| KeyTracker.ThereIsFound | deps/sophia/sophia/std/ss_ht.h:96-113 | In a table whose entries can all be reached from their hashes, what is there is found. |
| KeyTracker.StaleSlot | deps/sophia/sophia/database/sd_build.c:183-198 | An entry set in a vacant slot is found afterwards exactly when no vacant slot stands between its hash and that slot. |
| PartSharing.FoundIsWritten | deps/sophia/sophia/database/sd_build.c:158-166 | Before the tracker grows, a part is found exactly when the page has it already. |
| KeyTracker.Resize | deps/sophia/sophia/std/ss_ht.h:75-94 | A table of twice the size with the same entries and the same count, each reached from its hash. |
| Leb128.Write | deps/sophia/sophia/std/ss_leb128.h:23-35 | The bytes written are the LEB128 encoding. |
| Leb128.LebExactly | deps/sophia/sophia/std/ss_leb128.h:23-35 | A run of bytes is the encoding of a number exactly when it stands for the number, marks every byte but the last and has no leading zero. |
| Leb128.StandardExamples | deps/sophia/sophia/std/ss_leb128.h:23-35 | Three encodings given as examples in section 7.6 of the DWARF version 4 standard. |
| Leb128.Read | deps/sophia/sophia/std/ss_leb128.h:37-49 | Reading what was written gives the value and its length. |
| Leb128.Skip | deps/sophia/sophia/std/ss_leb128.h:51-57 | Skipping what was written passes exactly its bytes. |
| Leb128.Size | deps/sophia/sophia/std/ss_leb128.h:12-21 | The size is the length of the encoding. |
| NodeRouting.Route | deps/sophia/sophia/index/si_iter.h:25-75 | A key is routed to the one node it belongs to: the last whose range does not begin above it, or the first; without a key the walk starts at an end; the match flag says whether the range holds the key, and is always set for a single node. |
| NodeRouting.Previous | deps/sophia/sophia/index/si_iter.h:66-71 | The node before the one a search ended at, or the first node. |
| NodeRouting.BelongsOnce | deps/sophia/sophia/index/si_node.h:101-119 | With disjoint ranges a key belongs to one node only. |
| NodeRouting.CompareAscends | deps/sophia/sophia/index/si_node.h:101-119 | The comparison of nodes with a key never falls along the order, so the tree can be searched by it. |
| Redistribution.Redistribute | deps/sophia/sophia/index/si_compaction.c:17-75 | Every version goes to exactly one new node, none is lost or reordered, and it is the node its key belongs to among the new ones. |
| Redistribution.PlacedIsRouted | deps/sophia/sophia/index/si_compaction.c:42-72 | In the whole index a key is routed to the new node that got it exactly when it is not below the first new minimum, or when nothing is to the left. |
| Redistribution.BelowIsRoutedLeft | deps/sophia/sophia/index/si_compaction.c:55-67 | A key below the first new minimum is routed to the left neighbour instead. |
| Redistribution.CompactionKeepsDisjoint | deps/sophia/sophia/index/si_compaction.c:269-292 | The ranges of the index stay disjoint after a compaction exactly when every key the node held is between its neighbours. |
| Redistribution.RoutedBetween | deps/sophia/sophia/index/si_iter.h:25-75 | A key that was routed to a node is between its neighbours. |
| Redistribution.NextCompaction | deps/sophia/sophia/index/si_compaction.c:42-72 | The compaction of a new node after a split keeps the ranges disjoint exactly when it is not the first, or nothing is to the left, or every key it holds is above the left neighbour's greatest. |
| IndexSplit.Split | deps/sophia/sophia/index/si_compaction.c:269-292 | Splitting a node: every version goes to one replacement, the tree stays valid and holds the replacements in the node's place in order, and a version's key belongs to the replacement that got it exactly when it is not below the first new minimum or the node was the leftmost. |
| IndexSplit.PutReplacements | deps/sophia/sophia/index/si_compaction.c:276-290 | The first replacement takes the node's place in the tree and the others are inserted: the order becomes left, replacements, right. |
| IndexSplit.Insert | deps/sophia/sophia/index/si.c:61-79 | A node inserted by its least key comes to stand where its range belongs. |
| IndexSplit.RoutePlaced | deps/sophia/sophia/index/si_iter.h:25-75 | Opening the index at a key gives the replacement the key was placed with, exactly under that condition. |
| LogWriter.Log.Write | deps/sophia/sophia/log/sl.c:515-531 | A transaction is appended to the log whole, in the format, whatever its number of statements. |
| LogWriter.Log.WriteMultiStmt | deps/sophia/sophia/log/sl.c:462-513 | The batched writer never overruns the vector or the header slots and never reuses a slot before it is flushed; what reaches the file is the announced transaction. |
| LogWriter.Log.WriteNext | deps/sophia/sophia/log/sl.c:484-501 | One statement more, with a flush when the vector has no room: file and vector together hold everything written so far. |
| LogWriter.Log.WriteStmt | deps/sophia/sophia/log/sl.c:444-460 | A single statement is written without an announcement. |
| LogReplay.Replay | deps/sophia/sophia/environment/se_recover.c:62-141 | Replay commits a prefix of the written transactions, with the same grouping and order, of exactly the length the log determines, and reports success exactly when nothing could be read to begin with or the log ends well behind that prefix. |
| LogReplay.CutReplay | deps/sophia/sophia/log/sl_iter.c:39-93 | For every cut at a record boundary the exact number of transactions committed: those that are whole, less the last when the announcement behind it promises more statements than bytes are left, and none from the first empty one on. |
| LogReplay.CutSucceeds | deps/sophia/sophia/environment/se_recover.c:73-141 | Without empty transactions, replay of a cut log succeeds exactly when the log ends with a whole transaction or not even a statement of the first could be read. |
| LogReplay.WholeTransactionLost | deps/sophia/sophia/log/sl_iter.c:60-66 | Such a log: one transaction and the announcement of 22 statements commit nothing. |
| LogReplay.WholeTransactionKept | deps/sophia/sophia/log/sl_iter.c:60-66 | With an announcement of 21 statements, as many as a header has bytes, the transaction in front is replayed. |
| LogFormat.TransactionBytes | deps/sophia/sophia/log/sl.c:462-513 | A lone statement costs one header of 21 bytes and its data; any other transaction one for each statement and one to announce them. |
| LogReplay.CompleteReplay | deps/sophia/sophia/log/sl_iter.c:95-116 | A complete log is replayed up to its first empty transaction, so wholly and with success exactly when it has none. |
| LogRoundTrip.WriteThenReplay | deps/sophia/sophia/log/sl.c:515-531 | Transactions written by the log writer and replayed from any cut of the file come back as stated above, and all of them from the whole file when none is empty. |
| LogRoundTrip.ParseChunks | deps/sophia/sophia/log/sl.c:429-442 | Reading the file header by header gives back the records that were written. |
| LogReplay.CutIsLog | deps/sophia/sophia/log/sl.c:462-513 | The log of any transactions, cut at any record boundary, is one that replay understands. |
| LogReplay.ReplayTx | deps/sophia/sophia/environment/se_recover.c:79-122 | One transaction is replayed whole or not at all, and exactly when it is whole and the record behind it passes the size check. |
| LogReplay.LogIterator.Next | deps/sophia/sophia/log/sl_iter.c:186-195 | Moving on from a statement: to the next one, to the next transaction, or to an error. |
| LogReplay.LogIterator.Continue | deps/sophia/sophia/log/sl_iter.c:95-116 | The next transaction is entered exactly when it has a statement in the log. |
| MessageQueue.Fifo | green_turtle/message_queue.h:83-103 | Under every interleaving of single loads, stores and cell accesses from the empty ring, what has been popped is a prefix of the arguments of the pushes that have been published, read off the run; the rest is in the ring, each at its place, and at most size - 1 values are in it. |
| MessageQueue.PushedArguments | green_turtle/message_queue.h:83-93 | What a run has pushed are the arguments of its published pushes, in order. |
| MessageQueue.PushRuns | green_turtle/message_queue.h:83-93 | From any reachable state with room, the steps of a push run through and add exactly its argument. |
| MessageQueue.PopRuns | green_turtle/message_queue.h:95-103 | From any reachable state that is not empty, the steps of a pop run through and take exactly the oldest value. |
| MessageQueue.StepKeepsInv | green_turtle/message_queue.h:83-103 | Every step of either side keeps the invariant, with counters that wrap at 2^64. |
| MessageQueue.RefusedWhenFull | green_turtle/message_queue.h:84-87 | A push is refused exactly when the ring was full as it loaded the read counter. |
| MessageQueue.NothingWhenEmpty | green_turtle/message_queue.h:96-98 | A pop finds nothing exactly when the ring was empty as it loaded the write counter. |
| MessageQueue.CellsApart | green_turtle/message_queue.h:89-101 | The cell being stored is never one that holds a value or is being taken. |
| Crc32c.Checksum | deps/sophia/sophia/std/ss_crc.c:308-345 | For every buffer, alignment and seed the checksum taken eight bytes at a time equals the one taken byte by byte. |
| CrcRemainder.ChecksumIsRemainder | deps/sophia/sophia/std/ss_crc.c:20-54 | A word is the checksum of a buffer exactly when it is the remainder of the seed and the bytes, as a polynomial with the low bits first, divided by the polynomial of RFC 3720, whose eighteen exponents are written out. |
| Polynomials.RemainderUnique | deps/sophia/sophia/std/ss_crc.c:308-345 | A polynomial has one remainder and one quotient. |
| WordPolynomials.StepsDivide | deps/sophia/sophia/std/ss_crc.c:317-318 | Shifting out bits one at a time divides by the polynomial that the feedback word stands for, for any words. |
| CrcRemainder.ShiftIsSteps | deps/sophia/sophia/std/ss_crc.c:317-318 | The step of the table for one byte is eight such single steps. |
| Crc32c.CrcConcat | deps/sophia/sophia/database/sd_build.c:315-319 | The checksum of a concatenation is the chained checksum of its parts. |
| Crc32c.SliceIsSteps | deps/sophia/sophia/std/ss_crc.c:324-340 | One turn of the fast loop is eight single-byte steps. |
| Crc32c.CrcLinear | deps/sophia/sophia/std/ss_crc.c:317-318 | The single-byte step is linear, and a byte one position higher takes one more step. |
| Slicing.EightSteps | deps/sophia/sophia/std/ss_crc.c:324-340 | The same for any linear step over any words. |
| RangeQueue.Queue.Update | deps/sophia/sophia/std/ss_rq.h:111-117 | The update works, giving a queue with the node in it and every other node kept, exactly when the node is queued or was not filed since it was initialised; then it is filed once, at the end of the bucket of its new value. |
| RangeQueue.Queue.Add | deps/sophia/sophia/std/ss_rq.h:68-89 | The counters, links, bucket number and highest bucket as written; in a queue that does not hold the node, it comes to the end of its bucket's list and nothing else moves. |
| RangeQueue.Queue.Delete | deps/sophia/sophia/std/ss_rq.h:91-109 | The counters, links and highest bucket as written, with the bucket number left in the node; a queued node is taken out of its list and nothing else moves. |
| RangeQueue.Queue.Prev | deps/sophia/sophia/std/ss_rq.h:119-141 | The node behind a given one in the walk, or the first. |
| RangeQueue.WalkVisitsAll | deps/sophia/sophia/std/ss_rq.h:119-141 | The walk visits each queued node once, in buckets that never rise. |
| RangeQueue.EveryRun | deps/sophia/sophia/std/ss_rq.h:68-117 | After every run of updates and deletes in which no deleted node is updated, the memory is a queue of exactly the nodes updated and not deleted since. |
| RangeCore.UpdateExactly | deps/sophia/sophia/std/ss_rq.h:111-117 | For every queue, node and value: an update works exactly when the node is queued or was not filed since it was initialised. |
| RangeCore.AddedHolds | deps/sophia/sophia/std/ss_rq.h:68-89 | Adding a node that is not queued keeps lists, links, counters and highest bucket in agreement. |
| RangeCore.DeletedHolds | deps/sophia/sophia/std/ss_rq.h:91-109 | Deleting a queued node keeps them in agreement, also when the highest bucket runs empty. |
| RequeuedNode.UpdateAfterDelete | deps/sophia/sophia/std/ss_rq.h:111-141 | The failing runs: a node filed, deleted and filed again is never visited in the same bucket; in another one the walk hands out the head of the old bucket. |
| BucketLists.AppendRing | deps/sophia/sophia/std/ss_list.h:23-29 | Appending to a circular list puts the node at its end, with both directions linked. |
| BucketLists.UnlinkRing | deps/sophia/sophia/std/ss_list.h:31-35 | Unlinking takes one node out of a circular list, with both directions linked. |
| Planner.Peek | deps/sophia/sophia/index/si_planner.c:184-204 | The first unlocked node of the walk is locked and returned when it reaches the watermark; nothing is returned otherwise. |
| Planner.NothingMeansNone | deps/sophia/sophia/index/si_planner.c:231-252 | With a watermark that splits the buckets, a peek never misses an unlocked node that reaches it. |
| Planner.SplitsExactly | deps/sophia/sophia/std/ss_rq.h:71-78 | The watermarks that split the buckets are exactly zero, one and the multiples of the range short of the last bucket. |
| Planner.ReliableExactly | deps/sophia/sophia/index/si_planner.c:184-204 | For every range and number of buckets: no peek at any queue misses a node that reaches the watermark, exactly when the watermark is zero, one or a multiple of the range short of the last bucket. |
| Planner.PeekMisses | deps/sophia/sophia/index/si_planner.c:190-198 | For every other watermark two nodes filed in turn make the peek return nothing while an unlocked node reaches it. |
| BranchCache.FollowAll | deps/sophia/sophia/index/si_cache.h:177-183 | After validation, following the cache for as many steps as the node has branches gives the branches in order, whether the cache was fresh, held another node, or the same node with fewer branches. |
| BranchCache.Cache.Validate | deps/sophia/sophia/index/si_cache.h:108-175 | After validation the cached entries are for exactly the node's branches and following starts at the first; new entries are closed, and those of a node cached before are as they were. |
| BranchCache.Cache.Prepend | deps/sophia/sophia/index/si_cache.h:118-142 | New branches are put in front with closed entries and the entries of the old ones are kept as they are. |
| BranchCache.Cache.Rebind | deps/sophia/sophia/index/si_cache.h:145-174 | Entries are reused for another node, closed, with more as needed. |
| Tracking.MarkIncomplete | deps/sophia/sophia/index/si_recover.c:191-215 | An incomplete file marks its parent, which may not have been seen yet. |

## Left out

- Lz4Compress.Compress: does not model the limited-output mode, nor prefix and external dictionaries.
- Lz4Decompress.Decompress: does not model partial decoding, the unsafe mode or dictionaries; after an error it says nothing about the buffer.
- LZ4 HC, the LZ4 frame format, streaming contexts and xxHash: separate codecs around the block codec.
- Compaction.StepKeepsInv: does not model failing file operations, unsynchronised writes or 32-bit wrap-around of node numbers; a replacement's branch has the replacement's own id.
- Recovery.Repository.Recover: does not model the parsing of file names, the lsn kept besides the node number, a crash during recovery, nor the deployment that follows when the directory holds no node.
- Recovery.Repository.Validate: takes the walk over the track tree as the ids in descending order.
- TimerWheel.Wheel.Update: does not model callbacks that touch the wheel, nor 64-bit wrap-around of times; slot lists are values of the wheel's field, not objects of their own.
- Recovery.Repository.TrackMetrics: does not model the lsn kept besides the node number.
- RbUnlink.Remove: does not model a second removal of the same node, whose colour and links are those of its last place in the tree.
- DigitGen.Generate: takes the unit as any number from 2^32 to 2^60 and lets the text grow freely; the cached powers, the decoding of doubles and the final formatting are not part of this model.
- IntegerText.U32ToA: does not model the returned length, which is one short in some branches; vector instructions are modelled lane by lane.
- IntegerText.U64ToA: does not model the returned length; signed wrappers are not part of this model.
- BranchRead.Reader.constructor: does not model the mode that only asks whether newer data exists, nor reading, decompressing or mapping a page.
- PageBuild.Builder.End: does not model the checksum and compression of the finished page.
- PageBuild.Builder.Add: does not model the raw storage format, the header's lsn range, checksums, allocation failure or 32-bit limits of offsets.
- PageKv.ReadBack: does not model the row layout the parts are copied into.
- LogWriter.Log.Write: does not model checksums, write errors, rotation or the assignment of lsns.
- LogRoundTrip.ParseChunks: takes a file as headers and bodies instead of bytes.
- LogReplay.Replay: does not model torn records, checksum failures, unknown databases or failing commits.
- IndexSplit.Split: does not model a compaction that leaves one replacement or none, where versions stay together or go to the neighbours.
- Redistribution.Redistribute: holds the versions of each new node as a sequence; the in-memory index itself is not part of this model.
- MessageQueue.Fifo: assumes that loads and stores take effect in program order, which the volatile counters alone do not guarantee.
- Crc32c.Checksum: takes the eight tables as defined by the polynomial instead of writing out their 2048 words; the hardware variant is not part of this model.
- RangeQueue.Queue.Update: holds for buckets of fewer than 2^32 - 1 nodes, beyond which the counters wrap.
- Planner.Peek: models the branch and compact peeks, which differ in the queue they walk, and takes a node's size or branch count to be the value it is queued under; the checkpoint, age, backup, garbage-collection and expiry peeks would add only variations.
- BranchCache.Cache.Validate: does not model allocation failure, nor the buffers and iterators in an entry beyond whether it is open.
- Sockets, event loops, connections, logging, the kv server, configuration objects, transactions and the scheduler's worker counters.
