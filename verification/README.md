# A verified model of the coordination kernel

The repository is a small operating system for many power modules that work as
one: they elect a leader, gossip events, share fields through memory, vote, keep
files, tables and logs, and run a little language. This project models its
self-contained protocols and data structures in Dafny and proves what they are
for: safety over whole runs, refinement of simple abstractions, round trips.

Each component has functions on values that say what an operation does, lemmas
about those functions and about runs of them, and, where the code updates state
in place, a class whose methods loop over arrays as the code does and are proved
to compute exactly those functions. The lemmas therefore hold of the methods.

| file | component |
|---|---|
| Types.dfy | identifiers, time and fixed-width arithmetic |
| Partition.dfy | partition detection and the reconciliation power ramp |
| Raft.dfy, RaftGate.dfy, RaftTerms.dfy, RaftNode.dfy | leader election over a bad network, gated by partition state |
| Spsc.dfy | the lock-free ring of one producer and one consumer |
| Seqlock.dfy | one slot of the coordination-field region |
| BlockCache.dfy, Ekkfs.dfy, EkkfsDriver.dfy | the file system: block cache, allocation, direct and indirect files |
| Syntax.dfy, Grammar.dfy, Printer.dfy, Readings.dfy, Precedence.dfy, Parser.dfy | expressions of the EKKL language |
| KvTable.dfy | the open-addressing key-value table with tombstones |
| VersionVector.dfy, Gossip.dfy, GossipLimit.dfy, GossipBuffer.dfy, GossipFlood.dfy | version vectors and event gossip |
| FlashLog.dfy | the wear-levelled flash log |
| Cutting.dfy, Auth.dfy, AuthBits.dfy | the message authentication code, at once and in pieces |
| Topology.dfy | k-nearest neighbour election and the integer square root |
| RingLog.dfy | the event log and the time series |
| Consensus.dfy | ballots and their early decisions |

`dafny verify dfyconfig.toml` checks everything.

## Findings

Where the code does less than one would expect, the model keeps the code as it is
and states exactly when the property holds.

- Raft: stepping down clears the vote even inside a term (ekk_raft.c:76). Never are
  there two leaders of a term at once (`Raft.ElectionSafety`); but a term can have two
  one after the other, exactly if the number of modules is odd and above one: two
  majorities may then share the first leader alone (`RaftTerms.OneLeaderIff`).
- Partition: ten seconds of ramp at the rate in the code (6553, though its comment
  says 6554) reach 65530 of 65536, so a completed sync never ends RECONCILING before
  the time limit does (`Partition.ReconcilingEndsAtLimit`).
- Partition: the 32-bit epoch goes back to 0 exactly when MAJORITY is entered at the
  largest epoch, which one received message can bring about
  (`Partition.EpochRisesIff`, `Partition.EpochCanWrap`).
- Seqlock: the garbage collector clears a source without touching the counter, so a
  sample can return OK with the source gone, exactly if that fell between the sampler's
  test of the source and its copy (`Seqlock.SourceLostIff`, `Seqlock.SourceCanBeLost`).
- EKKFS: a write that takes the last free block as a new indirect block and then finds
  none for data keeps that block unwritten in the inode. The file system stays valid
  exactly if the block held zeros (`Ekkfs.LostOutcome`, `EkkfsDriver.LosingWrite`);
  every other write, with room or without, keeps it valid.
- Version vectors: a merge or a delivery that needs a ninth entry drops it silently
  (`VersionVectors.MergeIsMax`, `Gossip.HandledTwice`), so events are delivered once
  in every run exactly with at most eight modules (`GossipLimit.NeverTwiceIff`).
- Gossip: forwarding raises the hop count twice (ekk_gossip.c:469 and :290), so an
  event is passed on twice at most, although the limit is three.
- Gossip: one pass in buffer order takes out what has come due (ekk_gossip.c:483-499),
  so an event that came due after it was passed over stays, and when it arrives once
  more it is delivered and stays for good (`GossipBuffer.DueButLeft`,
  `GossipBuffer.StaleForGood`), as does a second copy of an event. Nothing due or
  delivered is left exactly if, before the call, nothing delivered was there and each
  origin's consecutive events from the next one on stood in ascending order, none of
  them twice (`GossipBuffer.HandleIsCleanIff`). Three of the four slots can be lost in
  this way (`GossipBuffer.ThreeSlotsLost`), never all (`GossipBuffer.OneSlotStaysOpen`).
- Message authentication: an update that exactly completes the buffered block absorbs
  it at once, so a message of whole blocks fed with a short last piece gets another tag
  than the one-shot computation (`Auth.SplitsAgreeIff`).
- Square root: wrong exactly for the largest 32-bit integer (`Topology.Isqrt`).
- Time series: next stops at the first record past the window, although the query
  counts all of them (`TimeSeries.QueryGivesWindow`).
- Ballots: an abstention counts as a vote without filling its slot, so one module can
  reject a ballot alone (`Consensus.OneModuleRejects`, `Consensus.AbstentionsMislead`).
- EKKL: the type parser takes `<` after a named type for generic arguments, so an
  expression does not read back exactly if a cast to a bare named type in it is
  directly followed by `<` (`Readings.RoundTripIff`).

## Model

| member | source | states |
|---|---|---|
| Partition.RampIncrementExact | c/src/ekk_partition.c:98-115 | below the recovery limit the 64-bit ramp arithmetic neither wraps nor truncates: the increment is the exact floor of rate times elapsed time |
| Partition.ReconcilingEndsAtLimit | c/src/ekk_partition.c:196-222 | RECONCILING ends exactly at the first tick at or past the limit, with full power and the higher epoch; earlier ticks only raise the ramp, within rate times time since entry, and ten seconds of it stop short of 1.0, so a received sync never ends the state sooner |
| Partition.StepKeepsInv | c/src/ekk_partition.c:42-264 | one event keeps: freeze active exactly in MINORITY, power factor in [0, 1], ramp bounded by rate times time since entry; and never lowers the power factor while RECONCILING lasts |
| Partition.PowerIsMonotone | c/src/ekk_partition.c:98-115 | within one RECONCILING period of a run the power factor never decreases |
| Partition.EpochDropsIff | c/src/ekk_partition.c:64-70 | an event lowers the 32-bit epoch exactly when it enters MAJORITY at the largest epoch, and then to 0 |
| Partition.EpochRisesIff | c/src/ekk_partition.c:42-264 | over any stretch of a run the epoch never decreases if and only if it does not wrap in that stretch |
| Partition.EpochCanWrap | c/src/ekk_partition.c:65-70 | it can: a run in which the largest epoch is heard, adopted on rejoining, and wraps at the next MAJORITY |
| Partition.RunKeepsInv | c/src/ekk_partition.c:42-264 | those facts hold in every state of every run with a clock that does not go back |
| Partition.Fresh | c/src/ekk_partition.c:121-149 | a new context is healthy at the first epoch, with everybody in sight and full power |
| Partition.TickOutcome | c/src/ekk_partition.c:42-229 | all that a tick does outside RECONCILING: the state it leads to, by quorum, by how long quorum has been missing and by the epoch heard, and everything that entering it sets |
| Partition.ReconcilingTick | c/src/ekk_partition.c:205-222 | a tick in RECONCILING before the limit raises the ramp by the rate times the time since the last tick, and does nothing else |
| Partition.ReconcilingEnds | c/src/ekk_partition.c:205-222 | past the limit: healthy, full power, the higher epoch, the sync taken as complete, and nothing else changed |
| Partition.NoTwoMajorities | c/src/ekk_partition.c:151-195 | two groups that do not see each other never both come out of a tick in MAJORITY |
| Partition.EventOutcome | c/src/ekk_partition.c:231-264 | a sync message counts and completes the sync in RECONCILING alone; the other events set the number in sight or raise the epoch heard |
| Partition.PowerByState | c/src/ekk_partition.c:266-291 | no power in MINORITY, the ramp in RECONCILING, full power otherwise |
| Partition.PartitionCtx.constructor | c/src/ekk_partition.c:121-149 | a new context is the initial value |
| Partition.PartitionCtx.DoTransition | c/src/ekk_partition.c:42-90 | the in-place transition is the transition function, exit and entry actions included |
| Partition.PartitionCtx.DoUpdateRamp | c/src/ekk_partition.c:98-115 | the in-place ramp update is the ramp function |
| Partition.PartitionCtx.DoTick | c/src/ekk_partition.c:151-229 | the in-place tick is the tick function |
| Partition.PartitionCtx.OnEpochReceived | c/src/ekk_partition.c:244-264 | an observed epoch raises the maximum seen and nothing else |
| Partition.PartitionCtx.OnSyncReceived | c/src/ekk_partition.c:338-357 | a sync message is counted, and completes the sync at the quorum |
| Raft.TickReacts | c/src/ekk_raft.c:214-284 | what a tick can do to a node and send, in the terms the invariant needs |
| Raft.HeartbeatReacts | c/src/ekk_raft.c:286-317 | the same for a heartbeat, including same-term step-down |
| Raft.VoteRequestReacts | c/src/ekk_raft.c:319-370 | the same for a vote request: a vote is granted only to the module already voted for in the term, or to the first one |
| Raft.VoteResponseReacts | c/src/ekk_raft.c:372-404 | the same for a vote response: each voter is counted once |
| Raft.ReactionHolds | c/src/ekk_raft.c:214-439 | whichever public handler runs in a reachable cluster, its node reacts within those bounds |
| Raft.StepKeepsInv | c/src/ekk_raft.c:71-439 | one handler call on one node, on any message ever sent, keeps: votes received are the distinct granters, each with a vote response sent for that term; a vote for somebody else binds its voter for the rest of the term although stepping down clears the vote; a voter votes for one other module a term |
| Raft.QuorumsMeet | c/src/ekk_raft.c:100-120 | two sets of N/2+1 of N modules share a module |
| Raft.AtMostOneLeader | c/src/ekk_raft.c:125-141 | where the invariant holds, two leaders of one term are the same module |
| Raft.RunKeepsInv | c/src/ekk_raft.c:71-439 | the invariant holds in every state of every run over a network that loses, repeats, delays and reorders messages |
| Raft.ElectionSafety | c/src/ekk_raft.c:71-439 | in every state of every run no two modules are leader of the same term |
| RaftGate.FreshNode | c/src/ekk_raft.c:157-187 | a new node is a follower of nobody in term 0 that has not voted, and its first tick sets the timer and nothing else |
| RaftGate.VoteRequestOutcome | c/src/ekk_raft.c:319-370 | a vote is granted exactly in a term at least the node's own, if it has not voted for another in it, and while there is no partition context or its state is HEALTHY, MAJORITY or SUSPECTING; and everything the request changes |
| RaftGate.HeartbeatOutcome | c/src/ekk_raft.c:286-317 | a heartbeat of an older term changes nothing; any other makes a follower of its sender, restarts the timer, and clears the vote unless the node was a follower in that term |
| RaftGate.VoteResponseOutcome | c/src/ekk_raft.c:372-404 | a response counts exactly if granted to a candidate in its term by a module not counted yet; the one that completes the majority makes the leader, who sends a heartbeat |
| RaftGate.TickSends | c/src/ekk_raft.c:214-284 | a tick sends a vote request exactly when the timer has run out while there is no partition context or its state is HEALTHY or MAJORITY, a heartbeat exactly from a leader 50 ms after the last or a candidate with its majority, and nothing else |
| RaftGate.TickOutcome | c/src/ekk_raft.c:214-284 | everything a tick makes of the node's role, term, vote, count and timer |
| RaftGate.StepDownOutcome | c/src/ekk_raft.c:435-439 | stepping down is for leaders: a follower in the same term whose vote is free |
| RaftGate.CutOffIsSilent | c/src/ekk_raft.c:146-345 | in any run, a module in MINORITY or RECONCILING sends no vote request and grants no vote |
| RaftGate.ElectedByTheQuorate | c/src/ekk_raft.c:71-439 | in any state of any run, a leader was elected by a majority, each of whom stood or voted at a step at which its partition state allowed it |
| RaftGate.CutOffLeaderStepsDown | c/src/ekk_raft.c:274-279 | a leader cut off is a follower after its next tick |
| RaftTerms.OnlyTheFirstVotesTwice | c/src/ekk_raft.c:71-439 | two leaders of a term, one after the other, were elected by sets of modules that share at most the first of them |
| RaftTerms.OneLeaderOfEven | c/src/ekk_raft.c:71-439 | over any run of an even number of modules, or one, a term has one leader ever |
| RaftTerms.TwoLeadersInOneTerm | c/src/ekk_raft.c:76 | for every odd number of modules above one: a run, on one clock that does not go back, in which a second module is elected in a term after its first leader stepped down |
| RaftTerms.OneLeaderIff | c/src/ekk_raft.c:71-439 | every run in which no module's clock goes back has one leader per term ever if and only if the number of modules is even or one |
| RaftTerms.StepKeepsCandidacies | c/src/ekk_raft.c:71-141 | while nobody steps down within a term, a module that stood in a term has voted for nobody else in it |
| RaftTerms.OneLeaderEver | c/src/ekk_raft.c:71-439 | a run of any number of modules without a step-down within a term has one leader per term ever |
| RaftNode.RaftCtx.constructor | c/src/ekk_raft.c:157-187 | a new context is the initial node |
| RaftNode.RaftCtx.DoBecomeFollower | c/src/ekk_raft.c:71-89 | in place: the follower transition |
| RaftNode.RaftCtx.DoBecomeCandidate | c/src/ekk_raft.c:94-120 | in place: clearing the vote table by a loop, voting for oneself, and the broadcast |
| RaftNode.RaftCtx.DoBecomeLeader | c/src/ekk_raft.c:125-141 | in place: the leader transition and its heartbeat |
| RaftNode.RaftCtx.DoTick | c/src/ekk_raft.c:214-284 | in place: the tick, with all it sends |
| RaftNode.RaftCtx.DoOnHeartbeat | c/src/ekk_raft.c:286-317 | in place: the heartbeat handler |
| RaftNode.RaftCtx.DoOnVoteRequest | c/src/ekk_raft.c:319-370 | in place: the vote-request handler and its answer |
| RaftNode.RaftCtx.DoOnVoteResponse | c/src/ekk_raft.c:372-404 | in place: the vote-response handler, on a table indexed by module |
| RaftNode.RaftCtx.DoStepDown | c/src/ekk_raft.c:435-439 | in place: stepping down |
| Spsc.TestIsPower | c/src/ekk_spsc.c:19-21 | the initialiser's bit test accepts exactly the powers of two |
| Spsc.MaskIsWrap | c/src/ekk_spsc.c:68 | masking a number up to a power of two wraps there |
| Spsc.AcceptedIff | c/src/ekk_spsc.c:34-50 | the initialiser accepts exactly 2^k slots of a size other than 0 |
| Spsc.Next | c/src/ekk_spsc.c:68 | the masked index step stays below the capacity and is a step with a wrap |
| Spsc.LoadKeepsInv | c/src/ekk_spsc.c:66-97 | the producer's loads of head and tail keep the queue invariant, and a slot found free stays free while it is filled |
| Spsc.WriteKeepsInv | c/src/ekk_spsc.c:76 | storing one byte of an item changes no slot that holds a queued item |
| Spsc.StoreHeadKeepsInv | c/src/ekk_spsc.c:78-105 | storing head publishes exactly the item written |
| Spsc.FetchKeepsInv | c/src/ekk_spsc.c:111-146 | the consumer's loads and byte reads see the oldest queued item |
| Spsc.StoreTailKeepsInv | c/src/ekk_spsc.c:129-154 | storing tail removes exactly the item read |
| Spsc.RunKeepsInv | c/src/ekk_spsc.c:66-154 | the invariant holds under every interleaving of the single loads and stores of both sides |
| Spsc.QueueSafety | c/src/ekk_spsc.c:66-154 | what was popped is a prefix of what was pushed, at most capacity - 1 items are inside, and the producer never writes the slot the consumer is reading |
| Spsc.InsideIsTheDifference | c/src/ekk_spsc.c:66-154 | the slots from tail to head hold exactly the items pushed and not yet popped, in order |
| Spsc.LoadTailOutcome | c/src/ekk_spsc.c:66-97 | in every reachable state the full test passes exactly when fewer than capacity - 1 items are inside, for both kinds of push |
| Spsc.LoadHeadOutcome | c/src/ekk_spsc.c:111-146 | the empty test passes exactly when something pushed has not been popped |
| Spsc.WaitFree | c/src/ekk_spsc.c:66-154 | a call under way always has a next step, which brings it nearer to its end whatever the other side does in between |
| Spsc.PushAlone | c/src/ekk_spsc.c:66-85 | from every reachable state a push alone appends its item if there is room, step by step to its end, and else changes nothing |
| Spsc.PopAlone | c/src/ekk_spsc.c:111-132 | and a pop alone takes the oldest item, or changes nothing exactly when empty |
| Spsc.AcquireAlone | c/src/ekk_spsc.c:87-105 | acquire, filling in place and commit alone append what was filled in |
| Spsc.PeekAlone | c/src/ekk_spsc.c:134-154 | peek and release alone take the oldest item |
| Spsc.Ring.Push | c/src/ekk_spsc.c:66-85 | used by one thread: appends, or reports no memory exactly when capacity - 1 items are inside |
| Spsc.Ring.Pop | c/src/ekk_spsc.c:111-132 | takes the oldest item, or reports not found exactly when empty |
| Spsc.Ring.PushAcquire | c/src/ekk_spsc.c:87-97 | hands out a slot that holds no queued item, or nothing exactly when full |
| Spsc.Ring.PushCommit | c/src/ekk_spsc.c:99-105 | appends what the slot then holds |
| Spsc.Ring.PopPeek | c/src/ekk_spsc.c:134-146 | shows the oldest item, or nothing exactly when empty |
| Spsc.Ring.PopRelease | c/src/ekk_spsc.c:148-154 | drops the oldest item |
| Seqlock.StepKeepsInv | c/src/ekk_field.c:65-355 | each single store of the writer, load of a sampler, and load and store of the collector keeps: with an even counter the words but the source are the last publish; while the counter has not moved, what a sampler copied is that publish, its source lost exactly by a clearing since it was tested |
| Seqlock.RunKeepsInv | c/src/ekk_field.c:65-355 | this holds under every interleaving |
| Seqlock.NoTornReads | c/src/ekk_field.c:123-180 | all words but the source of a sample that returned OK are one publish's, its age is that publish's, and the source is that publish's unless it was cleared between test and copy |
| Seqlock.SourceLostIff | c/src/ekk_field.c:148-167 | an OK sample has lost its source if and only if the collector cleared it after the step at which this sampler tested it and before the step at which it copied it |
| Seqlock.WholeWithoutCollector | c/src/ekk_field.c:123-180 | where nothing is cleared, an OK sample is word for word one publish |
| Seqlock.SourceCanBeLost | c/src/ekk_field.c:344-349 | it happens: a run on one clock, with the sampler's age limit as the collector's, in which a sample returns OK with its source cleared |
| Seqlock.PublishAlone | c/src/ekk_field.c:65-117 | from every reachable state an undisturbed publish ends with its field stored, the counter two further and nothing else changed |
| Seqlock.PublishedReads | c/src/ekk_field.c:65-104 | a publish stores the six components in their places, the time, the module and the low byte of the counter |
| Seqlock.SampleAlone | c/src/ekk_field.c:123-180 | from every reachable state an undisturbed sample is busy with an odd counter, not found without a source, expired past 500 ms, and else returns all words with their age |
| Seqlock.CollectAlone | c/src/ekk_field.c:337-349 | an undisturbed collection clears the source exactly of a set field past its limit, and nothing else |
| Seqlock.FieldSlot.CollectSlot | c/src/ekk_field.c:337-349 | in place: clears the source exactly of a set field older than the limit, and nothing else |
| Seqlock.FieldSlot.Publish | c/src/ekk_field.c:79-104 | in place: stores the whole field and moves the counter by two |
| Seqlock.FieldSlot.SampleSlot | c/src/ekk_field.c:137-174 | in place: the four outcomes, each exactly when, and what an OK sample returns |
| BlockCache.Device.constructor | c/src/ekkfs.c:64-76 | an empty cache over a card |
| BlockCache.Device.Find | c/src/ekkfs.c:82-95 | finds the entry of a block if there is one, and makes it the most recently accessed |
| BlockCache.Device.FindLru | c/src/ekkfs.c:101-117 | an empty slot, or the least recently accessed one |
| BlockCache.Device.WriteBack | c/src/ekkfs.c:123-135 | writing a dirty entry back leaves the card as it is: write-through already put it there |
| BlockCache.Device.Insert | c/src/ekkfs.c:268-275 | a new block takes an empty or the least recently accessed slot, and no other entry changes |
| BlockCache.Device.ReadBlock | c/src/ekkfs.c:249-278 | returns the card's block, whatever is cached |
| BlockCache.Device.WriteBlock | c/src/ekkfs.c:280-313 | changes exactly that block of the card, and keeps every cached entry equal to its block and all of them distinct |
| BlockCache.Device.Flush | c/src/ekkfs.c:141-151 | leaves the card as it is and no entry dirty |
| Ekkfs.TableRoundTrip | c/src/ekkfs.c:955-999 | a table of 32-bit block numbers, stored as bytes and read again, is the same table |
| Ekkfs.OverwriteReads | c/src/ekkfs.c:964-1000 | overwriting reads back the data where it was written, zeros in a gap before it, and the old bytes elsewhere |
| Ekkfs.FlipCounts | c/src/ekkfs.c:353-390 | marking or freeing a block moves the free counter with the number of clear bits |
| Ekkfs.PlaceableAlone | c/src/ekkfs.c:934-976 | a block that may go into a slot is in no other slot of any file |
| Ekkfs.PlacePointers | c/src/ekkfs.c:934-999 | storing a block and its pointer, direct or in the indirect table, moves no other pointer of any file |
| Ekkfs.PlaceKeepsOwnership | c/src/ekkfs.c:934-999 | and keeps every owned block marked and in one slot only |
| Ekkfs.PlaceLeaksNothing | c/src/ekkfs.c:934-999 | and leaves no marked block outside the files, once the fresh blocks of the round are placed |
| Ekkfs.PlaceBytes | c/src/ekkfs.c:964-1000 | and changes exactly the bytes of the chunk in that one file |
| Ekkfs.WroteMore | c/src/ekkfs.c:934-1003 | one more chunk written extends the written range and touches nothing else |
| Ekkfs.WriteCompletes | c/src/ekkfs.c:1005-1010 | storing the inode with its new size after the loop gives a valid file system in which the file reads as overwritten |
| Ekkfs.NextRound | c/src/ekkfs.c:934-1003 | the blocks taken so far are what the part written so far needed |
| Ekkfs.RunsOut | c/src/ekkfs.c:943-976 | a round that finds too few blocks means the whole write needs more than were free; and it loses the fresh indirect block exactly when that was the last |
| Ekkfs.StoppedOutcome | c/src/ekkfs.c:934-1021 | however the write loop ends, the outcome is as stated for the whole write |
| Ekkfs.EnoughIsKept | c/src/ekkfs.c:948-978 | a write with room for all of it never loses the fresh indirect block |
| Ekkfs.WriteWithRoom | c/src/ekkfs.c:910-1022 | with enough free blocks for the whole write, everything is written, exactly the blocks needed are gone, and the map from names to contents changes at that name to the overwritten contents |
| Ekkfs.StaleWordBreaks | c/src/ekkfs.c:948-978 | in an indirect block taken as the last free one and not written, any word but 0 breaks ownership: no block is left for it to own |
| Ekkfs.ZerosKeepWritten | c/src/ekkfs.c:948-978 | if that block held zeros, nothing is broken |
| Ekkfs.LostOutcome | c/src/ekkfs.c:948-978 | what a write leaves when it loses that block: the block that was free last is the indirect block, as it was, none is free, and the file system is valid if and only if it held zeros |
| Ekkfs.CreateFiles | c/src/ekkfs.c:721-761 | filling a free inode adds one empty file to the map |
| Ekkfs.DeleteCompletes | c/src/ekkfs.c:763-817 | once its blocks are freed and its inode cleared, exactly that name is gone, and the file system is valid |
| Ekkfs.DeleteLeaksNothing | c/src/ekkfs.c:781-812 | after a delete every block still marked is in some file |
| Ekkfs.FreeNext | c/src/ekkfs.c:781-806 | freeing the block of the next slot frees it and nothing else, and it was marked |
| Ekkfs.FreshIsValid | c/src/ekkfs.c:493-589 | a formatted card is the empty map with all data blocks free |
| EkkfsDriver.Driver.constructor | c/src/ekkfs.c:493-668 | the driver over a formatted and mounted card is valid and empty |
| EkkfsDriver.Driver.FirstClear | c/src/ekkfs.c:353-378 | the first clear bit below the block count, byte by byte, or none |
| EkkfsDriver.Driver.BitmapAlloc | c/src/ekkfs.c:353-378 | takes the first free data block; fails exactly when the free counter is zero; counter and clear bits stay equal |
| EkkfsDriver.Driver.BitmapFree | c/src/ekkfs.c:380-390 | clears the bit of a marked block and counts it |
| EkkfsDriver.Driver.FindByName | c/src/ekkfs.c:473-487 | the inode in use under the name as truncated to 15 characters, or none exactly when there is none |
| EkkfsDriver.Driver.AllocInode | c/src/ekkfs.c:457-471 | the first free inode, or none exactly when all are used |
| EkkfsDriver.Driver.Create | c/src/ekkfs.c:721-761 | adds one empty file with the owner, kind and time given, in the first free inode; each of the three refusals exactly when, and refusals change nothing |
| EkkfsDriver.Driver.Prepare | c/src/ekkfs.c:941-978 | finds or allocates the block of a slot, and the indirect block before it; succeeds exactly when the free blocks cover it |
| EkkfsDriver.Driver.StoreChunk | c/src/ekkfs.c:978-999 | writes the chunk into the block through the cache, then the pointer table |
| EkkfsDriver.Driver.WriteLoop | c/src/ekkfs.c:934-1003 | the loop writes what there is room for, and stops only when there is none |
| EkkfsDriver.Driver.Write | c/src/ekkfs.c:910-1022 | all is written exactly when the free blocks cover what the write needs, and then that many are gone; otherwise a prefix is and all are gone; no other file changes, every marked block is owned once, and the free counter is the number of clear bits - but for a lost indirect block, whose outcome is stated exactly |
| EkkfsDriver.LosingWrite | c/src/ekkfs.c:948-978 | a write of one byte, in a valid state that it makes lose its indirect block: refused for want of room, and block ownership is broken after it |
| EkkfsDriver.Driver.Read | c/src/ekkfs.c:845-908 | returns exactly the contents from the position on, as far as asked for and as far as they go, and changes nothing |
| EkkfsDriver.Driver.Delete | c/src/ekkfs.c:763-817 | removes exactly that file; the blocks marked afterwards are exactly those of the other files; missing and permission refusals exactly when, and refusals change nothing |
| Ekkfs.RewrittenStats | c/src/ekkfs.c:1005-1015 | a write leaves owner, kind, size and time of every file as they were, but for the size and the time of its own |
| EkkfsDriver.CreatedThenWritten | c/src/ekkfs.c:721-932 | after a create the system and the owner may write, and every other caller is refused |
| EkkfsDriver.CreatedThenDeleted | c/src/ekkfs.c:721-783 | after a create the system may delete, the owner too unless it is a system file, and nobody else |
| EkkfsDriver.WrittenThenRead | c/src/ekkfs.c:845-1022 | data written whole at the start of a file is what a read from there returns |
| Grammar.ArgsTurn | ekkl/src/parser.rs:1044-1053 | one turn of the argument loop, with its optional trailing comma, against the recursive reading of the list |
| Printer.TypeRoundTrip | ekkl/src/parser.rs:258-314 | every type, printed, parses back and stops where printing stopped, but a bare name before `<` |
| Printer.Climb | ekkl/src/parser.rs:592-853 | from a tight level to a looser one, no loop takes more where the next token stops it |
| Printer.ReadsBack | ekkl/src/parser.rs:596-853 | read at a ladder level, a minimally parenthesised expression leaves that level's loop to go on from it |
| Printer.BinaryReadsBack | ekkl/src/parser.rs:596-802 | for binary operators: the left operand at the operator's own level, the right one a level tighter |
| Printer.CastReadsBack | ekkl/src/parser.rs:838-853 | for casts |
| Printer.FieldReadsBack | ekkl/src/parser.rs:864-889 | for fields |
| Printer.MethodReadsBack | ekkl/src/parser.rs:864-884 | for method calls |
| Printer.IndexReadsBack | ekkl/src/parser.rs:890-896 | for indexing |
| Printer.ArgsReadBack | ekkl/src/parser.rs:1044-1053 | for argument and element lists of any length |
| Printer.RoundTrip | ekkl/src/parser.rs:592-1053 | every expression tree in which no cast to a bare named type is directly followed by `<`, printed with minimal parentheses, parses back to itself with all tokens read |
| Readings.TypeReads | ekkl/src/parser.rs:258-314 | a parsed type was read from its print, or from more tokens than that |
| Readings.LevelReads | ekkl/src/parser.rs:592-1053 | whatever a level parses from any tokens was read from its minimal print, then with no such cast in it, or from more tokens than that |
| Readings.RoundTripIff | ekkl/src/parser.rs:592-1053 | an expression printed with minimal parentheses parses back to itself, all its tokens read, if and only if no cast to a bare named type in it is directly followed by `<` |
| Readings.PrintIsInjective | ekkl/src/parser.rs:592-1053 | so no two such trees print alike |
| Readings.NamedTypeSwallowsLess | ekkl/src/parser.rs:283-309 | no comparison `x as T < y` with a bare named type reads back, whatever x and y are |
| Precedence.ClassIsLevel | ekkl/src/parser.rs:596-802 | of the ten classes of operators, listed by token from the logical or to `* / %`, each is taken by the loop of its own level and by no other |
| Precedence.TwoOperators | ekkl/src/parser.rs:596-802 | for any operands and operators, `a p b q c` groups to the right exactly if q is in a tighter class than p, and to the left otherwise |
| Precedence.PrefixThenBinary | ekkl/src/parser.rs:804-836 | a prefix operator takes its operand before any binary operator |
| Precedence.PrefixThenCast | ekkl/src/parser.rs:804-853 | but after a cast: `-a as T` is `-(a as T)` |
| Precedence.BinaryThenCast | ekkl/src/parser.rs:596-853 | a cast binds tighter than any binary operator |
| Precedence.FieldThenCast | ekkl/src/parser.rs:838-900 | and a field tighter than a cast |
| Parser.ExprParser.Advance | ekkl/src/parser.rs:80-86 | moves one token on, never past the end |
| Parser.ExprParser.ParseType | ekkl/src/parser.rs:258-314 | the method computes the grammar's type, consuming the same tokens, and terminates |
| Parser.ExprParser.ParseBinary | ekkl/src/parser.rs:596-802 | each left-associative loop computes its ladder level |
| Parser.ExprParser.ParseUnary | ekkl/src/parser.rs:804-836 | the prefix operators |
| Parser.ExprParser.ParseCast | ekkl/src/parser.rs:838-853 | the cast loop |
| Parser.ExprParser.ParsePostfix | ekkl/src/parser.rs:855-900 | the postfix loop |
| Parser.ExprParser.ParsePrimary | ekkl/src/parser.rs:902-1042 | literals, names, calls, parentheses and arrays |
| Parser.ExprParser.ParseArgs | ekkl/src/parser.rs:1044-1053 | the argument loop |
| Parser.ExprParser.ParseLevel | ekkl/src/parser.rs:592-594 | the whole ladder, for every token vector |
| Syntax.SpellingsAreUnambiguous | ekkl/src/ast.rs:318-342 | each operator's spelling is read as that operator at its own level and as none at any other |
| KvTable.NextProbe | c/src/ekkdb_kv.c:171-173 | stepping by remainder visits the slots from the hash slot around the table and returns after all of them |
| KvTable.LookupIsMembership | c/src/ekkdb_kv.c:144-182 | looking a key up finds it exactly when it is in the map, at the slot that holds its value |
| KvTable.ReuseOffered | c/src/ekkdb_kv.c:161-181 | a missing key is offered a slot unless all are live, with only live slots before it |
| KvTable.CountIsSize | c/src/ekkdb_kv.c:434-441 | the number of live slots is the number of keys |
| KvTable.StoreAtFound | c/src/ekkdb_kv.c:369-371 | overwriting a found entry updates the map at that key |
| KvTable.StoreAtOffered | c/src/ekkdb_kv.c:373-385 | filling the offered slot adds the key and leaves every key reachable |
| KvTable.TombstoneAt | c/src/ekkdb_kv.c:413-422 | a tombstone removes the key and leaves every other key reachable |
| KvTable.StepRefines | c/src/ekkdb_kv.c:308-441 | every operation, errors included, answers and does what it would on a finite map with as many places as slots: full exactly when the key is absent and no place is left |
| KvTable.RunRefines | c/src/ekkdb_kv.c:308-441 | and so does every run of operations |
| KvTable.NamespaceIsMap | c/src/ekkdb_kv.c:188-441 | from a new namespace, a run of operations is a run on the empty map |
| KvTable.Namespace.constructor | c/src/ekkdb_kv.c:228-280 | a new namespace is all free slots |
| KvTable.Namespace.FindEntry | c/src/ekkdb_kv.c:144-182 | the probing loop finds what the probe sequence defines |
| KvTable.Namespace.Put | c/src/ekkdb_kv.c:345-397 | in place: the put operation |
| KvTable.Namespace.Delete | c/src/ekkdb_kv.c:399-432 | in place: the delete operation |
| KvTable.Namespace.Get | c/src/ekkdb_kv.c:308-343 | answers as the map does, with the copy cut to the caller's buffer and the full length |
| KvTable.Namespace.Count | c/src/ekkdb_kv.c:434-441 | returns the number of keys in the map |
| VersionVectors.LookupAfterSet | c/src/ekk_gossip.c:35-56 | setting changes one entry if there is room, and no other lookup |
| VersionVectors.LeqOnEntries | c/src/ekk_gossip.c:74-89 | comparing the entries held decides the order on all modules, missing ones as 0 |
| VersionVectors.MergeStep | c/src/ekk_gossip.c:97-109 | an entry of the merge is the maximum, or was left out of a full vector |
| VersionVectors.MergeIsMax | c/src/ekk_gossip.c:97-109 | the merge is the pointwise maximum exactly when the modules it wants entries for fit |
| VersionVectors.MergeNeverLowers | c/src/ekk_gossip.c:97-109 | with or without room, merging takes nothing back |
| VersionVectors.MergeIsLeast | c/src/ekk_gossip.c:97-109 | and never passes a vector that is past both sides |
| VersionVectors.MergeIsJoin | c/src/ekk_gossip.c:67-109 | with room, it is the least upper bound in the order that compare decides |
| VersionVectors.VersionVector.Get | c/src/ekk_gossip.c:24-33 | the loop returns the module's number, 0 if missing |
| VersionVectors.VersionVector.Put | c/src/ekk_gossip.c:35-56 | in place: set, refused exactly when there is no room |
| VersionVectors.VersionVector.MergeFrom | c/src/ekk_gossip.c:97-109 | in place: the merge, also of a vector with itself |
| Gossip.DeliverKeepsOk | c/src/ekk_gossip.c:460-465 | delivering the next event of an origin keeps what was delivered a prefix of what it emitted |
| Gossip.PassKeepsOk | c/src/ekk_gossip.c:483-499 | and so does the pass over the buffered events, with its removals |
| Gossip.EmitKeepsOk | c/src/ekk_gossip.c:219-257 | emitting extends one's own history by its next number, unless the pending buffer is full |
| Gossip.HandleKeepsOk | c/src/ekk_gossip.c:413-502 | handling an event - duplicate, gap, or next - keeps all nodes' knowledge in order and sends only what was emitted |
| Gossip.StepKeepsInv | c/src/ekk_gossip.c:413-502 | one step of one node over any packet ever sent keeps this for the whole network of up to 8 modules, and every event in flight has hop count 0, 2 or 4 |
| Gossip.Delivery | c/src/ekk_gossip.c:413-502 | in every reachable state, what a node has delivered from an origin is the first vv(origin) events that origin emitted, in order, and no node's entry exceeds the origin's own |
| GossipLimit.NeverTwiceIff | c/src/ekk_gossip.c:413-502 | no event is delivered twice in any run if and only if there are no more modules than vector entries |
| GossipLimit.DeliversTwice | c/src/ekk_gossip.c:47-49 | for every larger number of modules, a run in which an event is delivered twice |
| GossipLimit.SummaryMergeKeepsOrderIff | c/src/ekk_gossip.c:364-372 | merging a vector shown in a message keeps a node's knowledge in order if and only if it shows nothing new |
| Gossip.AtMostOnce | c/src/ekk_gossip.c:425-429 | every event is delivered at most once, and only if its origin emitted it |
| GossipFlood.NextIsPassedOn | c/src/ekk_gossip.c:466-481 | the next event of another module is passed on exactly while its hop count is below three, to each neighbour but the sender as often as it is listed, two hops on, and nothing else is sent |
| GossipFlood.NextReachesNeighbors | c/src/ekk_gossip.c:466-481 | the same as the set of packets |
| GossipFlood.OthersAreAnswered | c/src/ekk_gossip.c:422-457 | a duplicate is answered by nothing, an event after a gap by one request for exactly those between, and kept if there is room |
| GossipFlood.FlushSendsAll | c/src/ekk_gossip.c:308-326 | a tick sends each pending event to each neighbour and nothing else, and leaves nothing pending |
| GossipFlood.ServeSends | c/src/ekk_gossip.c:385-403 | a request is answered by the origin alone, with exactly those of the events asked for that it has |
| GossipFlood.EmitOutcome | c/src/ekk_gossip.c:219-257 | emitting numbers, stores, queues and delivers the event, and is refused exactly if it is too long or eight are pending |
| GossipFlood.JoinOutcome | c/src/ekk_gossip.c:174-200 | a neighbour is added unless it is number 0, there already, or would be the eighth |
| GossipFlood.CrossesTwoLinks | c/src/ekk_gossip.c:219-502 | for any three modules: a run in which an event reaches and is delivered by a module to which its origin never sends |
| GossipBuffer.PassSweeps | c/src/ekk_gossip.c:483-499 | the pass takes, of each origin, the numbers one sweep in buffer order takes from the last delivered one on, and leaves its others in order |
| GossipBuffer.SweepsCleanIff | c/src/ekk_gossip.c:483-499 | a sweep leaves no number due or overdue if and only if none is overdue before it and the consecutive ones from the next on stand in ascending order, none twice |
| GossipBuffer.PassIsCleanIff | c/src/ekk_gossip.c:483-499 | after the pass no event buffered is the next of its origin or already delivered, if and only if that held of each origin's numbers before it |
| GossipBuffer.HandleIsCleanIff | c/src/ekk_gossip.c:460-499 | the same for handling the next event of an origin, on the buffer before the call |
| GossipBuffer.DueButLeft | c/src/ekk_gossip.c:431-499 | for any two modules: a run in which an event that has come due stays in the buffer, and stays there when it is delivered on arriving once more |
| GossipBuffer.StaleForGood | c/src/ekk_gossip.c:413-502 | in every run of any number of modules an event in the buffer that has been delivered is there in every later state, as often as before |
| GossipBuffer.ThreeSlotsLost | c/src/ekk_gossip.c:431-499 | for any two modules: a run after which three of the four slots hold events already delivered |
| GossipBuffer.OneSlotStaysOpen | c/src/ekk_gossip.c:431-499 | in every reachable state of up to 8 modules a full buffer ends in an event that still waits for an earlier one, so never more than three slots are lost |
| Gossip.GossipCtx.constructor | c/src/ekk_gossip.c:159-172 | a new context is the initial node |
| Gossip.GossipCtx.EmitEvent | c/src/ekk_gossip.c:219-257 | in place: emitting |
| Gossip.GossipCtx.HandleEvent | c/src/ekk_gossip.c:413-502 | in place: handling an event, with all packets it sends |
| Gossip.GossipCtx.ProcessBuffered | c/src/ekk_gossip.c:483-499 | in place: the pass over the buffered events |
| Gossip.GossipCtx.RemoveBuffered | c/src/ekk_gossip.c:492-496 | in place: shifting the later events down removes one and keeps the order of the others |
| Gossip.GossipCtx.ForwardEvent | c/src/ekk_gossip.c:469-481 | forwards to every neighbour but the sender |
| Gossip.GossipCtx.FlushPending | c/src/ekk_gossip.c:308-326 | in place: sends every pending event to every neighbour and clears the buffer |
| Gossip.GossipCtx.AddNeighborTo | c/src/ekk_gossip.c:174-200 | in place: adding a neighbour, with its three refusals |
| VersionVectors.VersionVector.Compare | rust/src/gossip.rs:127-163 | the two loops return equal, before, after or concurrent exactly by the pointwise order |
| VersionVectors.VersionVector.Increment | rust/src/gossip.rs:119-124 | the next number is returned, and kept exactly if there is room |
| Gossip.HandledTwice | rust/src/gossip.rs:498-534 | handling a delivered event again is a duplicate exactly when the vector had room for its origin; otherwise it is delivered again |
| FlashLogs.LeastIsMinimum | c/src/ekk_flash_log.c:155-169 | the scan finds the first least erased sector other than the excluded one |
| FlashLogs.NextIsLeastWorn | c/src/ekk_flash_log.c:210-218 | the sector taken next, neighbour or not, is among the least erased of the others |
| FlashLogs.AdvanceKeepsEven | c/src/ekk_flash_log.c:174-231 | moving on keeps all erase counts within one of each other and their sum the total |
| FlashLogs.StoreKeepsInv | c/src/ekk_flash_log.c:304-319 | programming the next slot hits a blank slot |
| FlashLogs.WriteKeepsInv | c/src/ekk_flash_log.c:292-322 | every write keeps the whole invariant |
| FlashLogs.WearIsEven | c/src/ekk_flash_log.c:174-322 | from blank flash, after any writes: erase counts differ by at most one, their sum is the total, and no slot was programmed twice between erases |
| FlashLogs.RecentReadBack | c/src/ekk_flash_log.c:292-345 | all entries of the current sector and, with two sectors or more, the 255 before them, or all if fewer, read back at the offsets their writes returned |
| FlashLogs.NextSectorOutcome | c/src/ekk_flash_log.c:210-218 | the neighbour is taken next while nothing is written in it, and else the first of the least erased |
| FlashLogs.AllKeptUntilFull | c/src/ekk_flash_log.c:292-345 | as long as no more than 255 entries per sector have been written, every one of them is in the slot after the one before, sector by sector, and reads back |
| FlashLogs.WriteProgramsBlank | c/src/ekk_flash_log.c:174-322 | outside the sector it erases, if any, a write changes one slot, which was blank |
| FlashLogs.ClobberingShows | c/src/ekk_flash_log.c:174-322 | programming a slot that is not blank would be recorded for good, and preparing a sector never does |
| FlashLogs.HeadersStand | c/src/ekk_flash_log.c:174-205 | every sector that has been erased begins with its header, which holds its number and erase count |
| FlashLogs.FlashLog.constructor | c/src/ekk_flash_log.c:237-290 | on blank flash of any number of sectors the log starts in the first, unerased |
| FlashLogs.FlashLog.FindMinEraseSector | c/src/ekk_flash_log.c:155-169 | the loop computes that scan |
| FlashLogs.FlashLog.EraseAndInit | c/src/ekk_flash_log.c:174-205 | in place: erase, counters and header |
| FlashLogs.FlashLog.AdvanceSector | c/src/ekk_flash_log.c:210-231 | in place: moving to the next sector |
| FlashLogs.FlashLog.WriteEntry | c/src/ekk_flash_log.c:292-322 | in place: the write and the offset it returns |
| Cutting.ConsumeIsBlocks | c/src/ekk_auth.c:127-145 | taking blocks while more than 16 bytes are left absorbs all but the last 1 to 16 bytes |
| Cutting.UpdateTracks | c/src/ekk_auth.c:240-290 | an update absorbs and buffers exactly the bytes fed, in order |
| Cutting.BufferAtEnd | c/src/ekk_auth.c:240-290 | after any updates the buffer holds what the one-shot computation keeps for its last block, or nothing, and which |
| Cutting.SameEnd | c/src/ekk_auth.c:115-290 | on such splits both computations reach the same state and last block |
| Auth.HarmlessAgrees | c/src/ekk_auth.c:115-346 | then the tags agree, for every key and message |
| Auth.PermutedPadding | c/src/ekk_auth.c:34-61 | the permutation on a state with only the padding bit set, computed through its twelve rounds |
| Auth.HarmfulZeros | c/src/ekk_auth.c:253-268 | on every other split the tags differ for the zero key and a message of zeros |
| Auth.SplitsAgreeIff | c/src/ekk_auth.c:115-346 | for pieces of given lengths the tags agree under all keys and for all messages if and only if the total is not a whole number of blocks, or is nothing, or the last piece has at least 16 bytes |
| AuthBits.TimesTwoMovesUp | c/src/ekk_auth.c:72-86 | doubling moves every bit up by one, across words |
| AuthBits.TimesTwoComesBack | c/src/ekk_auth.c:72-90 | and the bit that leaves the top comes back as 0x87 |
| AuthBits.WordHoldsBytes | c/src/ekk_auth.c:128-137 | a word holds its four bytes, lowest first |
| AuthBits.LoadIsInjective | c/src/ekk_auth.c:128-137 | so no two blocks are taken in alike |
| AuthBits.TagOfFive | c/src/ekk_auth.c:91-205 | the tag of a five-byte message under a given key, worked out: padding and second subkey |
| AuthBits.TagOfTwoBlocks | c/src/ekk_auth.c:91-205 | the tag of two whole blocks, worked out: block loop and first subkey |
| Auth.RoundInPlace | c/src/ekk_auth.c:34-52 | in place: one round on the state words |
| Auth.ConsumeInPlace | c/src/ekk_auth.c:127-145 | in place: the loop over complete blocks |
| Auth.Compute | c/src/ekk_auth.c:115-205 | the one-shot computation |
| Auth.AuthCtx.Feed | c/src/ekk_auth.c:240-290 | in place: update |
| Auth.AuthCtx.Final | c/src/ekk_auth.c:292-346 | the tag of what the context holds |
| Topology.Isqrt | c/src/ekk_topology.c:122-134 | Newton's loop ends, and returns the floor of the square root for a 32-bit n of 0 or more exactly when n is not the largest, where n + 1 wraps; 0 for negative n |
| Topology.InsertSorts | c/src/ekk_topology.c:162-174 | inserting an entry of a new module keeps strict order and adds exactly it |
| Topology.SortSorts | c/src/ekk_topology.c:162-174 | sorting entries of distinct modules gives the same entries in strict order by distance and then identifier |
| Topology.SortByDistance | c/src/ekk_topology.c:162-174 | the in-place insertion sort computes that |
| Topology.RankedIsKnown | c/src/ekk_topology.c:326-350 | the ranking has exactly the known modules, each once |
| Topology.ReelectTakesKnown | c/src/ekk_topology.c:305-378 | re-election takes min(k, known) neighbours, all known, with their current distances |
| Topology.ReelectIsOrdered | c/src/ekk_topology.c:305-378 | in strict order of distance and then identifier |
| Topology.ReelectTakesNearest | c/src/ekk_topology.c:305-378 | and every other known module comes after all of them |
| Topology.ReelectKeepsHealth | c/src/ekk_topology.c:352-378 | a module that stays keeps all that is stored of it but its distance; a new one starts unknown |
| Topology.StepKeepsOk | c/src/ekk_topology.c:66-299 | discovery, loss and re-election keep: known modules distinct and not the module itself, neighbours distinct known modules, min(k, known) of them |
| Topology.TopologyIsOk | c/src/ekk_topology.c:66-403 | from initialisation this holds over every run |
| Topology.NeverFull | c/src/ekk_topology.c:76-79 | the table of known modules never fills up: identifiers run out first |
| Topology.AddingOutcome | c/src/ekk_topology.c:66-88 | a module heard of is known at its new place, and every other where it was |
| Topology.RemovedIsGone | c/src/ekk_topology.c:93-106 | a module removed is not known any more |
| Topology.RemovingKeepsPlaces | c/src/ekk_topology.c:93-106 | and every other is known where it was |
| Topology.RemovingKeepsOrder | c/src/ekk_topology.c:93-106 | in the same order |
| Topology.DiscoveryOutcome | c/src/ekk_topology.c:231-257 | a discovery is refused only for number 0, ignored of oneself, and otherwise taken into the places, with a re-election exactly while neighbours are missing |
| Topology.LossOutcome | c/src/ekk_topology.c:263-299 | the loss of a neighbour removes it from both lists and re-elects; of any other module it changes nothing |
| Topology.LostIsNoNeighbor | c/src/ekk_topology.c:263-299 | after which it is no neighbour |
| Topology.TopologyCtx.constructor | c/src/ekk_topology.c:197-225 | a new context knows nobody |
| Topology.TopologyCtx.AddKnown | c/src/ekk_topology.c:66-88 | in place: a known module's position is updated, a new one appended |
| Topology.TopologyCtx.RemoveKnown | c/src/ekk_topology.c:93-106 | in place: the later entries of both arrays move down |
| Topology.TopologyCtx.DoReelect | c/src/ekk_topology.c:305-403 | in place: re-election |
| Topology.TopologyCtx.HandleDiscovery | c/src/ekk_topology.c:231-257 | in place: discovery, re-electing while neighbours are missing |
| Topology.TopologyCtx.HandleNeighborLost | c/src/ekk_topology.c:263-299 | in place: loss of a neighbour |
| Rings.AppendAdds | c/src/ekkdb_log.c:300-322 | appending adds at the end, and pushes out the oldest of a full ring |
| Rings.FetchTakesOne | c/src/ekkdb_log.c:398-423 | one next call hands out the first record still to come that is taken, and leaves the iterator behind it |
| Rings.DrainIsTaken | c/src/ekkdb_log.c:386-424 | with no writes in between, next calls give, in order, the records taken before one says to stop |
| EventLogs.LogHoldsTheLast | c/src/ekkdb_log.c:266-333 | after any writes the log holds the last min(n, max), in order, stamped with consecutive sequence numbers and checksums that hold |
| EventLogs.QueryGivesMatches | c/src/ekkdb_log.c:335-424 | repeated next calls give exactly the events held that match the filter, in order, as many as the query counted |
| EventLogs.MatchesMeans | c/src/ekkdb_log.c:116-144 | an event matches exactly if it meets each criterion that is given |
| EventLogs.Journal.WriteEvent | c/src/ekkdb_log.c:266-333 | in place: stamping and appending |
| Rings.RingFile.Add | c/src/ekkdb_log.c:300-322 | in place: the ring header and slot |
| Rings.RingFile.CountMatching | c/src/ekkdb_log.c:364-378 | the counting loop of a query |
| Rings.RingFile.FetchNext | c/src/ekkdb_log.c:398-423 | the next loop |
| Rings.HoldsTheLast | c/src/ekkdb_ts.c:290-343 | from empty, after any appends, the ring holds the last min(n, max) records in order |
| Rings.TakenIsMatching | c/src/ekkdb_ts.c:404-424 | stopping at a record past the end misses nothing exactly when no record to take comes after one that stops |
| TimeSeries.QueryGivesWindow | c/src/ekkdb_ts.c:345-427 | repeated next calls give every record held in the window, as many as the query counted, if and only if no record in the window comes after one past its end; an end of 0 is no end |
| TimeSeries.MonotoneIsInTime | c/src/ekkdb_ts.c:345-427 | which timestamps that never go back guarantee for every window |
| TimeSeries.OpenEnd | c/src/ekkdb_ts.c:365-366 | without an end every record from the start on is inside and none past it |
| TimeSeries.GivenEnd | c/src/ekkdb_ts.c:365-366 | with an end, exactly those from the start to the end are inside, and those after it past it |
| Consensus.CountedKeepsCounts | c/src/ekk_consensus.c:417-435 | recording a vote keeps the counters equal to the YES and NO slots |
| Consensus.EarlyIsFullCount | c/src/ekk_consensus.c:75-126 | a ballot is decided early exactly when every way to complete it to K counted votes gives the same verdict, and with that verdict |
| Consensus.DeterminedByCounts | c/src/ekk_consensus.c:88-111 | what the slots decide, over all ways to complete them, depends on two counts |
| Consensus.AbstentionsMislead | c/src/ekk_consensus.c:417-435 | early decisions are those the slots decide, for every threshold, if and only if no abstention was counted |
| Consensus.OneModuleRejects | c/src/ekk_consensus.c:409-435 | seven abstentions of one module reject a ballot nobody has voted on |
| Consensus.StepKeepsInv | c/src/ekk_consensus.c:230-513 | proposals, votes and inhibitions keep counters and verdicts of all ballots borne out |
| Consensus.RatioMeets | c/src/ekk_consensus.c:94-111 | the fixed-point share meets a threshold exactly when votes times 2^16 are at least threshold times voters |
| Consensus.VoteCounts | c/src/ekk_consensus.c:403-438 | a vote goes to its voter's slot unless a YES or NO is there; the ballot is approved exactly if the YES votes alone meet the threshold, rejected exactly if they would not with all that are missing |
| Consensus.KnownBallotOutcome | c/src/ekk_consensus.c:309-441 | only the proposer counts votes, only while the ballot is open; an inhibition cancels an open ballot, one's own any |
| Consensus.UnknownBallotOutcome | c/src/ekk_consensus.c:380-401 | on an unknown ballot a vote is answered as such and an inhibition changes nothing |
| Consensus.NumberZero | c/src/ekk_consensus.c:362-372 | number 0 is no module and no ballot |
| Consensus.ProposalOutcome | c/src/ekk_consensus.c:443-497 | another module's proposal is taken up exactly if it is not inhibited, new, and fewer than four ballots are there |
| Consensus.OwnProposalOutcome | c/src/ekk_consensus.c:230-279 | one's own proposal gets the next number, with one's own YES if one votes oneself |
| Consensus.VerdictsStand | c/src/ekk_consensus.c:230-441 | over any run, an approved ballot passes however its slots are completed; one rejected without a counted abstention cannot pass; the counters are those of the slots |
| Consensus.ConsensusCtx.constructor | c/src/ekk_consensus.c:203-224 | a new context has no ballots |
| Consensus.ConsensusCtx.MakeProposal | c/src/ekk_consensus.c:230-279 | in place: a proposal with or without one's own vote, refused exactly when four are active |
| Consensus.ConsensusCtx.HandleVote | c/src/ekk_consensus.c:362-441 | in place: a vote or an inhibition |
| Consensus.ConsensusCtx.CountVote | c/src/ekk_consensus.c:414-435 | in place: recording a vote in its slot, with the early decision |

## Left out

- Raft persistence and restart, callbacks and 32-bit term wrap-around; the random part of an election timeout is a parameter of each step, and so are clock and partition gate.
- Partition callbacks and visibility detection: the visible count is an event's parameter.
- SPSC and seqlock memory ordering: steps are sequentially consistent, and the seqlock counter is unbounded (it wraps at 32 bits in the code).
- Seqlock.NoTornReads: follows one slot and one collector, and says nothing of decay, which is applied to the copy after the check, nor of aggregation over neighbours.
- EKKFS journal, transactions, remount, byte layout of superblock, bitmap and inodes, file checksums, and I/O errors. The inode table is an array of records, because the struct takes 92 bytes while the layout of its blocks assumes 64 (ekkfs.h:95-108).
- EkkfsDriver.Driver.Write: requires the write to end within (10 + 128) * 512 bytes, beyond which the code indexes past its pointer table, which C leaves undefined; and moves the file's position after the loop rather than within it.
- BlockCache statistics, switching the cache off while it holds blocks, and the 32-bit wrap of the access counter that orders evictions.
- EKKL blocks, statements, struct initialisers, `if` conditions, patterns, spans, lexer, type checker and evaluator; printing is not in the code and serves the round trip.
- Key-value files behind the table, their header checksum and timestamps; the hash is any function. Keys and values are bounded as in the code, the number of entries is a parameter.
- Gossip.Delivery: the runs have no summary merge (ekk_gossip.c:364-372); `GossipLimit.SummaryMergeKeepsOrderIff` says what one such merge does. A batch of two events is two packets.
- Gossip.StepKeepsInv: covers emitting, ticks, new neighbours, events and requests, not the summary merge.
- Gossip: how the 8-bit summary is packed, removal of neighbours, last-writer-wins comparison, statistics and 32-bit wrap-around of sequence numbers. The Rust version handles events alike but does not forward them.
- Flash smaller than one sector, recovery from existing sectors, failing flash operations and 32-bit erase counts at their end; the checksum of an entry is any predicate.
- Auth: conformance with the published Chaskey specification (the last step mixes in the key, not the subkey), the keyring, and 32-bit message lengths.
- Topology.Isqrt: signed overflow, undefined in C, is taken to wrap. Distances are any function of identifier and position in the election; ticks and callbacks are not modelled.
- Event log and time series files, the periodic flush of the header, its oldest and newest timestamps, the pool of iterators, compaction and corrupted records.
- Consensus: ballot identifiers do not wrap (at 16 bits in the code), and a vote is one of the enumeration's values. Timeouts, messages sent and removal of completed ballots, the inhibition list (whether a proposal is inhibited is an event's parameter), and quarantine.
- Gateway, stream index, stigmergy, neighbour aggregation, heartbeat, scheduler and hardware layers, shell, dashboard and tools: little state of their own, or easy members only.
