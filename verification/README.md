# QMud Lua engine: a verified model

QMud runs plugin callbacks on worker threads against immutable snapshots. This project models the
data structures and protocols that make this safe, and proves what they keep. To verify it with
Dafny 4.11: `dafny verify dfyconfig.toml`.

| file | what it models |
|---|---|
| `MachineWord.dfy`, `SparseBranches.dfy`, `StringTrie.dfy`, `StringMap.dfy`, `StringMapRuns.dfy` | the persistent string map: a 13-level hash trie with bitmap-compressed arrays, shared between versions and edited in place by the transaction whose token a node carries |
| `Updates.dfy`, `SlotMap.dfy`, `GenerationalMap.dfy` | batches of updates, the radix slot map over 32-bit keys, and the paged map of generation-checked handles on top of it |
| `Dispatch.dfy`, `DispatchDriver.dfy` | batch dispatch with its merge functions, and the runtime that resumes and re-enters an interrupted dispatch |
| `JournalRegistry.dfy`, `CompletionSequencer.dfy`, `DispatchQueue.dfy` | the three monitors of the worker: mutation journals, completion order, request queue |
| `OutputAnchor.dfy` | packed output anchors that derive their index from a shared counter modulo 2^61 |
| `BraceMatch.dfy`, `BraceMask.dfy` | the brace matcher, both scan directions, and what quotes and escapes mean to it |
| `Figlet.dfy` | horizontal smushing of FIGlet characters |
| `SoundSnapshot.dfy` | merging of sound snapshots |

## Main results

* **Nothing published ever changes.** `StringMapRuns.Workspace` holds published maps and open
  transactions that share heap nodes. For every sequence of begin, apply and finish steps, however the
  transactions interleave, the heap means what a history of finite maps says
  (`Workspace.RunAll`), and in that history published maps never change and a transaction sees its own
  updates only. The reason is an ownership invariant: a node that carries a transaction's token is owned
  by it, an owned node is reached through exactly one edge, and nothing owned is within reach of a
  version or of another transaction. The hash function is arbitrary, collisions included. The batch
  writers of the slot map and of the generational map have no `modifies` clause at all: they write to
  objects of their own making only.
* **The maps are finite maps.** Lookup, update, removal, size, enumeration (each key once) and equality
  are those of a finite map, for the string map, the slot map (last writer wins, on all 32-bit keys) and
  the generational map (exact generation or nothing, chains kept in order, no empty page stored). After any
  run of batches, each on any earlier version, every version of the slot map and of the generational map
  still holds what it was published with (`SlotMap.Run`, `GenerationalMap.Run`).
* **Interrupted equals uninterrupted.** `DispatchDriver.Drive` runs a dispatch with suspensions and
  mutation boundaries anywhere. The recipients it called, once each and in order, end where the first
  deciding answer is, and the values are what their answers add up to, shape by shape: the count is the
  number of called recipients that have the function, the in/out shapes hand their argument from recipient
  to recipient. `Dispatch.DispatchBatch` gathers their mutation batches in call order and the snapshot
  completed last.
* **Journals exactly once, in order.** For every interleaving of insert, claim, queued action, finish and
  shutdown recovery, the ids of what was retained strictly increase, and what consumers were given is a
  prefix of it. Once the recovery has begun, every step that is owed lowers a measure and no other step
  changes anything, so that as many fair rounds as steps are owed end at rest with everything handed out
  (`DeferredMutationDeliveryRegistry.FairRun`): the batches inserted, in order, followed by those of the
  teardown.
* **Completions in reservation order**, one at a time, for every order of resolution. Of the two ends of a
  delivery, in either order and whatever happens in between, the second one and only the second one goes on
  with the loop (`CompletionDeliverySequencer.TwoEnds`), and fair rounds deliver everything before the first
  open ticket (`CompletionDeliverySequencer.FairRun`).
* **Requests start in enqueue order**, a canceled one never starts, a started one is never canceled and a
  result never changes, in every run, failing posts included; the events of a run determine its outcome. A
  waiting request has a pump on its way if and only if no failed post of the run has left it behind since the
  last request was enqueued (`Lane.Run`), and with a pump on its way fair rounds start it or find it completed,
  whatever else happens (`Lane.FairRun`).
* **Lazy anchors are eager anchors**, for any run of stores, clears, removals and bindings, even when the 64-bit
  counter wraps, exactly as long as the stored index and the lines removed since allow it, which takes more than
  2^61 - 2^31 lines to fail.
* **Brace round trip**, for arbitrary text in both modes. With quotes and escapes, each scan is the plain scan of
  the text in which escaped and quoted characters are blanked out, and which ones these are is said by position:
  odd runs of escape characters, and quotes with their nearest partner (`BraceMask.MatcherIsMasked`).
* **FIGlet lines** with every smushing rule, the greatest overlap all rows allow, the exact case in which a row
  loses ink, and a whole text at a time; **sound snapshots converge**.

## Where a property fails

* A forward brace match in nested mode passes over stray closers, and the backward scan stacks them. With
  a thousand strays the way back gives up (`BraceMatch.StraysDefeatTheWayBack`). `BraceMatch.RoundTrip`
  has the exact condition for every text. It is met when the deepest nesting and the strays together are at
  most a thousand, hence without strays, and always in single-bracket counting.
* The FIGlet boundary scan never reads column 0 of the left side. `Figlet.InkKeptExactly` says exactly
  when an overlapped row keeps its ink, and `Figlet.OneColumnLosesInk` shows the smallest loss. Universal
  smushing of characters at least two columns wide loses none, in any text (`Figlet.FigletState.Render`). The
  finished line alone does not tell: a later character may cover the NUL (`Figlet.LossIsCovered`), so the exact
  statement is about every stage of the line.
* When posting the pump fails, the enqueuer withdraws its own request only. A request that another caller
  enqueued in the meantime is left without a pump (`DispatchQueue.StrandedBehindAFailedPost`);
  `DispatchQueue.Lane.PromiseHolds` says, over whole runs, exactly when a non-empty queue has its pump.

## Model

| member | source | states |
|---|---|---|
| `SparseBranches.RankInRange` | src/LuaExecutor.h:1523-1526 | the masked popcount of a branch is the number of occupied branches below it, and is a position of the array when the branch is occupied |
| `MachineWord.LowMask` | src/LuaExecutor.h:1523-1526 | for single-bit words, masking with bit - 1 keeps exactly the bits below |
| `SparseBranches.WordOperations` | src/LuaExecutor.h:1518-1526 | on the 32-bit words themselves: masking with bit - 1 leaves the branches below, whose count is the rank, and or-ing or clearing the bit sets or clears one branch |
| `SparseBranches.ZeroWord` | src/LuaExecutor.h:1581 | the word of a node is zero exactly when no branch is occupied |
| `SparseBranches.EveryPositionHasABranch` | src/LuaExecutor.h:1617-1635 | every array position is the rank of an occupied branch, so a walk over the array meets every branch |
| `SparseBranches.DistinctBranchesDistinctPositions` | src/LuaExecutor.h:1523-1526 | two occupied branches never share an array position |
| `SparseBranches.ReplaceKeepsOthers` | src/LuaExecutor.h:1568-1569 | overwriting the element of an occupied branch changes that branch and no other |
| `SparseBranches.InsertKeepsOthers` | src/LuaExecutor.h:1570-1574 | inserting at the rank of a free branch fills it and moves no other branch |
| `SparseBranches.RemoveKeepsOthers` | src/LuaExecutor.h:1576-1580 | removing at the rank of an occupied branch frees it and moves no other branch |
| `SparseBranches.Installed` | src/LuaExecutor.h:1566-1580 | one edit of a compressed array is one update of the finite map from branches to elements |
| `StringTrie.MergedAfterUpdate` | src/LuaExecutor.h:1553-1567 | updating a key in the one branch its hash selects updates it in the node, and no part is left empty |
| `StringTrie.LeafShapeAfter` | src/LuaExecutor.h:1592-1613 | a bottom node keeps its shape under an update: distinct buckets, one non-empty part each |
| `StringTrie.InnerShapeAfter` | src/LuaExecutor.h:1560-1581 | an inner node keeps its shape under an update: children share no object, so each is reached through one edge |
| `StringTrie.HasEntries` | src/LuaExecutor.h:1581-1613 | a well-formed node always has entries: no empty node stays reachable |
| `StringTrie.EditableNode` | src/LuaExecutor.h:1528-1536 | a node with the transaction's token is edited itself, any other is copied with its meaning under that token |
| `StringTrie.UpdateBucket` | src/LuaExecutor.h:1538-1546 | the same for a bucket, and the update of its key |
| `StringTrie.Node.StoreBucket` | src/LuaExecutor.h:1598-1613 | storing or dropping a bucket edits the node's view of its buckets at one branch |
| `StringTrie.Node.StoreChild` | src/LuaExecutor.h:1566-1581 | storing or dropping a child edits the node's view of its children at one branch |
| `StringTrie.FindBucket` | src/LuaExecutor.h:1583-1587 | the bucket of a key, and the previous value as the node's entries have it |
| `StringTrie.FindChild` | src/LuaExecutor.h:1558-1562 | the child of a key holds the key exactly when the node does |
| `StringTrie.UpdateLeaf` | src/LuaExecutor.h:1583-1613 | one update of a bottom node: its entries after, the previous value, what changed, and which objects are owned |
| `StringTrie.AdoptChild` | src/LuaExecutor.h:1563-1581 | an updated child is recorded in its parent, with nothing to store when it was edited in place |
| `StringTrie.UpdateBelow` | src/LuaExecutor.h:1558-1562 | the recursive step leaves the parent and its other children as they were |
| `StringTrie.UpdateInner` | src/LuaExecutor.h:1558-1582 | one update below an inner node, with the same promises as at the bottom |
| `StringTrie.UpdateNode` | src/LuaExecutor.h:1548-1615 | updateNode yields the updated entries, returns the source itself when nothing changes, modifies owned objects only, and keeps the ownership discipline |
| `StringMap.ValueInRoot` | src/LuaExecutor.h:1637-1658 | the lookup returns what the entries of the root hold for the key |
| `StringMap.ListsAll` | src/LuaExecutor.h:1617-1635 | a listing of the right length without repetition contains every key |
| `StringMap.NextPart` | src/LuaExecutor.h:1624-1627 | array position by array position the parts of a node add up to its entries |
| `StringMap.VisitNode` | src/LuaExecutor.h:1617-1635 | the visitor meets every entry exactly once |
| `StringMap.Equal` | src/LuaExecutor.h:1809-1826 | equality holds exactly when both maps have the same keys with equal values |
| `StringMap.SizeAfterPut` | src/LuaExecutor.h:1693-1694 | the size grows, shrinks or stays with an update as the presence of the key says |
| `StringMap.Transaction.constructor` | src/LuaExecutor.h:1677-1680 | a transaction starts as its source and owns nothing |
| `StringMap.Transaction.Apply` | src/LuaExecutor.h:1687-1696 | apply yields the updated map, the old lookup, whether anything changed, and the entry count |
| `StringMap.Transaction.Value` | src/LuaExecutor.h:1699-1702 | a transaction reads its current entries |
| `StringMap.Transaction.Finish` | src/LuaExecutor.h:1731-1739 | finishing publishes root and size and ends the transaction |
| `StringMapRuns.PublishedNeverChanges` | src/LuaExecutor.h:1668-1673 | no command of any run changes a published map |
| `StringMapRuns.TransactionsAreIsolated` | src/LuaExecutor.h:1668-1673 | a transaction holds what its own updates made of its source, however the run interleaves it with others |
| `StringMapRuns.PrivateAfterApply` | src/LuaExecutor.h:1528-1546 | extending what a transaction owns by new objects keeps it out of everybody else's reach |
| `StringMapRuns.PrivateAfterFinish` | src/LuaExecutor.h:1731-1739 | publishing ends the ownership and breaks nobody else's |
| `StringMapRuns.Workspace.Begin` | src/LuaExecutor.h:1677-1680 | beginning a transaction shares a version's nodes and takes a token no node carries |
| `StringMapRuns.Workspace.Apply` | src/LuaExecutor.h:1687-1696 | an update in one transaction is that step of the history and touches no version and no other transaction |
| `StringMapRuns.Workspace.Finish` | src/LuaExecutor.h:1731-1739 | finishing appends a version to the history |
| `StringMapRuns.Workspace.Lookup` | src/LuaExecutor.h:1747-1751 | a published version is read as the history has it |
| `StringMapRuns.Workspace.Peek` | src/LuaExecutor.h:1699-1702 | an open transaction is read as the history has it |
| `StringMapRuns.Workspace.RunAll` | src/LuaExecutor.h:1668-1739 | every run of any length means what the history of finite maps says |
| `StringMapRuns.Workspace.WithUpdates` | src/LuaExecutor.h:1776-1782 | a batch of updates publishes its source with the updates applied in order |
| `SlotMap.NoBitsLeft` | src/LuaExecutor.h:910-911 | eight levels of four bits use up a 32-bit key |
| `SlotMap.BranchesDetermineKey` | src/LuaExecutor.h:954-964 | two 32-bit keys that take the same branch at all eight levels are the same key, and conversely |
| `SlotMap.Value` | src/LuaExecutor.h:954-965 | the lookup returns what the entries of the root hold for the key |
| `SlotMap.CloneNode` | src/LuaExecutor.h:931-937 | a clone stands for its source, or for nothing, under the new token |
| `SlotMap.Adopt` | src/LuaExecutor.h:986-992 | replacing a child by its clone changes no entry of any node and keeps one edge to every copy |
| `SlotMap.Descend` | src/LuaExecutor.h:982-993 | one step down uses the batch's own child or a new clone |
| `SlotMap.PathEdges` | src/LuaExecutor.h:981-993 | the path of a key is entered from above only |
| `SlotMap.SumsAfterWrite` | src/LuaExecutor.h:994 | writing one value or one branch writes one key of the node |
| `SlotMap.WriteLeaf` | src/LuaExecutor.h:994 | the final write changes one key below the nodes on its path and nowhere else |
| `SlotMap.WriteKey` | src/LuaExecutor.h:980-995 | one update of a batch is one update of the entries |
| `Updates.LastUpdateWins` | src/LuaExecutor.h:966-995 | after a batch a key has its last update, or its old value without one |
| `Updates.MeaningsMean` | src/LuaExecutor.h:972-1000 | the first version of a run is empty, every other one is the named earlier version with a batch applied |
| `SlotMap.WithUpdates` | src/LuaExecutor.h:972-1000 | a batch yields the updated entries and modifies nothing that existed before |
| `SlotMap.Run` | src/LuaExecutor.h:972-1000 | after any run of batches, each on any earlier version, every version holds what it held when published |
| `GenerationalMap.FindPast` | src/LuaExecutor.h:1072-1078 | looking past rows of other handles finds what the rest of the chain has |
| `GenerationalMap.ChainAfterUpdate` | src/LuaExecutor.h:1082-1091 | replacing or dropping one generation behind others keeps the rest of the chain in order |
| `GenerationalMap.UpdatedCollisionChain` | src/LuaExecutor.h:1057-1092 | the chain with one generation replaced or removed, or the chain itself when it is not there |
| `GenerationalMap.UpdateSlot` | src/LuaExecutor.h:1158-1201 | all six branches of an update change one generation of the slot and keep its invariant |
| `GenerationalMap.OccupiedAfter` | src/LuaExecutor.h:1202-1209 | the count of present primaries moves by what one slot does |
| `GenerationalMap.Page.Lookup` | src/LuaExecutor.h:1116-1123 | primary or chain: the row of the exact handle, or nothing |
| `GenerationalMap.Page.Apply` | src/LuaExecutor.h:1156-1209 | one update of a page, in place: the rows after, and the page invariant with its count |
| `GenerationalMap.Value` | src/LuaExecutor.h:1109-1124 | the map returns the exact generation or nothing |
| `GenerationalMap.ClonePage` | src/LuaExecutor.h:1044-1047 | a page clone holds the rows of its source |
| `GenerationalMap.PageForWriting` | src/LuaExecutor.h:1145-1152 | a page becomes the batch's own the first time, with no row changed, unless there is none and nothing is to be stored |
| `GenerationalMap.WriteRow` | src/LuaExecutor.h:1137-1209 | one update of a batch, on the batch's own page |
| `GenerationalMap.PageUpdates` | src/LuaExecutor.h:1211-1218 | each written page becomes one directory update, a removal when its last row is gone |
| `GenerationalMap.HoldsAfter` | src/LuaExecutor.h:1211-1222 | storing the written pages publishes exactly the rows of the batch, and no empty page |
| `GenerationalMap.WithUpdates` | src/LuaExecutor.h:1131-1223 | a batch equals applying its updates in order, and modifies nothing that existed before |
| `GenerationalMap.Run` | src/LuaExecutor.h:1131-1223 | after any run of batches, each on any earlier version, every version holds the rows it was published with |
| `Dispatch.BoundaryIsExact` | src/LuaExecutor.cpp:99-134 | a mutation boundary is published if and only if some collected recipient was semantic |
| `Dispatch.MergeAbsorbs` | src/LuaExecutor.h:4182-4244 | merging a recipient's report is absorbing its answer, for a direct and for a resumed answer, and the resumed stop test agrees |
| `Dispatch.RangesAddUp` | src/LuaExecutor.h:4266-4315 | a range that starts afresh and is merged afterwards adds up to going on from the earlier values |
| `Dispatch.FreshStartIsNeutral` | src/LuaExecutor.h:4152-4174 | a fresh start with the carried argument adds nothing |
| `Dispatch.CallRecipient` | src/LuaExecutor.cpp:206-256 | one recipient: suspended with the values kept and the validity withdrawn, or merged |
| `Dispatch.Visit` | src/LuaExecutor.cpp:178-260 | one pass of a recipient loop: suspend, stop, yield at a boundary, or go on |
| `Dispatch.DispatchBatch` | src/LuaExecutor.cpp:82-260 | what a dispatch returns, with what it leaves over run straight, is the straight run; recipients get the latest snapshot; the result has the batches of the called recipients in call order, the snapshot completed last, whether all up to it was presentation, and whether anything was semantic |
| `Dispatch.CollectedMeans` | src/LuaExecutor.cpp:99-128 | collecting recipients one by one gathers their batches in order, the last snapshot, and presentation-only exactly when nobody up to it was semantic |
| `Dispatch.BatchesInOrder` | src/LuaExecutor.cpp:126 | the batches of a recipient come right behind those of the recipients before it |
| `Dispatch.CalledOnesAre` | src/LuaExecutor.cpp:178-186 | the recipients collected from are those of the calls, call by call |
| `Dispatch.SemanticMeans` | src/LuaExecutor.cpp:102-127 | semantic is a batch that asks for causal order, or a completed snapshot of more than presentation |
| `Dispatch.LatestMeans` | src/LuaExecutor.cpp:110-113 | a recipient is given the snapshot completed last before it, or else the one of the request |
| `Dispatch.Clamped` | src/LuaExecutor.cpp:87-88 | the first index is the given one within bounds, and the nearer bound outside |
| `DispatchDriver.StraightCallsInOrder` | src/LuaExecutor.cpp:206-260 | recipients are called once each, in order, and skipped only behind the one that decided the run |
| `DispatchDriver.StraightMeans` | src/LuaExecutor.h:4107-4122 | the values of a run are what the answers of the called recipients add up to, field by field: all answered true, one refused, one accepted, how many have the function |
| `DispatchDriver.StraightEnds` | src/LuaExecutor.h:4074-4106 | nobody is called behind the answer that ends a run, and somebody is left out only behind it, said on hasFunction and ok |
| `DispatchDriver.BytesRun` | src/LuaExecutor.h:4151-4162 | each recipient of a bytes in/out run answers the output before it, and the last output is the result |
| `DispatchDriver.StringRun` | src/LuaExecutor.h:4151-4166 | the same for strings |
| `DispatchDriver.RangeOwes` | src/LuaExecutor.h:4266-4315 | a merged range owes what the uninterrupted run owed |
| `DispatchDriver.Begin` | src/WorldRuntime.cpp:24112-24145 | the first dispatch ends the run, continues behind a boundary, or waits for a suspended recipient |
| `DispatchDriver.Resume` | src/WorldRuntime.cpp:24147-24220 | a resumed recipient is merged and the run stops or goes on behind it |
| `DispatchDriver.Reenter` | src/WorldRuntime.cpp:24222-24400 | re-entering at the next recipient and merging the range keeps what is owed |
| `DispatchDriver.Drive` | src/WorldRuntime.cpp:24112-24400 | any set of suspensions and boundaries gives the values, the declared validity and the calls of the uninterrupted run, and these add up from the answers: counts, results, threaded outputs, and the place where the run ends |
| `JournalRegistry.AppendLast` | src/LuaExecutorWorker.cpp:140-144 | an entry with a later id comes last in the ordered map |
| `JournalRegistry.ClaimKeepsLine` | src/LuaExecutorWorker.cpp:156-182 | claiming moves the boundary between pending and claimed, and nothing else |
| `JournalRegistry.CollectingKeepsLine` | src/LuaExecutorWorker.cpp:249-257 | collecting moves what is pending to the recovery, with the newer batches behind it |
| `JournalRegistry.TakeUpTo` | src/LuaExecutorWorker.cpp:156-163 | taking up to an id takes exactly those journals, in order |
| `JournalRegistry.BackupsInOrder` | src/LuaExecutorWorker.cpp:156-161 | the batches of a journal come right behind those of the journals before it |
| `JournalRegistry.TornBackups` | src/LuaExecutorWorker.cpp:257 | the teardown adds exactly the newer batches |
| `JournalRegistry.DeferredMutationDeliveryRegistry.ReserveId` | src/LuaExecutorWorker.cpp:134-138 | the id handed out is the next one, and the next one after it is larger by one |
| `JournalRegistry.DeferredMutationDeliveryRegistry.Insert` | src/LuaExecutorWorker.cpp:140-144 | the journal is pending under its id and joins the end of what is retained, with ids strictly increasing; the retained batches grow by exactly its backup |
| `JournalRegistry.DeferredMutationDeliveryRegistry.ConsumeDelivery` | src/LuaExecutorWorker.cpp:146-187 | a claim is accepted exactly before recovery and while the journal is pending; it takes every journal up to its id, in order, to be run now or queued behind the active delivery |
| `JournalRegistry.DeferredMutationDeliveryRegistry.RunAction` | src/LuaExecutorWorker.cpp:189-203 | an action hands over its batches once |
| `JournalRegistry.DeferredMutationDeliveryRegistry.FinishAction` | src/LuaExecutorWorker.cpp:205-223 | the active delivery takes the queued action with the least id, or ends and takes over a deferred recovery |
| `JournalRegistry.DeferredMutationDeliveryRegistry.BeginRecovery` | src/LuaExecutorWorker.cpp:228-257 | recovery closes the registry; on a thread that is itself delivering it collects at once what is pending with exactly the newer batches behind it, elsewhere it waits |
| `JournalRegistry.DeferredMutationDeliveryRegistry.CollectForRecovery` | src/LuaExecutorWorker.cpp:237-257 | a waiting recovery then holds the batches of everything pending, in id order, with exactly the newer batches behind them, and nothing is pending any more |
| `JournalRegistry.DeferredMutationDeliveryRegistry.HandOverRecovery` | src/LuaExecutorWorker.cpp:258-276 | what the recovery holds is handed over now, or left to the delivery that is still active |
| `JournalRegistry.DeferredMutationDeliveryRegistry.GivenSoFar` | src/LuaExecutor.h:3801-3802 | what was given is a prefix of what was retained, and all of it at rest |
| `JournalRegistry.DeferredMutationDeliveryRegistry.Run` | src/LuaExecutorWorker.cpp:132-287 | every interleaving: ids strictly increase along what is retained, what was handed out is a prefix of it, and all of it at rest; the retained batches are those inserted, in order, followed by those of the teardown |
| `JournalRegistry.DeferredMutationDeliveryRegistry.Proceed` | src/LuaExecutorWorker.cpp:189-276 | each step that is owed lowers the number of steps owed |
| `JournalRegistry.DeferredMutationDeliveryRegistry.Happen` | src/LuaExecutorWorker.cpp:132-287 | an event adds exactly its batches to those retained; once the recovery has begun, it is owed and lowers the measure, or changes nothing |
| `JournalRegistry.DeferredMutationDeliveryRegistry.SomethingOwed` | src/LuaExecutorWorker.cpp:189-276 | a registry that is not at rest always owes a step of a fair round |
| `JournalRegistry.DeferredMutationDeliveryRegistry.FairRun` | src/LuaExecutorWorker.cpp:132-287 | after the recovery began, as many fair rounds as steps are owed reach rest, and the batches handed out are those retained before, in order, followed by those of the teardown |
| `CompletionSequencer.DeliveredInReservationOrder` | src/LuaExecutorWorker.cpp:304-427 | the delivered completions are those of distinct tickets, in reservation order |
| `CompletionSequencer.SequencedTicketsInOrder` | src/LuaExecutorWorker.cpp:304-427 | the tickets that carry a completion, all of them, in increasing order |
| `CompletionSequencer.CompletionDeliverySequencer.Reserve` | src/LuaExecutorWorker.cpp:307-313 | a reserved ticket joins the end of the queue unresolved |
| `CompletionSequencer.CompletionDeliverySequencer.Resolve` | src/LuaExecutorWorker.cpp:315-354 | a ticket resolves once, and the loop starts exactly when the head of an idle sequencer is resolved |
| `CompletionSequencer.CompletionDeliverySequencer.DeliverNext` | src/LuaExecutorWorker.cpp:366-383 | the loop stops exactly at an open head, passes over a skipped one, and starts the delivery of the completion at the head |
| `CompletionSequencer.CompletionDeliverySequencer.DeliveryFinished` | src/LuaExecutorWorker.cpp:401-412 | the finished callback goes on with the loop exactly when the call has returned, and leaves its mark for the other end otherwise |
| `CompletionSequencer.CompletionDeliverySequencer.DeliveryCallReturned` | src/LuaExecutorWorker.cpp:413-420 | the returned call goes on with the loop exactly when the delivery has finished, and leaves its mark for the other end otherwise |
| `CompletionSequencer.CompletionDeliverySequencer.Run` | src/LuaExecutorWorker.cpp:304-427 | every interleaving delivers in reservation order, one at a time, and an idle sequencer has delivered up to its first open ticket |
| `CompletionSequencer.CompletionDeliverySequencer.TwoEnds` | src/LuaExecutorWorker.cpp:396-422 | of the two ends of a delivery, in either order and whatever happens in between, only the second goes on, and the loop is entered once |
| `CompletionSequencer.CompletionDeliverySequencer.Happen` | src/LuaExecutorWorker.cpp:304-427 | an owed event brings the head closer to a resolved target, and no other event delays it |
| `CompletionSequencer.CompletionDeliverySequencer.FairRun` | src/LuaExecutorWorker.cpp:304-427 | as many fair rounds as steps are owed deliver everything before the first open ticket |
| `DispatchQueue.RemoveOneKeepsOrder` | src/LuaExecutorWorker.cpp:558-561 | removing a request keeps the order of the others |
| `DispatchQueue.Lane.Enqueue` | src/LuaExecutorWorker.cpp:791-807 | a request joins the end of the queue, its enqueuer announces a pump exactly when none is queued, and the queue has a pump whatever failed before |
| `DispatchQueue.Lane.PostPump` | src/LuaExecutorWorker.cpp:816-825 | an announced pump is posted |
| `DispatchQueue.Lane.PostFails` | src/LuaExecutorWorker.cpp:831-843 | after a failed post no pump is queued, the enqueuer's own request is withdrawn and completed with its fallback, and the others are left behind |
| `DispatchQueue.Lane.Take` | src/LuaExecutorWorker.cpp:928-934 | the lane thread takes the head of the queue |
| `DispatchQueue.Lane.StartTaken` | src/LuaExecutorWorker.cpp:938-951 | a taken request starts exactly when it is neither completed nor canceled |
| `DispatchQueue.Lane.Complete` | src/LuaExecutorWorker.cpp:987-994 | a result is stored once |
| `DispatchQueue.Lane.PumpEnds` | src/LuaExecutorWorker.cpp:1011-1015 | a pump ends only when the queue is empty |
| `DispatchQueue.Lane.CancelRemoves` | src/LuaExecutorWorker.cpp:558-561 | cancelling takes the request, and no other, out of the queue |
| `DispatchQueue.Lane.CancelCompletes` | src/LuaExecutorWorker.cpp:562-573 | a request is canceled exactly when it has neither started nor completed, and then has its fallback |
| `DispatchQueue.Lane.PromiseHolds` | src/LuaExecutorWorker.cpp:831-843 | a non-empty queue has a pump if and only if nothing queued was left behind by a failed post since the last enqueue |
| `DispatchQueue.Lane.Run` | src/LuaExecutorWorker.cpp:791-1017 | every interleaving, failing posts included, leaves the state its events determine, with start order, canceled or started but never both, and results kept; a waiting request has a pump if and only if no failed post of the run left it behind, and always when none follows the last enqueue |
| `DispatchQueue.Lane.Happen` | src/LuaExecutorWorker.cpp:791-1017 | each event changes requests, queue, flag, pumps and the record of failed posts exactly as its step function says |
| `DispatchQueue.Progress` | src/LuaExecutorWorker.cpp:928-1017 | a step owed to a waiting request lessens what is owed to it, and no other event adds to it |
| `DispatchQueue.Lane.FairRun` | src/LuaExecutorWorker.cpp:791-1017 | unless a post fails or the request is withdrawn, fair rounds start a queued request or find it completed, whatever else happens |
| `DispatchQueue.Lane.Serve` | src/LuaExecutorWorker.cpp:928-951 | one pass over the queue starts its head, or drops it because it was completed before |
| `DispatchQueue.Lane.Drain` | src/LuaExecutorWorker.cpp:1003-1017 | a pump on its way is posted, serves every queued request in order, and ends with an empty queue |
| `DispatchQueue.StrandedBehindAFailedPost` | src/LuaExecutorWorker.cpp:831-843 | a run in which a failed post leaves another caller's request without a pump |
| `OutputAnchor.PackRoundTrip` | src/LuaExecutor.h:526-545 | one word gives back its index and its three flags |
| `OutputAnchor.WalkedByTotal` | src/LuaExecutor.h:411-416 | walking removal by removal is walking by the total |
| `OutputAnchor.DistanceSinceStore` | src/LuaExecutor.h:519-540 | the counter modulo 2^61 knows the distance to a stored index, even if it wraps |
| `OutputAnchor.DerivedIsWalked` | src/LuaExecutor.h:534-545 | a derived index is the walked one, with the exact condition |
| `OutputAnchor.DerivableFor` | src/LuaExecutor.h:534-545 | an index stays derivable for 2^61 - 2^31 removed lines |
| `OutputAnchor.LuaCallbackOutputAnchorState.GetPresentation` | src/LuaExecutor.h:457-461 | reading gives what an eager walk would have left, if and only if that is derivable from the stored index and the lines gone since; flags always |
| `OutputAnchor.LuaCallbackOutputAnchorState.StorePresentation` | src/LuaExecutor.h:463-469 | storing starts the walk anew |
| `OutputAnchor.LuaCallbackOutputAnchorState.StoreBufferIndex` | src/LuaExecutor.h:471-482 | storing an index keeps both flags |
| `OutputAnchor.LuaCallbackOutputAnchorState.ClearPresentation` | src/LuaExecutor.h:484-487 | clearing leaves index zero and no flag |
| `OutputAnchor.LuaCallbackOutputAnchorState.BindHeadRemovalCount` | src/LuaExecutor.h:493-503 | binding changes nothing a reader sees |
| `OutputAnchor.Run` | src/LuaExecutor.h:408-552 | for any run of stores, clears, removals and bindings over many anchors with one counter, each anchor reads as if every removal since it was bound had walked it, if and only if that is derivable from the index the run stored last and the lines it removed since |
| `OutputAnchor.EnoughRoom` | src/LuaExecutor.h:408-552 | a run that removes no more lines than that in all leaves every anchor derivable |
| `BraceMatch.Unwind` | src/BraceMatch.cpp:147-280 | a backward scan comes along with a forward scan holding the mirrored expectations, unless they have been too many |
| `BraceMatch.RoundTrip` | src/BraceMatch.cpp:147-280 | what a forward scan finds leads the backward scan to the same opener, for every text, if and only if the expectations on the way back never exceed a thousand |
| `BraceMatch.PeakIsBounded` | src/BraceMatch.cpp:224-252 | the expectations on the way back are at most the deepest stack on the way there and the strays |
| `BraceMatch.DeepestFits` | src/BraceMatch.cpp:161-170 | a forward scan that finds its match was never deeper than a thousand |
| `BraceMatch.RoundTripWithinTheLimit` | src/BraceMatch.cpp:147-280 | deepest nesting plus strays at most a thousand, counted on the way there, implies the round trip |
| `BraceMatch.RoundTripWithoutStrays` | src/BraceMatch.cpp:147-280 | without strays, and always in single-bracket counting, the way back finds the opener |
| `BraceMatch.StraysDefeatTheWayBack` | src/BraceMatch.cpp:232-252 | the text for which the way back gives up |
| `BraceMatch.WordRoundTrip` | src/BraceMatch.cpp:147-280 | both scans cross every well-nested word up to a thousand deep, in any text |
| `BraceMatch.ThreePairs` | src/BraceMatch.cpp:18-58 | the three pairs of delimiters, one by one |
| `BraceMatch.CountingFindsBalance` | src/BraceMatch.cpp:147-170 | without nesting the scan finds the first position at which as many brackets have closed as have opened, unless more than a thousand are open before |
| `BraceMatch.FlagBits` | src/BraceMatch.cpp:120-126 | each flag by its bit, and the flags on by default |
| `BraceMatch.BareForward` | src/BraceMatch.cpp:150-200 | without quotes and escapes the forward scan is the plain one |
| `BraceMatch.BareBackward` | src/BraceMatch.cpp:212-273 | without quotes and escapes the backward scan is the plain one |
| `BraceMatch.CountEscapesBackward` | src/BraceMatch.cpp:63-73 | the number of escape characters directly before a position |
| `BraceMatch.ScanForward` | src/BraceMatch.cpp:147-206 | the forward loop stays in bounds, terminates and is the forward scan, with every option |
| `BraceMatch.ScanBackward` | src/BraceMatch.cpp:208-280 | the backward loop, which looks at an opener again, stays in bounds, terminates and is the backward scan, with every option |
| `BraceMatch.FindMatchingBrace` | src/BraceMatch.cpp:78-281 | a match is a pair of matching delimiters in order, one of them at the examined position |
| `BraceMatch.MatcherRoundTrip` | src/BraceMatch.cpp:78-281 | from a match found forwards, the matcher at the closer finds the same match backwards, under the same exact condition |
| `BraceMask.FlagsMean` | src/BraceMatch.cpp:171-182 | which characters escape, quote, and let escapes count in quotes, flag by flag |
| `BraceMask.IsEscapedMeans` | src/BraceMatch.cpp:215-221 | a character is escaped exactly behind an odd run of backslashes, or of percent signs, where these escape |
| `BraceMask.ClosingQuoteMeans` | src/BraceMatch.cpp:180-198 | a quote is closed by the next one of its kind that no escape hides, or never |
| `BraceMask.OpeningQuoteMeans` | src/BraceMatch.cpp:255-271 | to the left a quote is opened by the nearest one of its kind with no odd run of escapes right behind it, or never |
| `BraceMask.QuotedPartsFrom` | src/BraceMatch.cpp:147-204 | every text has its quoted parts, as a scan to the right takes them |
| `BraceMask.QuotedPartsUpTo` | src/BraceMatch.cpp:208-273 | and as a scan to the left takes them |
| `BraceMask.ForwardIsMasked` | src/BraceMatch.cpp:147-206 | with any flags the scan to the right is the plain scan of the text without escaped and quoted characters |
| `BraceMask.BackwardIsMasked` | src/BraceMatch.cpp:208-280 | with any flags the scan to the left is the plain scan of the text without escaped and quoted characters |
| `BraceMask.MatcherIsMasked` | src/BraceMatch.cpp:99-281 | the matcher looks at the delimiter at the cursor, or else at the one before it; an escaped one has no match, any other the one of the plain scan in the masked text |
| `BraceMask.NeverHiddenForwards` | src/BraceMatch.cpp:147-206 | a match found to the right is neither escaped nor quoted |
| `Figlet.HierarchyIsRank` | src/AsciiArt.cpp:147-169 | the hierarchy rule lets the later of six classes win |
| `Figlet.SmushKeepsInk` | src/AsciiArt.cpp:105-192 | two visible characters that may share a column leave something visible, and a blank gives way |
| `Figlet.RulesAreSymmetric` | src/AsciiArt.cpp:128-179 | all rules but the big X do not care which side is which |
| `Figlet.EqualRule` | src/AsciiArt.cpp:134-135 | equal characters give that character |
| `Figlet.UnderscoreRule` | src/AsciiArt.cpp:139-145 | an underscore gives way to any of the listed characters, on either side |
| `Figlet.RankMembers` | src/AsciiArt.cpp:147-169 | the six classes of the hierarchy by their members |
| `Figlet.HierarchyRule` | src/AsciiArt.cpp:147-169 | the character of the later class wins, on either side |
| `Figlet.PairRule` | src/AsciiArt.cpp:171-179 | opposite brackets give a bar, in either order |
| `Figlet.BigXRule` | src/AsciiArt.cpp:181-189 | the three big X results |
| `Figlet.HardblankRule` | src/AsciiArt.cpp:128-132 | two hardblanks give one where the rule is enabled, and a hardblank meets nothing else |
| `Figlet.UniversalRule` | src/AsciiArt.cpp:117-126 | universal smushing shows the later character, or the other one if either is the hardblank |
| `Figlet.SomeRuleApplies` | src/AsciiArt.cpp:128-191 | controlled smushing shows something exactly when one of the enabled rules applies |
| `Figlet.NoSmushing` | src/AsciiArt.cpp:112-115 | without the smushing bit or beside a narrow character no two visible characters may meet |
| `Figlet.ScanEnd` | src/AsciiArt.cpp:235-244 | the boundary of the left side, column 0 never read |
| `Figlet.ScanBegin` | src/AsciiArt.cpp:245-252 | the boundary of the right side |
| `Figlet.AllowedOverlap` | src/AsciiArt.cpp:207-260 | an overlap is allowed exactly as long as the last visible column on the left stays in front of the first on the right, or meets it and smushes with it |
| `Figlet.AmountFor` | src/AsciiArt.cpp:273-280 | the amount is the greatest that every row, the character and the line allow |
| `Figlet.OverlappedColumns` | src/AsciiArt.cpp:284-304 | the overlapped row column by column |
| `Figlet.InRangeMeans` | src/AsciiArt.cpp:288-303 | in range are the overlaps all of whose columns are there on both sides |
| `Figlet.OverlapKeepsInk` | src/AsciiArt.cpp:194-266 | a column of an allowed overlap is not NUL, except possibly a left column 0 |
| `Figlet.InkKeptExactly` | src/AsciiArt.cpp:194-307 | an allowed overlap writes no NUL, exactly when it is not the one unread case; the rows may be of any lengths |
| `Figlet.OneColumnLosesInk` | src/AsciiArt.cpp:112-113 | the smallest loss, behind a character one column wide |
| `Figlet.JoinedKeepsInk` | src/AsciiArt.cpp:268-307 | over all rows of a line, the smushed line is free of NUL exactly when no row loses its ink |
| `Figlet.JoinedIsEven` | src/AsciiArt.cpp:284-306 | rows of one width join to rows of one width, and none is too short |
| `Figlet.NeverLoses` | src/AsciiArt.cpp:117-126 | universal smushing of characters at least two columns wide loses no ink |
| `Figlet.FigletState.OverlapRow` | src/AsciiArt.cpp:285-303 | a row after the overlap: the left side, the smushed columns, the rest of the right side |
| `Figlet.FigletState.Smushamt` | src/AsciiArt.cpp:194-266 | the amount is the least any row allows |
| `Figlet.FigletState.AddChar` | src/AsciiArt.cpp:268-307 | for any font: the line after a character joins, when it is full, when a row is too short for the overlap; even glyphs keep lines even, and a line free of NUL stays so exactly when no row loses its ink |
| `Figlet.FigletState.RefusedWhenTooLong` | src/AsciiArt.cpp:281-282 | a character is refused for its length exactly when the joined line would exceed the limit |
| `Figlet.CodeCases` | src/AsciiArt.cpp:489-495 | which code a character of the text is typeset as, or that it is passed over |
| `Figlet.FigletState.LaidInDirection` | src/AsciiArt.cpp:92-101 | side by side in the direction of the font, with code 0 for what it does not have |
| `Figlet.FigletState.Render` | src/AsciiArt.cpp:486-498 | a whole text: the line its characters make by joining one by one, and which of them is refused and why; even in an even font; free of NUL at every stage if and only if no character makes the line lose ink, which universal smushing of wide characters never does; without kerning and smushing the characters side by side |
| `Figlet.FigletState.InkThroughout` | src/AsciiArt.cpp:268-307 | in a font free of NUL, a line is free of NUL at every stage if and only if no character makes it lose ink |
| `Figlet.FigletState.EvenThroughout` | src/AsciiArt.cpp:268-307 | in an even font every line is even |
| `Figlet.FigletState.SmushedThroughout` | src/AsciiArt.cpp:117-126 | no text of characters two or more columns wide loses ink under universal smushing |
| `Figlet.FigletState.LaidThroughout` | src/AsciiArt.cpp:194-198 | without kerning and smushing a line is its characters side by side |
| `Figlet.LossIsCovered` | src/AsciiArt.cpp:112-126 | a text whose finished line is free of NUL although its second character lost the ink of the first |
| `SoundSnapshot.LuaCallbackSoundPresentationSnapshot.Merge` | src/LuaExecutor.h:3200-3221 | each channel keeps the newer observation; empty changes and other sessions are ignored |
| `SoundSnapshot.LuaCallbackSoundPresentationSnapshot.MergeAll` | src/LuaExecutor.h:3200-3221 | merging a history folds its observations channel by channel |
| `SoundSnapshot.FoldedIsNewest` | src/LuaExecutor.h:3200-3221 | the result is the newest observation of the history |
| `SoundSnapshot.NewerMeans` | src/LuaExecutor.h:3215-3219 | the higher revision wins, and at equal revisions the incoming observation |
| `SoundSnapshot.Converges` | src/LuaExecutor.h:3200-3221 | any order and repetition of the same changes gives the same snapshot |
| `SoundSnapshot.SnapshotsAgree` | src/LuaExecutor.h:3200-3221 | two snapshots that received the same changes, in any order and any number of times, are equal in session, revision and all tables |

## Left out

- The Lua VM, `LuaCallbackEngine` and coroutine resumption: a recipient is an oracle that answers its argument, may suspend before it answers, and leaves batches and a snapshot. A function that is not there cannot suspend. Suspending again before completing changes neither the merged values nor the place to go on, so only the last resume is modelled.
- Dispatch kinds of the shapes LastResult and None: their loops record no value to compare. Kinds of one shape share one loop here.
- Presentation refresh flags and notepad snapshots of a dispatch result, and the fallbacks of cancelled dispatches.
- What the runtime does between the pieces of a dispatch (applying mutations, lanes, guards, recapturing a snapshot): the snapshot at each re-entry is a parameter.
- The trie works on bitmaps as sequences of 32 bits; `SparseBranches.WordOperations` ties them to the machine words. Hashes are natural numbers from an arbitrary function; `QHash` iteration is in arbitrary order.
- Reference counting and the release of unreachable nodes. Builder tokens and journal ids do not wrap.
- The inline generational map: the same algorithm with values stored in place.
- Threads, memory order and locks: each monitor is modelled by its atomic sections and any interleaving of them. Consumers that throw, timeouts, the bridge between threads and worker shutdown of the request queue are not part of the model.
- JournalRegistry.DeferredMutationDeliveryRegistry.Run: one producing lane and one recovery that begins after the producer has stopped, as in `shutdownWorker`.
- BraceMatch.RoundTrip: quotes and escapes are off; with them the two directions read different characters.
- Targetless completions, the control lane, the retained-engine cache, connection cancellation and the deferred line index are not modelled.
- Figlet.FigletState.AddChar: when a row of a ragged font is too short for the overlap, the container's index check decides what happens; the model stops there.
- Cursor handling, beeps, the font file format and line wrapping around the brace matcher and the FIGlet line.
