# OrcaNet node: block tree, chain selection, address manager, peers

A model in Dafny of the stateful core of the OrcaNet full node, and proofs of what
that core is for. `dafny verify dfyconfig.toml` checks all of it.

**The block tree and the best chain** (`coin/OrcaNet/blockchain`)

| file | contents |
|---|---|
| `Arithmetic.dfy`, `Bits.dfy` | quotients; the bit operations of the skip pointers and of the base-2 logarithm, on integers |
| `BlockTree.dfy` | block nodes with parent and skip pointer, and the ancestor lookup |
| `SkipCost.dfy` | the number of iterations of the lookup: exact costs, and bounds that are attained |
| `ChainViews.dfy` | the array of the best chain: updating it in place, forks, block locators |
| `MedianTime.dfy` | the median of the last timestamps along a branch |
| `Selection.dfy` | what accepting a block may do to tree, statuses and tip, as a transition system, and what every run keeps |
| `InvalidSideChain.dfy` | blocks submitted to a chain until the result of a call is misleading |
| `Index.dfy`, `Ledger.dfy`, `Chain.dfy` | the chain itself: the methods that accept blocks, extend and reorganize, proved to be transitions and to conserve the state they carry |
| `Runs.dfy` | sequences of submitted blocks are runs of the transition system; when the best chain is the heaviest, as a condition on the inputs |
| `Sync.dfy` | answering the block locator of another node |
| `ChainTips.dfy` | the tips of the tree |
| `Orphans.dfy` | the pool of blocks without a known parent |

**The address manager** (`coin/OrcaNet/addrmgr`): `AddressBook.dfy` is its bookkeeping
as a value with the structural invariant; `AddrManager.dfy` are the methods on buckets,
lists and counters, each proved to change that value as stated; `PeersFile.dfy` is what
loading rebuilds.

**Pieces of the server**: `CfCheckpoints.dfy` (the cache of compact filter checkpoints),
`Peers.dfy` (the peer set over the life of peers), `Notifications.dfy` (the two
notification queues of websocket clients).

## How it is modelled

- Nodes, views, the index, the chain, the pool, the address manager, the cache and the
  peer set are classes whose methods update fields, arrays and maps in place as the
  program does. Each method is tied to a specification function or a relation over
  values; invariants over runs are lemmas about those.
- The fields of a block node that the program treats as immutable are constants, so the
  branch of a node does not depend on the heap; the status field is mutable.
- `Chain.BlockChain.MaybeAcceptBlock` is the entry step of the chain. It ensures
  `Selection.Step`, and `Selection.Run*` are about all sequences of such steps from
  genesis; `Runs.AcceptAll` is a method whose calls are such a sequence. The goroutines of a
  websocket client are a transition system over channels with their capacities; runs are
  arbitrary interleavings.
- Header and transaction validation, signature checks and the outputs a block creates
  and spends are abstract functions (`Ledgers.Rules`): a check, a function that applies
  a block, what it spends, and an undo with `undo(connect(u, b), b, spent(u, b)) == u`.
- Bucket hashes, random draws, the clock, which addresses are bad or parse, the result
  of the position-dependent block checks, and which checks meet an error that is not a
  rule violation are parameters. Orders of map iteration are left open.

Assumptions: work is positive; hashes are unique and blocks form no cycles; a block that
is submitted is not in the index yet; heights fit in an int32; there is one writer of
the chain state (its lock is given up for notifications in the middle of a
reorganization, `chain.go:733-735` and `856-858`); database calls do not fail, except
that a block's check may, and that the filter index may lack headers; a block fixes its
filter header; the text of a saved address parses to an address with that text (for the
round trip; loading is modelled for any parse); a peer's number is set together with its
version flag.

## Where code and expectations differ

- `connectBestChain` returns `true` also when nothing was attached because the side
  chain holds a known invalid block. `Selection.MisleadingTrue` gives the exact condition
  on the state before the call, and `InvalidSideChain.TrueOffMainChain` submits blocks to
  a chain until it happens.
- An error that is not a rule violation leaves a heavier block unmarked. `Runs.Accept`
  says for which tree, block, flags and faulted checks that happens, as an equivalence,
  and `Runs.HeavierAfterFault` is such a call.
- The work stored when a block is disconnected is the removed block's
  (`chain.go:787`); the next connected block corrects it, so between calls the stored
  work is the tip's.
- The orphan pool can exceed its limit of 100 (`Orphans.OrphanPool.AddOrphanBlock`,
  `OutgrowsLimit`).
- The filter index deletes the headers of disconnected blocks
  (`indexers/cfindex.go:228-256`), so a message can be sent for a branch whose headers are
  in the cache only (`CfCheckpoints.SentIffInDatabase`, `AnswersAfterReorganization`).
- The filter cache is updated in place before all headers are known, so a failed call can
  leave it inconsistent (the condition is in `CfCheckpoints.CheckpointCache.OnGetCFCheckpt`,
  a family of cases in `LeavesMixture`).
- A failed load empties the address manager but not its counters
  (`addrmanager.go:708-720`); `AddrManagers.AddrManager.LoadPeers` says what they are.
- Loading does not check the bounds of buckets and reference counts, so an accepted file can
  give a manager without its invariant: `PeersFile.LoadedIsValid` is the exact condition.
- The comment on the block locator speaks of the 12 previous hashes; the doubling of
  the distance starts so that the first 12 entries, with the block's own, are
  consecutive.
- A new bucket may hold 65 addresses, because the test for a full one is strict:
  `AddrManagers.AddrManager.AddToBucket` says when, `HoldsOneTooMany` is a case.

## Main results

- The ancestor lookup agrees with following parents and takes at most A(k) iterations
  between a height and the one with its lowest set bit cleared, which is attained; 330
  from height 1<<29, and 404 is the exact maximum over all int32 heights
  (`BlockTree.BlockNode.Ancestor`, `SkipCost.StepsWithinBit`, `StepsWithinBitAttained`,
  `StepsFromOneShl29`, `StepsAnywhere`, `StepsAnywhereAttained`, `StepsInt32`).
- Rewriting the view in place is a full rebuild (`ChainViews.ChainView.SetTip`).
- A locator has exactly the computed size, and meets the answering chain near the fork
  (`ChainViews.ChainView.BlockLocator`, `Sync.LocatorMeetsLocate`); the reply to it is the
  one list that its description allows (`Sync.LocateBlocks`, `OneReply`, `ReplyEnds`).
- The past median is that of the last 11 timestamps, and never falls along a branch
  (`MedianTime.CalcPastMedianTime`, `MedianNeverFalls`).
- A reorganization is all or nothing, and no defensive check fails
  (`Chain.BlockChain.ReorganizeChain`).
- Every call does to the tree what its block, parent and flags determine, and conserves
  snapshot, journal and unspent outputs (`Chain.BlockChain.MaybeAcceptBlock`,
  `Runs.Accept`, `Runs.AcceptAll`).
- In every run the best chain is the heaviest without a known invalid block, by the sum of
  the works of its blocks, but for an exact condition on the inputs (`Runs.Accept`,
  `Runs.HeaviestWithoutFaults`, `BlockTree.WorkOfBranch`); what a call marks is stated for
  every block (`Selection.StepMarks`); work never
  decreases, ties keep the first seen (`Selection.RunIsMonotone`); no block of a best
  chain becomes invalid (`Selection.BestChainNeverInvalid`).
- The tips cover the tree (`ChainTips.ChainTips`).
- The orphan pool's two indexes agree (`Orphans.OrphanPool.AddOrphanBlock`,
  `RemoveOrphanBlock`).
- The address manager keeps its structural invariant (`AddrManagers.AddrManager.UpdateAddress`,
  `Good`), the buckets determine the rest (`AddressBook.BucketsDetermineBook`), saving and
  loading restores it (`SaveAndLoad`), and which files load is stated exactly
  (`DeserializePeers`).
- The filter cache answers with the headers of the requested branch through any history of
  requests and reorganizations (`CfCheckpoints.Serve`).
- Group counts of peers are exact, and a peer that is done is never listed again
  (`Peers.Server.HandleAddPeer`, `HandleDonePeer`).
- Reports on the one-slot channel never block, notifications are written in order, and none
  of a connected client is ever stuck (`Notifications.ReportsNeverBlock`, `WrittenInOrder`,
  `NothingIsStuck`); the other queue hands everything over (`DrainedHandler`).

## Model

| member | source | states |
|---|---|---|
| Bits.InvertLowestOneClears | coin/OrcaNet/blockchain/blockindex.go:158-160 | `n & (n-1)` on a number with lowest set bit i clears exactly that bit. |
| Bits.LowestBit | coin/OrcaNet/blockchain/blockindex.go:158-160 | Every positive number has a lowest set bit: it is an odd number shifted. |
| BlockTree.SkipShrinks | coin/OrcaNet/blockchain/blockindex.go:163-165 | Popping the lowest bits never increases a height and strictly decreases a positive one. |
| BlockTree.GetAncestorHeight | coin/OrcaNet/blockchain/blockindex.go:163-165 | The skip height of a positive height is below it. |
| BlockTree.BlockNode.constructor | coin/OrcaNet/blockchain/blockindex.go:111-127 | A node built on a well-formed parent is well-formed: height, work and the skip pointer, found with `Ancestor` itself, are those of its branch. |
| BlockTree.WorkOfBranch | coin/OrcaNet/blockchain/blockindex.go:124 | The work that a node keeps is the sum of the works of the blocks of its branch. |
| BlockTree.BlockNode.Ancestor | coin/OrcaNet/blockchain/blockindex.go:183-207 | Returns the node that following parents reaches, nil exactly for a height below 0 or above the node's, in exactly `LookupSteps` iterations. |
| BlockTree.PathShape | coin/OrcaNet/blockchain/blockindex.go:111-127 | A branch holds exactly one well-formed node at each height from 0 to its end. |
| BlockTree.PathPrefix | coin/OrcaNet/blockchain/blockindex.go:183-207 | The branch of an ancestor is a prefix of the branch of the node. |
| BlockTree.Links | coin/OrcaNet/blockchain/blockindex.go:171-173 | The parent pointer leads one down the branch, the skip pointer to the computed height on the same branch. |
| SkipCost.MaxStepsClosedForm | coin/OrcaNet/blockchain/blockindex.go:157-165 | The bound A(k) is 3p(p+1)/2 at k = 2p, and p+1 more at 2p+1. |
| SkipCost.MaxStepsMonotone | coin/OrcaNet/blockchain/blockindex.go:157-165 | A is monotone, with the gap that clearing one more bit costs. |
| SkipCost.SkipRun | coin/OrcaNet/blockchain/blockindex.go:183-207 | Skips below a multiple of 2^j pop 1 bits two at a time: the exact number of steps of such a run. |
| SkipCost.ReachBit | coin/OrcaNet/blockchain/blockindex.go:183-207 | The exact cost from n-1 to n-2^j when the target lies in that window. |
| SkipCost.ReachOddBit | coin/OrcaNet/blockchain/blockindex.go:183-207 | The odd case: the skip overshoots and the run is taken from one lower, j steps in all. |
| SkipCost.StepsWithinBit | coin/OrcaNet/blockchain/blockindex.go:183-207 | From P+2^k, with 2^k its lowest set bit, to any target in (P, P+2^k]: at most A(k) iterations. |
| SkipCost.StepsWithinBitAttained | coin/OrcaNet/blockchain/blockindex.go:183-207 | The bound A(k) is attained, by the target P+1, for every such start. |
| SkipCost.StepsFromPowerOfTwo | coin/OrcaNet/blockchain/blockindex.go:183-207 | From height 2^k every target costs at most A(k), and target 1 exactly A(k). |
| SkipCost.StepsFromOneShl29 | coin/OrcaNet/blockchain/blockindex.go:162-165 | The figure in the comment: from height 1<<29 at most 330 iterations, and 330 is reached. |
| SkipCost.ClearLowest | coin/OrcaNet/blockchain/blockindex.go:183-207 | The exact cost of clearing the lowest set bit of the start on the way to a lower target. |
| SkipCost.StepsFrom | coin/OrcaNet/blockchain/blockindex.go:183-207 | From any height below 2^m, with lowest set bit a, to any lower one: at most A(m-1) plus what clearing one more bit can cost, minus half of a. |
| SkipCost.MaxClearClosedForm | coin/OrcaNet/blockchain/blockindex.go:183-207 | The most that clearing one bit costs: 3p-1 for bits below 2p, and for bits below 2p+1 too when p > 1. |
| SkipCost.StepsAnywhere | coin/OrcaNet/blockchain/blockindex.go:183-207 | Between any two heights below 2^m at most A(m-1) plus that cost for bits below m-1. |
| SkipCost.StepsAnywhereAttained | coin/OrcaNet/blockchain/blockindex.go:183-207 | That is the exact maximum: for odd m >= 3 and even m >= 6 the pair of heights that reaches it. |
| SkipCost.StepsInt32 | coin/OrcaNet/blockchain/blockindex.go:183-207 | Between any two int32 heights at most 404 iterations, and from 0x7FFFFFFE to 1 exactly 404. |
| ChainViews.Log2FloorUnique | coin/OrcaNet/blockchain/chainview.go:18-32 | Floor log2 is characterised by 2^r <= n < 2^(r+1). |
| ChainViews.FastLog2Floor | coin/OrcaNet/blockchain/chainview.go:18-32 | The masked binary search returns the true floor log2 for every positive uint32. |
| ChainViews.ChainView.Genesis | coin/OrcaNet/blockchain/chainview.go:66-72 | The first block of the tip's branch, nil for an empty view. |
| ChainViews.ChainView.NodeByHeight | coin/OrcaNet/blockchain/chainview.go:190-195 | The node of the tip's branch at the height, nil outside it. |
| ChainViews.ChainView.Contains | coin/OrcaNet/blockchain/chainview.go:227-229 | True exactly for the nodes of the tip's branch. |
| ChainViews.ChainView.Next | coin/OrcaNet/blockchain/chainview.go:250-256 | Non-nil exactly for nodes on the branch other than the tip; then the child on the branch. |
| ChainViews.ChainView.constructor | coin/OrcaNet/blockchain/chainview.go:54-59 | A new view is that of its tip. |
| ChainViews.ChainView.SetTip | coin/OrcaNet/blockchain/chainview.go:116-148 | From any consistent view, also a shrunk or cleared one with stale slots in its backing array, the early-stopping rewrite leaves exactly the branch of the new tip, as a full rebuild would. |
| ChainViews.ChainView.Resize | coin/OrcaNet/blockchain/chainview.go:116-137 | Resizing keeps the old entries, and every other slot is nil, in place when the array has room. |
| ChainViews.ChainView.FindFork | coin/OrcaNet/blockchain/chainview.go:292-322 | The last node on both branches, or nil. |
| ChainViews.ForkFromAncestor | coin/OrcaNet/blockchain/chainview.go:292-322 | Starting the search at the tip's height does not change the fork. |
| ChainViews.ForkIsHighestCommon | coin/OrcaNet/blockchain/chainview.go:292-322 | The branches agree exactly up to the fork and at no height above it. |
| ChainViews.ChainView.FastAncestor | coin/OrcaNet/blockchain/chainview.go:385-400 | The lookup in the array, when the node is in the view, agrees with walking back. |
| ChainViews.ChainView.BlockLocator | coin/OrcaNet/blockchain/chainview.go:357-414 | The result is the locator of the node (the tip for nil): its entries are ancestors at the prescribed heights down to genesis, and their number is exactly the precomputed capacity, below 256. |
| ChainViews.ChainView.MaxLocatorEntries | coin/OrcaNet/blockchain/chainview.go:366-376 | The precomputed capacity: height+1 up to 12, else 12 + floor(log2(height-10)). |
| ChainViews.ChainView.LocatorFrom | coin/OrcaNet/blockchain/chainview.go:378-411 | The loop with the doubling step collects exactly those entries. |
| ChainViews.LocatorSteps | coin/OrcaNet/blockchain/chainview.go:402-411 | The heights of successive entries: one apart for the first 12, then by powers of two. |
| ChainViews.LocatorSizeExact | coin/OrcaNet/blockchain/chainview.go:366-376 | The number of entries until genesis is the formula, for every height. |
| MedianTime.CalcPastMedianTime | coin/OrcaNet/blockchain/blockindex.go:276-309 | The result is the median of the timestamps of the last 11 blocks of the branch, or of all if there are fewer: it is one of them, with at most half of them below it and more than half not above it. |
| MedianTime.MedianOfLast | coin/OrcaNet/blockchain/blockindex.go:276-309 | So is the median that the other results are about. |
| MedianTime.WindowIsLast | coin/OrcaNet/blockchain/blockindex.go:276-309 | The window is read off the branch: min(height + 1, k) timestamps, entry i that of the block at height - i. |
| MedianTime.MedianIsUnique | coin/OrcaNet/blockchain/blockindex.go:276-309 | A list has only one such median. |
| MedianTime.SortSorts | coin/OrcaNet/blockchain/timesorter.go:11-27 | Sorting orders the timestamps and keeps them as a multiset. |
| MedianTime.MedianRank | coin/OrcaNet/blockchain/blockindex.go:276-309 | The median is one of the timestamps, and is below a time exactly if more than half of the window is (integer half), also for windows of even size. |
| MedianTime.MedianRisesOnce | coin/OrcaNet/blockchain/doc.go:48-49 | If a block's timestamp exceeds its parent's past median, its own past median is not lower. |
| MedianTime.MedianNeverFalls | coin/OrcaNet/blockchain/doc.go:48-49 | Along a branch that follows the timestamp rule the past median never falls, between any two heights. |
| Selection.ForkExists | coin/OrcaNet/blockchain/chain.go:507-553 | Any two branches of the index have a fork, on both. |
| Selection.AttachShape | coin/OrcaNet/blockchain/chain.go:507-553 | The attach list links the fork to the node in order, holds every height between them once, and nothing of the best chain. |
| Selection.DetachLink | coin/OrcaNet/blockchain/chain.go:507-553 | The detach list follows parents from the tip to the fork. |
| Selection.AddedSound | coin/OrcaNet/blockchain/accept.go:63-74 | Indexing a new node keeps the tree and its statuses sound; it is not on the best chain. |
| Selection.ReorgKeepsSound | coin/OrcaNet/blockchain/chain.go:1007-1062 | Marking the attached blocks valid keeps the statuses sound. |
| Selection.FailedReorgKeepsSound | coin/OrcaNet/blockchain/chain.go:1048-1058 | Marking the failing block failed and the later ones invalid-ancestor keeps the statuses sound: each marked block does have a failed ancestor, and none was valid. |
| Selection.InvalidBranchKeepsSound | coin/OrcaNet/blockchain/chain.go:523-543 | Marking the blocks above a known invalid one keeps the statuses sound. |
| Selection.StepKeepsSound | coin/OrcaNet/blockchain/chain.go:1165-1299 | Every way to accept a block keeps: valid blocks have valid ancestors and are not known invalid, invalid-ancestor marks have a failed ancestor, the tip is known valid. |
| Selection.StatusesGrow | coin/OrcaNet/blockchain/blockindex.go:399-404 | Accepting a block never removes known-valid or known-invalid from any block. |
| Selection.StepMarks | coin/OrcaNet/blockchain/chain.go:1165-1299 | What accepting a block does to the status of every block, flag by flag: the branch of a new tip becomes valid; where a check fails, the blocks below it on the branch are valid, it failed and those above have an invalid ancestor; after another error only those below are marked; above the highest known invalid block all have an invalid ancestor; and nothing else changes. |
| Selection.FailedMarks | coin/OrcaNet/blockchain/chain.go:1007-1062 | The case of a reorganization that fails. |
| Selection.ReorgMarks | coin/OrcaNet/blockchain/chain.go:1007-1062 | The case of one that succeeds. |
| Selection.StepKeepsHeaviest | coin/OrcaNet/blockchain/chain.go:1165-1299 | Every heavier branch than the tip's holds a known invalid block after the step exactly if the call did not end in an error that is not a rule violation; `Runs.Accept` has the condition on the inputs. |
| Selection.WorkIsKept | coin/OrcaNet/blockchain/blockindex.go:124 | Comparing the works that nodes keep is comparing the sums over their branches. |
| Selection.HeavyNewBlock | coin/OrcaNet/blockchain/chain.go:1048-1058 | A heavier new block that did not become the tip is marked invalid itself. |
| Selection.DatabaseErrorStep | coin/OrcaNet/blockchain/chain.go:1048-1058 | After such an error the new block is heavier than the tip and nothing on its branch is marked: the reason for the exception. |
| Selection.ReportedOnMainChain | coin/OrcaNet/blockchain/chain.go:535-543 | A call that reports `true` makes the block the tip exactly if the branch to attach held no known invalid block beforehand. |
| Selection.MisleadingTrue | coin/OrcaNet/blockchain/chain.go:1284-1298 | A call reports `true` for a block that is not the tip exactly if the block is not on top of the tip, has more work, and the branch to attach held a known invalid block: all known before the call. |
| InvalidSideChain.TrueOffMainChain | coin/OrcaNet/blockchain/chain.go:1284-1298 | Five blocks submitted to a new chain, under rules that refuse the second: the last call reports `true`, and its block is indexed and not the tip. |
| InvalidSideChain.StepC | coin/OrcaNet/blockchain/chain.go:1048-1058 | In that run the fourth block fails because of the second, and a sibling above the second stays unmarked. |
| InvalidSideChain.StepN | coin/OrcaNet/blockchain/chain.go:523-543 | So the fifth, on that sibling, is accepted and reported as on the main chain. |
| InvalidSideChain.AttachedC | coin/OrcaNet/blockchain/chain.go:507-553 | The blocks to attach for the fourth block of that run. |
| InvalidSideChain.AttachedN | coin/OrcaNet/blockchain/chain.go:507-553 | The blocks to attach for the fifth. |
| Selection.RunIsSound | coin/OrcaNet/blockchain/chain.go:1165-1299 | In every state of every run from genesis the tree and statuses are sound, and only branches with a known invalid block have blocks whose works add up to more than those of the best chain, as long as no call reported an error that is not a rule violation. |
| Runs.Accept | coin/OrcaNet/blockchain/accept.go:24-92 | One call does with its block what `Performs` says: with a parent that is indexed and not known invalid, and a good position, a node for this block is indexed and one of the modelled steps is taken; otherwise nothing changes and the reason is reported. From a state in which only branches with a known invalid block are heavier than the best chain, so it is afterwards exactly unless the call meets an error that is not a rule violation, a condition on tree, block, flags and faulted checks before the call. |
| Runs.ParentByHash | coin/OrcaNet/blockchain/accept.go:27-40 | The lookup in the index finds the parent exactly if the tree has one. |
| Runs.AcceptAll | coin/OrcaNet/blockchain/accept.go:24-92 | Submitting any sequence of blocks to a new chain is a run in which the k-th step is what the k-th call does with its block, and the chain ends in its last state. The calls are the submitted ones in order, without exactly those whose block is indexed when its turn comes; what is trusted without a check was submitted to be. |
| Runs.KeptInOrder | coin/OrcaNet/blockchain/accept.go:24-92 | So the calls are a subsequence of the submissions, at increasing places. |
| Runs.HeaviestWithoutFaults | coin/OrcaNet/blockchain/chain.go:1165-1299 | In every run of calls, the statuses are sound, and the best chain is heaviest among the branches without a known invalid block if no call before met such an error with the block that was submitted. |
| Runs.HeavierAfterFault | coin/OrcaNet/blockchain/chain.go:1203-1210 | A call after which a heavier, unmarked block is off the best chain: the check of a block on genesis meets an error. |
| Selection.RunIsMonotone | coin/OrcaNet/blockchain/chain.go:1165-1299 | Between any two states of a run the sum of the works of the best chain does not decrease, equal work means the same tip, and known valid blocks stay valid and never become invalid. |
| Selection.BestChainNeverInvalid | coin/OrcaNet/blockchain/chain.go:1165-1299 | No block that was ever on the best chain is known invalid in any later state. |
| Index.BlockIndex.AddNode | coin/OrcaNet/blockchain/blockindex.go:369-383 | The node is indexed and dirty; every clean status is still the one in the database. |
| Index.BlockIndex.SetStatusFlags | coin/OrcaNet/blockchain/blockindex.go:399-404 | Adds the flags to the one node and makes it dirty. |
| Index.BlockIndex.FlushToDB | coin/OrcaNet/blockchain/blockindex.go:457-481 | Afterwards nothing is dirty and the database has every node's status. |
| Ledgers.JournalAt | coin/OrcaNet/blockchain/chain.go:689-694 | The spend journal of a branch has, for each of its blocks, what it spent on its own branch. |
| Ledgers.JournalKeys | coin/OrcaNet/blockchain/chain.go:814-819 | The journal of a branch has entries of its blocks above genesis only. |
| Ledgers.SnapshotShows | coin/OrcaNet/blockchain/chain.go:62-89 | The best state of a tip, field by field: its hash, height and number of transactions, the sum over all blocks of the branch with genesis, and the median of the last 11 timestamps. |
| Ledgers.OutputsOfBranch | coin/OrcaNet/blockchain/chain.go:935-986 | The unspent outputs of a branch are those after connecting all its blocks above genesis in order. |
| Ledgers.PassesBefore | coin/OrcaNet/blockchain/chain.go:1007-1062 | A block is checked against the unspent outputs before it. |
| Chain.BlockChain.constructor | coin/OrcaNet/blockchain/chainio.go:1067-1085 | A new chain holds the genesis block, known valid, with the snapshot and unspent outputs that it leads to; the number of transactions starts with those of genesis. |
| Chain.BlockChain.ConservedShows | coin/OrcaNet/blockchain/chain.go:62-89 | Whenever the state is that of the tip, both best states are the tip's field by field, and the unspent outputs those after all blocks above genesis. |
| Chain.BlockChain.NewBestState | coin/OrcaNet/blockchain/chain.go:602-612 | The best state built from a node and a running total is the node's, field by field. |
| Chain.BlockChain.ConnectBlock | coin/OrcaNet/blockchain/chain.go:571-742 | On the tip's child, with its unspent outputs: the defensive check never fails, the node is the tip, snapshot and stored state are the node's field by field, and stored work, journal and unspent outputs are those of its branch. |
| Chain.BlockChain.DisconnectBlock | coin/OrcaNet/blockchain/chain.go:748-861 | On the tip, with the parent's unspent outputs: the defensive check never fails and everything is the parent's, the best states field by field, except the stored work, which is the removed block's. |
| Chain.BlockChain.CollectAttach | coin/OrcaNet/blockchain/chain.go:523-531 | The walk down finds the attach list, or the part above the highest known invalid block. |
| Chain.BlockChain.MarkInvalidAncestor | coin/OrcaNet/blockchain/chain.go:535-541 | Exactly the listed nodes get the flag. |
| Chain.BlockChain.CollectDetach | coin/OrcaNet/blockchain/chain.go:545-550 | The walk down finds the tip's branch above the fork, tip first. |
| Chain.BlockChain.GetReorganizeNodes | coin/OrcaNet/blockchain/chain.go:507-553 | Detach and attach lists are the two branches above their fork, and no status changes; or both are empty and exactly the blocks above the highest known invalid one are marked. |
| Chain.BlockChain.LoadDetach | coin/OrcaNet/blockchain/chain.go:935-986 | Undoing the detached blocks on a view, with their journal entries, gives the unspent outputs of the fork. |
| Chain.BlockChain.CheckAttach | coin/OrcaNet/blockchain/chain.go:1007-1062 | The check phase changes statuses only. All blocks are let through and are valid, or it stops at the first that is not: with the error of its check if that meets one, and else with a rule error, the block failed and exactly the later ones invalid-ancestor. Each check sees the unspent outputs of the block's own branch. |
| Chain.CheckedFault | coin/OrcaNet/blockchain/chain.go:1048-1058 | The check phase ends in an error that is not a rule violation exactly if the first block not let through meets one. |
| Chain.BlockChain.DisconnectAll | coin/OrcaNet/blockchain/chain.go:1072-1097 | Disconnecting the list leads exactly to the fork and its state, and no check on the way fails. |
| Chain.BlockChain.ConnectAll | coin/OrcaNet/blockchain/chain.go:1099-1126 | Connecting the list leads exactly to its last block and its state, and no check on the way fails. |
| Chain.BlockChain.ReorganizeChain | coin/OrcaNet/blockchain/chain.go:884-1149 | All or nothing: on success the view, snapshot and unspent outputs are those of the node's branch; on failure in the check phase none of them changed; empty lists do nothing and succeed. |
| Chain.BlockChain.SwitchBranch | coin/OrcaNet/blockchain/chain.go:1069-1126 | The second phase cannot fail, and ends at the node. |
| Chain.BlockChain.ExtendBestChain | coin/OrcaNet/blockchain/chain.go:1182-1253 | The extending case does one of the modelled extension steps and keeps the invariant; a block added without a check is recorded as trusted. |
| Chain.BlockChain.ConnectHeavier | coin/OrcaNet/blockchain/chain.go:1277-1298 | The reorganizing case does a successful, a failed or an ignored reorganization step and keeps the invariant. |
| Chain.BlockChain.ConnectBestChain | coin/OrcaNet/blockchain/chain.go:1165-1299 | Every call is one of the modelled choices of the best chain, and keeps the invariant. |
| Chain.BlockChain.HeavierChoice | coin/OrcaNet/blockchain/chain.go:1277-1298 | What a reorganization attempt leaves is one of the modelled choices. |
| Chain.BlockChain.ParentIsTip | coin/OrcaNet/blockchain/chain.go:1181-1182 | The comparison of hashes at the entry decides whether the parent is the tip. |
| Chain.BlockChain.AddBlockNode | coin/OrcaNet/blockchain/accept.go:63-74 | The new node is indexed with its data stored, and nothing else changes. |
| Chain.BlockChain.MaybeAcceptBlock | coin/OrcaNet/blockchain/accept.go:24-92 | Between any two calls the invariant holds: the view is the tip's branch; snapshot, transaction total, journal and unspent outputs are the replay of that branch; valid and failed marks are true of the rules. A call rejects exactly an unknown parent, an invalid parent or a bad position, without an effect, and otherwise is a step of the transition system; it ends in an error that is not a rule violation exactly if choosing the best chain meets one. |
| Sync.LocateInventory | coin/OrcaNet/blockchain/chain.go:1687-1732 | The block after the most recent locator block on the best chain, or after genesis if there is none, and how many follow: no more than the maximum and none after the stop block, if that comes later, and the greatest such number; the empty locator asks for the stop block alone. |
| Sync.StartIsLastKnown | coin/OrcaNet/blockchain/chain.go:1700-1710 | The search finds the first locator hash that is a block of the best chain, and genesis if none is. |
| Sync.SomeLastKnown | coin/OrcaNet/blockchain/chain.go:1700-1710 | There always is such a height. |
| Sync.LocateBlocks | coin/OrcaNet/blockchain/chain.go:1741-1757 | The reply lists these blocks of the best chain in order, at most the maximum; the walk never leaves the chain. |
| Sync.ReplyEnds | coin/OrcaNet/blockchain/chain.go:1687-1757 | A reply to a locator without known blocks starts after genesis; it ends with the stop block if that comes within the maximum; without a stop block it is as long as the maximum or ends at the tip. |
| Sync.OneReply | coin/OrcaNet/blockchain/chain.go:1687-1757 | There is exactly one reply with these properties. |
| Sync.EntryKnown | coin/OrcaNet/blockchain/chain.go:1703-1710 | Of a locator built on another branch, exactly the entries not above the fork are recognised, each as the block at its height. |
| Sync.FirstBelowDistance | coin/OrcaNet/blockchain/chainview.go:357-414 | The first entry not above a height is at it within 11 blocks, and otherwise at most d-11 below it. |
| Sync.LocatorMeetsLocate | coin/OrcaNet/blockchain/chain.go:1687-1732 | For a locator of a block d above the fork, the start is exactly the fork when d <= 11, and at most d-11 below it otherwise. |
| Sync.ReplyReachesNewBlock | coin/OrcaNet/blockchain/chain.go:1687-1732 | So a reply without stop block and with a maximum above d-11 contains the first block past the fork. |
| ChainTips.CollectOrphans | coin/OrcaNet/blockchain/blockindex.go:424-435 | The two maps hold exactly the blocks off the best chain and their parents. |
| ChainTips.SelectTips | coin/OrcaNet/blockchain/blockindex.go:437-450 | Removing parents in any order leaves exactly the blocks that are no parent. |
| ChainTips.InactiveTips | coin/OrcaNet/blockchain/blockindex.go:420-453 | Exactly the indexed nodes off the best chain without children, each once. |
| ChainTips.TipsCover | coin/OrcaNet/blockchain/chain.go:1407-1462 | From any indexed node the way up ends in the best tip or in an inactive tip. |
| ChainTips.AllCovered | coin/OrcaNet/blockchain/chain.go:1407-1462 | So the tips together cover the index. |
| ChainTips.ChainTips | coin/OrcaNet/blockchain/chain.go:1407-1462 | All tips are reported, the best one last and active, and of the others those with a known invalid mark as invalid, with a branch length that is the number of their blocks off the best chain; every indexed block is an ancestor of one of them, or is it. |
| ChainTips.TipReport | coin/OrcaNet/blockchain/chain.go:1407-1462 | The reported status of a tip by its marks. |
| ChainTips.BranchLength | coin/OrcaNet/blockchain/chain.go:1451-1456 | The difference of heights to the fork is that number. |
| CfCheckpoints.IntervalBlockHashes | coin/OrcaNet/blockchain/chain.go:1636-1669 | The hashes at the multiples of the interval on the branch of the end block, on the best chain or off it; only for an indexed block known valid. |
| CfCheckpoints.IntervalAt | coin/OrcaNet/blockchain/chain.go:1648-1666 | There are height/interval of them, and the i-th is at (i+1)*interval. |
| CfCheckpoints.IntervalPrefix | coin/OrcaNet/blockchain/chain.go:1648-1666 | The list of an ancestor is a prefix of the list of the block. |
| CfCheckpoints.IntervalHashesOnOneBranch | coin/OrcaNet/blockchain/chain.go:1636-1669 | Such a list satisfies the assumption that the cache rests on: an entry determines all entries below it. |
| CfCheckpoints.CheckpointCache.Grow | coin/OrcaNet/server.go:1064-1077 | The cache grows by zero entries, in place if the array has room. |
| CfCheckpoints.CheckpointCache.FindFork | coin/OrcaNet/server.go:1091-1096 | The backward search finds the last place where cache and request agree. |
| CfCheckpoints.CachedPart | coin/OrcaNet/server.go:1091-1103 | One matching entry is enough: everything cached below it belongs to the requested branch and has the right header, in the database or not. |
| CfCheckpoints.CheckpointCache.FillFrom | coin/OrcaNet/server.go:1107-1145 | Fills answer and cache in place up to the first header that is missing. |
| CfCheckpoints.CheckpointCache.OnGetCFCheckpt | coin/OrcaNet/server.go:1006-1154 | With a database that has any part of the headers: a message is sent exactly if it has those above the part that cache and request share, and the message holds the header of each requested block in order. The cache stays consistent, whatever the database loses later; a failed call leaves it inconsistent exactly if it stopped below the end of the cached branch after overwriting in place. |
| CfCheckpoints.Serve | coin/OrcaNet/server.go:1006-1154 | Any history of requests on any branches, with any changes of the database between them: every message holds the headers of its blocks. A request fails only for a database error or a missing header; failures do no harm, up to the first that leaves the cache inconsistent. |
| CfCheckpoints.SentIffInDatabase | coin/OrcaNet/server.go:1087-1103 | A message is sent exactly if all headers are in the database, exactly if it has those below the shared part or lacks one above it. |
| CfCheckpoints.NothingToLookUp | coin/OrcaNet/server.go:1087-1103 | A request that is a start of the cached branch needs nothing from the database. |
| CfCheckpoints.AnswersAfterReorganization | coin/OrcaNet/server.go:1087-1103 | Any such request is answered, with the right headers, when the database has lost all headers of its blocks. |
| CfCheckpoints.AnswersWithEmptyDatabase | coin/OrcaNet/server.go:1087-1103 | A case: two blocks, answered from the cache with an empty database. |
| CfCheckpoints.LeavesMixture | coin/OrcaNet/server.go:1119-1145 | Any request for another branch that is longer than the cached one and fits in its array, fails and leaves the cache inconsistent if the database has its first header and not its second. |
| CfCheckpoints.MixtureOfTwoBranches | coin/OrcaNet/server.go:1119-1145 | A case, from an empty cache. |
| CfCheckpoints.ConsistentGrows | coin/OrcaNet/server.go:1039-1051 | More blocks and headers leave a cache consistent. |
| CfCheckpoints.AncestryGrows | coin/OrcaNet/blockchain/chain.go:1636-1669 | An index that grows keeps the interval hashes of its blocks. |
| CfCheckpoints.FullUpdate | coin/OrcaNet/server.go:1119-1151 | A completed update leaves the cache on the requested branch. |
| CfCheckpoints.PartialUpdate | coin/OrcaNet/server.go:1121-1145 | An interrupted update in place leaves a consistent cache exactly if it overwrote nothing or everything above the fork. |
| Orphans.RemoveAgrees | coin/OrcaNet/blockchain/chain.go:255-287 | Removing an orphan from both indexes keeps them describing the same set. |
| Orphans.AddAgrees | coin/OrcaNet/blockchain/chain.go:322-333 | So does adding one. |
| Orphans.OrphanPool.RemoveFrom | coin/OrcaNet/blockchain/chain.go:266-276 | The in-place removal loop takes out exactly the entries with the hash, and keeps the order. |
| Orphans.OrphanPool.RemoveOrphanBlock | coin/OrcaNet/blockchain/chain.go:255-287 | Removes the one orphan; each orphan stays once under its parent hash and no list is empty. |
| Orphans.OrphanPool.RemoveExpired | coin/OrcaNet/blockchain/chain.go:295-307 | Exactly the unexpired orphans stay, and the remembered oldest is not newer than any of them. |
| Orphans.OrphanPool.AddOrphanBlock | coin/OrcaNet/blockchain/chain.go:294-334 | With room, all unexpired orphans stay; without, the one taken for the oldest is dropped. The limit of 100 holds afterwards exactly if the pool had room, or was at most full and the remembered oldest was still pooled. |
| Orphans.OrphanPool.OutgrowsLimit | coin/OrcaNet/blockchain/chain.go:310-314 | A full pool whose oldest orphan is taken out grows to 101 with two more orphans. |
| Orphans.OrphanPool.GetOrphanRoot | coin/OrcaNet/blockchain/chain.go:231-251 | Terminates at the furthest pooled ancestor; a hash that is not pooled is its own root. |
| AddressBook.CountersSumToIndex | coin/OrcaNet/addrmgr/addrmanager.go:166-280 | nNew + nTried is the size of the index. |
| AddressBook.WithEntryInv | coin/OrcaNet/addrmgr/addrmanager.go:210-219 | A new address in no bucket is the only one the invariant does not cover yet. |
| AddressBook.InBucketInv | coin/OrcaNet/addrmgr/addrmanager.go:228-236 | Putting it into a bucket with a count of one more keeps, or restores, the invariant, with at most 65 in the bucket. |
| AddressBook.OutOfBucketInv | coin/OrcaNet/addrmgr/addrmanager.go:251-279 | Dropping an address from a bucket, and from the index with its last one, keeps the invariant. |
| AddressBook.LeavingInv | coin/OrcaNet/addrmgr/addrmanager.go:942-951 | Taking an address out of one more new bucket keeps the invariant of an address on the move. |
| AddressBook.PromotedInv | coin/OrcaNet/addrmgr/addrmanager.go:952-967 | Appending it to a tried list with room restores the invariant. |
| AddressBook.ReplacedInv | coin/OrcaNet/addrmgr/addrmanager.go:969-998 | Swapping it with an evicted address, which goes to a new bucket with room, restores the invariant. |
| AddressBook.NotTriedIsInBucket | coin/OrcaNet/addrmgr/addrmanager.go:194-209 | An address that is not tried has 1 to 8 references, so the argument of `Int31n` is positive and the branch for an address in no bucket is dead. |
| AddressBook.BucketsDisjoint | coin/OrcaNet/addrmgr/addrmanager.go:166-280 | No address is both in a new bucket and in a tried list. |
| AddressBook.OnlyBucket | coin/OrcaNet/addrmgr/addrmanager.go:253-259 | An address with one reference is in one new bucket and in no tried list. |
| AddressBook.BucketsDetermineBook | coin/OrcaNet/addrmgr/addrmanager.go:166-280 | Under the invariant the buckets determine everything else: which addresses are known, their counts and flags, and the counters. |
| AddressBook.Bounds | coin/OrcaNet/addrmgr/addrmanager.go:107-130 | 1024 new buckets of at most 65, 64 tried lists of at most 256, at most 8 references. |
| AddrManagers.AddrManager.constructor | coin/OrcaNet/addrmgr/addrmanager.go:708-720 | An empty manager satisfies the invariant. |
| AddrManagers.AddrManager.DropFromBucket | coin/OrcaNet/addrmgr/addrmanager.go:254-259 | One reference less, and out of the index with the last one; everything else is unchanged. |
| AddrManagers.AddrManager.ExpireNew | coin/OrcaNet/addrmgr/addrmanager.go:244-280 | Drops exactly the bad addresses and, of the others, one that was seen longest ago; at least one in all. |
| AddrManagers.AddrManager.UpdateAddress | coin/OrcaNet/addrmgr/addrmanager.go:166-240 | Keeps the structural invariant for every bucket, draw and set of bad addresses; states when the address is added, when its time and services change, that it then enters this bucket and no other bucket or list changes, which addresses of the bucket are dropped to make room, and when the bucket goes over its size. |
| AddrManagers.AddrManager.DrawsGetRarer | coin/OrcaNet/addrmgr/addrmanager.go:194-209 | A draw of zero admits a known address, and of as many draws in a row as it has twice references exactly one does. |
| AddrManagers.AddrManager.AddToBucket | coin/OrcaNet/addrmgr/addrmanager.go:228-236 | The bucket holds 65 addresses afterwards exactly if it held 64, or held 65 of which none is bad. |
| AddrManagers.HoldsOneTooMany | coin/OrcaNet/addrmgr/addrmanager.go:228-236 | Adding 65 addresses that hash to one bucket of a new manager fills it over its size. |
| AddrManagers.AddrManager.SizeLeft | coin/OrcaNet/addrmgr/addrmanager.go:244-280 | Making room takes exactly one address exactly if none in the bucket is bad. |
| AddrManagers.AddrManager.PickTried | coin/OrcaNet/addrmgr/addrmanager.go:285-297 | The first of the addresses of the list that were seen longest ago. |
| AddrManagers.AddrManager.LeaveNewBuckets | coin/OrcaNet/addrmgr/addrmanager.go:938-957 | The address leaves every new bucket, ends with no reference, and the first bucket is remembered. |
| AddrManagers.AddrManager.Promote | coin/OrcaNet/addrmgr/addrmanager.go:961-967 | The address is tried and the last of its list; the counters follow. |
| AddrManagers.AddrManager.Evict | coin/OrcaNet/addrmgr/addrmanager.go:969-998 | The address seen longest ago makes room and goes to its new bucket, or to the first one left if that is full, where there is room; that bucket holds 65 afterwards exactly if it is the one left and held 65 before the address left it. |
| AddrManagers.AddrManager.Good | coin/OrcaNet/addrmgr/addrmanager.go:913-999 | Keeps the invariant; an address not yet tried becomes tried, directly or in the place of an evicted one, and the rest of the book is unchanged. |
| AddrManagers.AddrManager.MovedBuckets | coin/OrcaNet/addrmgr/addrmanager.go:938-998 | In terms of the buckets: the address leaves every new bucket and is appended to the tried list, or takes the place of another one if that holds 256; that one goes to its new bucket if fewer than 64 are left in it, and else to the first bucket the address has left. |
| AddrManagers.AddrManager.SavePeers | coin/OrcaNet/addrmgr/addrmanager.go:363-405 | The file holds every address once and the contents of every bucket. |
| PeersFile.FillNew | coin/OrcaNet/addrmgr/addrmanager.go:506-520 | Loading one entry of a new bucket adds one to the places that its address counts. |
| PeersFile.SanityOfFilled | coin/OrcaNet/addrmgr/addrmanager.go:535-546 | The sanity checks succeed exactly if every address has places in new buckets or in tried lists, and not in both. |
| PeersFile.FillTried | coin/OrcaNet/addrmgr/addrmanager.go:521-533 | Loading one entry of a tried list flags its address. |
| PeersFile.LoadedIsValid | coin/OrcaNet/addrmgr/addrmanager.go:506-546 | A loaded book has the invariant exactly if the file is within the bounds that loading does not check: no bucket over 65 or list over 256, none with a repetition, no address in more than 8 buckets or twice tried. |
| PeersFile.HeldIsLoaded | coin/OrcaNet/addrmgr/addrmanager.go:506-533 | From a file that holds a book, that book is rebuilt. |
| PeersFile.AllKnown | coin/OrcaNet/addrmgr/addrmanager.go:506-533 | Nothing stops the loading of buckets exactly if they hold known addresses only. |
| AddrManagers.AddrManager.LoadAddresses | coin/OrcaNet/addrmgr/addrmanager.go:473-504 | The saved addresses are known again with no reference, each under the text of what it parses to, with services and history of the last one saved with such a text, and the services of a full node for version 1; fails exactly if one does not parse. |
| AddrManagers.AddrManager.SanityCheck | coin/OrcaNet/addrmgr/addrmanager.go:535-546 | Accepts exactly if no address is in no bucket, or new and tried. |
| AddrManagers.AddrManager.DeserializePeers | coin/OrcaNet/addrmgr/addrmanager.go:444-549 | Succeeds exactly if the file is not of a later version, all addresses parse, the buckets hold only addresses of the file, and each of these is in new buckets or in tried lists and not in both. Then addresses, services, history, contents of every bucket, counts, flags and counters are those of the file, and the invariant holds exactly if the file is within the bounds that are not checked. A file that holds a book restores it; after a failure the counters are those of the entries before the first unknown one. |
| AddrManagers.AddrManager.LoadPeers | coin/OrcaNet/addrmgr/addrmanager.go:425-442 | Reports success exactly for such a file. After a failed load the manager is empty and its counters are those of the entries loaded before; so its invariant holds exactly if the file was refused, has no bucket entries, or starts with an unknown one. |
| PeersFile.LoadsNothing | coin/OrcaNet/addrmgr/addrmanager.go:506-533 | Nothing is loaded exactly under that condition. |
| PeersFile.CountNewStep | coin/OrcaNet/addrmgr/addrmanager.go:514-518 | The counter of new addresses is the number of different addresses loaded so far. |
| AddrManagers.AddrManager.SaveAndLoad | coin/OrcaNet/addrmgr/addrmanager.go:363-549 | Saving and loading into a new manager restores keys, buckets, counts, flags and counters, and each address's source, services and history. |
| Peers.CountsWith | coin/OrcaNet/server.go:1766-1775 | Listing an outbound or persistent peer with one more in its group keeps all group counts exact. |
| Peers.CountsWithout | coin/OrcaNet/server.go:1844-1848 | Removing one with one less keeps them exact. |
| Peers.Server.Connect | coin/OrcaNet/peer/peer.go:1990-2012 | A new peer of the given kind and group gets the next number with its version message, or none; the peer set stays consistent. |
| Peers.Server.ReceiveVerAck | coin/OrcaNet/server.go:532-534 | The peer is queued to be added, once. |
| Peers.Server.ListsDisjoint | coin/OrcaNet/server.go:147-159 | In every reachable state no number is in two lists. |
| Peers.Server.OnlyInItsList | coin/OrcaNet/server.go:1822-1852 | A listed number belongs to the peer in that list, which is of its kind and has sent its version; so the guards of the done handler never miss a listed peer. |
| Peers.Server.HandleAddPeer | coin/OrcaNet/server.go:1715-1775 | Adds the peer to the list of its kind exactly if it is connected, not refused and the total is below the maximum; the counts stay exact and the total within the maximum. |
| Peers.Server.HandleDonePeer | coin/OrcaNet/server.go:1822-1852 | The peer is in no list afterwards, and never again; a peer that another command already removed is not counted down twice. |
| Peers.Server.RemoveNode | coin/OrcaNet/server.go:2038-2049 | Removes and disconnects one matching persistent peer, if there is one. |
| Peers.Server.GetOutboundGroup | coin/OrcaNet/server.go:2050-2056 | The answer is the number of outbound and persistent peers in the group. |
| Peers.Server.DisconnectNode | coin/OrcaNet/server.go:2065-2093 | Disconnects one matching inbound peer or, if there is none, all matching outbound ones; reports whether there was one. |
| Peers.Server.FindPeer | coin/OrcaNet/server.go:2104-2119 | Finds a matching peer exactly if the list has one. |
| Notifications.QueueHandler | coin/OrcaNet/rpcwebsocket.go:151-187 | For every order of inputs and reads: what came in is what went out followed by the queue, of the length that `HandlesAsQueue` is about; the handler ends at a closed input or the quit signal only. |
| Notifications.HandlesAsQueue | coin/OrcaNet/rpcwebsocket.go:151-187 | One more event does what it does to a queue: an input goes straight out exactly if nothing is queued and the reader is ready, and else to the end; a read takes the first element. |
| Notifications.TakesFromQueue | coin/OrcaNet/rpcwebsocket.go:151-187 | k reads in a row get the first k elements. |
| Notifications.DrainedHandler | coin/OrcaNet/rpcwebsocket.go:151-187 | After as many reads as there were inputs, everything has gone out in order and nothing is queued. |
| Notifications.StepKeepsOneAtATime | coin/OrcaNet/rpcwebsocket.go:1795-1920 | Every step of the handler, the writer and the senders leaves at most one notification outstanding, and one exactly while a connected handler waits. |
| Notifications.MovesOne | coin/OrcaNet/rpcwebsocket.go:1795-1920 | The effect of each step on the one notification that is on its way. |
| Notifications.StepKeepsInOrder | coin/OrcaNet/rpcwebsocket.go:1795-1920 | Every step keeps: received is written, dropped, on its way and pending, in this order. |
| Notifications.RunKeepsOrder | coin/OrcaNet/rpcwebsocket.go:1795-1920 | So does every interleaving. |
| Notifications.ReportsNeverBlock | coin/OrcaNet/rpcwebsocket.go:1883-1885 | In every reachable state whoever reports on the one-slot channel finds it empty, also during shutdown. |
| Notifications.PendingIsWokenUp | coin/OrcaNet/rpcwebsocket.go:1825-1839 | In every reachable state of a connected client, pending notifications wait for one that is outstanding. |
| Notifications.WrittenInOrder | coin/OrcaNet/rpcwebsocket.go:1795-1920 | In every reachable state the written notifications are a prefix of those received, and until the client is disconnected none is lost. |
| Notifications.StaysConnected | coin/OrcaNet/rpcwebsocket.go:1866-1900 | Without a failed write or a disconnection from outside, a client stays connected and nothing is dropped. |
| Notifications.CanFinish | coin/OrcaNet/rpcwebsocket.go:1795-1920 | From every state of a connected client the handler and the writer alone can go on until everything received has been written. |
| Notifications.NothingIsStuck | coin/OrcaNet/rpcwebsocket.go:1795-1920 | So in every run of a connected client no notification is stuck. |
| Notifications.ChannelsFit | coin/OrcaNet/rpcwebsocket.go:1795-1920 | The channels never hold more than 50 messages and one report. |
## Left out

- Pruning, optional indexes, flush policy, unknown-rule warnings and notifications in `connectBlock`: they do not change the chain selection.
- Difficulty bits, size and weight in the best state, and the heights in the database's block index.
- The internals of the unspent output cache and views, and the errors they return for missing inputs.
- `initChainState`, `UnsetStatusFlags`, `ProcessBlock`, `processOrphans` and manual invalidation of blocks.
- `locateHeaders` and `HeightRange`: one-branch variants of what is modelled.
- Transaction totals and counters are unbounded integers; heights and locator steps are bounded by int32 as in the code.
- Chain.BlockChain.MaybeAcceptBlock: the check of a block is one abstract function of the node and the unspent outputs, so rules that depend on other parts of the state are parameters.
- Chain.BlockChain.ConnectBlock: the check of the number of spent outputs (`chain.go:581-585`) has no counterpart, because what a block spends is abstract.
- Selection.RunIsSound: calls on one chain in sequence; a reader that looks at the chain while its lock is given up for a notification is not modelled.
- CfCheckpoints.CheckpointCache.OnGetCFCheckpt: one request at a time; requests that are answered from the cache under the read lock at the same time as others are not interleaved.
- `GetAddress` and its random walk, local addresses, `Attempt`, `Connected`, `SetServices`, and the bucket hash functions.
- Timestamps of addresses are set anew when a file is loaded, and are not part of the round trip; neither is the key for the bucket hashes, nor the source's services.
- Peers.Server.Connect: version and connection are one step; a peer without a version message has no number for good.
- Bans, user agents, relaying, broadcasting and connection requests of the peer handler.
- Notifications.QueueHandler: one goroutine with the events it meets as a sequence; the sequence of events is arbitrary.
- The handling of websocket requests, and rescans.
- Network address predicates, checkpoints, configuration, wallet, command line and JSON.
