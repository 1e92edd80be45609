# Wendy, the good little fairness widget: a Dafny model

Wendy orders transactions fairly: every validator votes for the transactions it
sees, in the order it sees them, and a transaction may only go into a block
together with everything that might have priority over it. This project models
the vote bookkeeping, the fairness engine, the gossip simulation and the
mempool of the repository, and proves what they promise about every input,
every run and every delivery order. `dafny verify dfyconfig.toml` checks all
of it.

## How the model is laid out

| module | models |
|---|---|
| `Types`, `FiniteSets` | transactions and votes; sizes of finite sets |
| `Buckets`, `Delivery`, `Replies`, `Preference`, `Peers` | `peer.go`: the vote list of one peer and label, `AddVote`, `Before`, `Seen`, `UpdateTxSet` |
| `PendingTxs` | `tx.go`: the insertion-ordered set with its hash index |
| `Quorums`, `Closure`, `Fairness`, `BlockFilling`, `Engine`, `History`, `Wendy` | `wendy.go`: quorums, the blocked-by graph and its closure, blocks, whole runs of the engine and what it keeps over them |
| `Gossip`, `Forwarding`, `Holdings`, `OwnLists`, `Quiescence`, `Disagreement`, `Termination`, `SimNodes` | `simulation/node.go`: flooding over an arbitrary directed topology |
| `Pools`, `Admission`, `Recency`, `CLists`, `Mempools`, `TxCache` | `tendermint/mempool/mempool.go`: the pool, its linked list, its recheck, its cache, and which transactions are let in |
| `PeerIds` | `tendermint/mempool/reactor.go`: the uint16 ID allocator |

Objects that the source updates in place are classes (`Peer`, `Txs`, `Wendy`,
`Deps`, `SimNode`, `CElement`, `CList`, `Mempool`, `MapTxCache`, `MempoolIDs`).
Each of their methods is proved equal to a step of a pure state machine, and
the theorems about runs are proved of that state machine. A `Mempool` holds
list elements with links both ways, a map from keys to elements and a cache
object, and stands for the abstract pool of `Pools`; a `SimNode` holds a
`Wendy` object, and a node of `Gossip` holds an `Engine.State`.

Main results:

- **The search.** `recompute` leaves exactly the reflexive-transitive closure, cycles through the start node included (`Closure.Recompute`, `Closure.Dependencies`).
- **Fairness over runs.** In every state of every orderly run of the engine a quorum's preference is respected by every dependency set, and an unlimited block takes the whole pending list (`Engine.EveryRunIsFair`). Orderly calls are exactly those that keep the invariant behind this (`Engine.StepKeepsInvIff`). Whether two transactions are always blocked one way or the other is decided exactly by the number of known peers and of those that have both committed (`Fairness.BlockedSomeWayIff`).
- **Monotony.** "IsBlockedBy MUST be monotone" (`wendy_test.go`) does not hold in general (`Engine.MonotonyFails` is a run). In every state of every run of the engine, and for every hash function, it holds exactly when a quorum of peers is settled on the order (`Engine.NotBlockedByForGoodIff`), and a single peer's report survives all later votes exactly when it is settled (`Preference.BeforeForGoodIff`): the reported transaction is committed, or the numbers of the last run of the list up to its vote are all held and no vote 0 is to come, or the other transaction's vote is where nothing is inserted any more. In a bucket that began with vote 0 that is: committed, or voted for with no gap below the vote (`Preference.SettledIffNoGap`). "Not blocked" is monotone always (`Engine.UnblockedForGood`), and over lists that are exact from vote 0 on it means what it promises: no transaction without votes can take priority any more (`Engine.NotBlockedIffNoneOvertakes`).
- **What the engine keeps.** In every run, votes before the first validator set and dropped validators included, a peer's votes are those received since it was last dropped, its committed transactions those of the blocks since then, and the pending list stands in the order of the additions (`History.VotesAreKept`, `History.CommittedIff`, `History.PendingInOrder`). After a new validator set a transaction is unblocked exactly when the backers that stay make the new quorum (`History.VerdictsAfterSet`).
- **Vote lists.** The answer to a vote and the new counter, told by the votes held, in every list a run can leave (`Replies.ReplyByLastRun`, `Replies.CounterAfter`). The shape of the list in every run (`Buckets.EveryRunFallingRuns`), when it is sorted (`Buckets.SortedIffFirstIsLowest`), when `lastSeqSeen` is right (`Delivery.CounterIsExact`), where its links are broken (`Delivery.BrokenWhereKept`), when the counted votes are one chain (`Delivery.CountedVotesAreChainedIff`), when a delivery is answered as promised (`Delivery.AnswersRightIff`), when `Seen` means what it says (`Preference.SeenExactIff`, `Preference.SeenExactInRunsIff`), and that the delivery order does not matter (`Delivery.DeliveryOrderIrrelevant`).
- **Blocks.** The exact block for all options and all blocker lists: it is a prefix of the pending list, and it takes in t transactions exactly when the byte limit covers what is charged on the way there (`BlockFilling.BlockReachesIff`).
- **Gossip.** To whom everything is passed on, and that no vote in flight is on its way to its author (`Forwarding.VoteIsPassedOn`, `Forwarding.NoVoteReturns`). No hash errors, reports that are arrival orders (`Quiescence.ReportsMatchArrival`), and termination with an explicit bound on the messages handled, although a vote can be accepted more than once (`Quiescence.NoHashErrors`, `Quiescence.TxsSpread`, `Termination.FloodingEnds`). When nothing is in flight on a strongly connected network, all nodes agree on who is blocked by whom (`Quiescence.SameBlockedBy`); two nodes count the same peers as having seen each transaction of a label exactly when their counters for it are the same (`Quiescence.SameSeenIff`), and `Disagreement.BlockedDiffers` is a run that ends with different ones. A node sees a transaction of its own exactly when its votes before that, vote 0 aside, have the same label (`OwnLists.SeesOwnIff`).
- **Mempool.** No panic in any orderly run, exact books, and a recheck that is an order-preserving filter (`Pools.EveryRunInv`, `Pools.RecheckFilters`); why `Update` has to wait for outstanding answers (`Pools.EarlyUpdatePanicsIff`), and which calls list a transaction twice, so that a commit leaves it behind (`Pools.StepKeepsOnceIff`). When a call is answered with each error (`Admission.VerdictIs`), that a call turned away leaves no trace (`Admission.TurnedLeavesNoTrace`), and for how long a transaction that was let in or committed is refused as known: from any reachable state and through rechecks, commits and removals, as long as nothing drops it and fewer than cacheSize distinct other ones come after it (`Recency.KnownIsRefused`), a bound that is exact in runs that drop nothing (`Recency.KnownIff`).

## Where the code and its documentation disagree

The model does what the code does.

- `wendy.go:298` ranges over positions, not over the sorted dependencies: the blocker list is always a prefix of the pending list. `Fairness.BlockerListsExactIff` says when that is the same, `Engine.LimitedBlockUnfair` shows a block that is not fair because of it, and `Fairness.PrefixFairIff` says when a block is.
- `peer.go:60-62` promises true "if the vote hasn't been added before". `peer.go:99-102` says "beginning of the list" and appends at the end, so the list can be unsorted (`Buckets.SortedIffFirstIsLowest`) and take the same vote twice (`Delivery.AcceptedTwice`). Over all deliveries of a chain that begin with vote d the promise holds exactly when d is 0 (`Delivery.AnswersRightIff`).
- `peer.go:90-96` stores a vote before it checks the next link and does not take it out again. The counter can then stay behind for good (`Delivery.StallExample`) or count a vote that was refused (`Delivery.BadLinkThenGapFilled`). `Delivery.CounterIsExact` and `Delivery.CountedVotesAreChainedIff` say exactly when.
- `peer.go:191` says a transaction is seen iff there is no gap before its vote. Over all deliveries of a chain that begin with vote d this holds exactly when d is 0 (`Preference.SeenExactIff`): with vote 1 first a transaction is seen despite a gap (`Preference.SeenDespiteGap`), with a later one first the counter is left behind (`Preference.CounterLeftBehind`). In runs that begin with vote 0 and vote once per transaction it holds exactly when no receipt stalls (`Preference.SeenExactInRunsIff`).
- `peer.go:145-147` says `Before` is false when a transaction is not seen. It looks for votes, seen or not; the sentence holds of a bucket exactly while it is empty (`Preference.BeforeNeedsSeenIff`).
- `wendy.go:64-76` and `wendy.go:161-163` speak of t+1 and 2t+1. With n = 3t+1 validators the code's `HonestParties` is 2t+1, `HonestMajority` is t, and `IsBlockedBy` needs 2t+1 reports (`Quorums.QuorumOfThirds`).
- `wendy.go:96-101` makes a peer of any key that votes, and `hasQuorum` counts it (`Fairness.BlockedSomeWayIff`).
- `wendy.go:206-212` describes `MaxBlockSize` as the sum of the block's bytes; `wendy.go:249-256` charges a transaction again for every list it appears in. `BlockFilling.BlockLengthIff` says exactly when the block is cut, `Engine.FittingBlockCut` a run in which a pending list that fits is cut.
- `simulation/node.go:87-95` numbers a node's votes across all labels, while `peer.go:48-55` keeps a list and a counter for each label: a transaction voted for after one of another label, vote 0 aside, is never seen at any node (`Holdings.NeverSeenAcrossLabels`; `OwnLists.ThirdIsUnseen` is a run). At the author's own node that is the exact condition (`OwnLists.SeesOwnIff`).

## Assumptions

- The hash of a vote is a field of the vote, so every result is about every hash function, without even injectivity. Where a result says that some votes or some run lead somewhere, it is stated for an arbitrary hash function and votes whose digests are its values, or for votes or handler steps with arbitrary digests. The timestamp, which the hash also covers, is the same in all votes of such a witness.
- `TxKey` is taken to be injective: a mempool transaction's bytes stand for its key.
- The quorum is the integer 2n/3 + 1, which is what the default `Quorum` gives for realistic n.
- Sequence numbers are unbounded naturals. `Delivery.CounterBelowVoteCount` shows that the uint64 counter could only wrap around in a bucket holding 2^64 - 1 votes. The link check adds one to a number that is below the other one, so it does not wrap.
- A bucket that was never used reads as an empty one, which makes the lazy creation in `Before` and `Seen` invisible.

## Model

| member | source | states |
|---|---|---|
| `Peers.Peer.AddVote` | peer.go:63-113 | the in-place method takes exactly the step `Receive`: position, both link checks, the kept vote on a failing next link, the counter, and the reply |
| `Peers.FindBackward` | peer.go:66-72 | the backward search finds the last vote that is no higher, or none |
| `Peers.CountOn` | peer.go:105-110 | the walk to the tail computes the counter |
| `Peers.Peer.UpdateTxSet` | peer.go:208-212 | the loop marks every transaction as committed under its own label |
| `Peers.CommittedAdds` | peer.go:208-212 | committing adds exactly the block's hashes of a label and touches no vote and no counter |
| `Buckets.ReceiveStores` | peer.go:75-103 | a receipt adds the vote exactly once or changes nothing at all; the head of the list never changes |
| `Buckets.EveryRunFallingRuns` | peer.go:70-103 | in every run, rejections included, the list is a concatenation of increasing runs with falling heads, the last head being the lowest vote |
| `Buckets.FallingRunsBound` | peer.go:70-103 | with n sequence numbers such a list has at most n(n+1)/2 entries, so a vote is accepted only boundedly often |
| `Buckets.SortedIffFirstIsLowest` | peer.go:99-103 | the list is sorted if and only if no vote lower than the first one ever came |
| `Delivery.CounterIsExact` | peer.go:86-110 | in every run beginning with vote 0, all of 0..lastSeqSeen are held, and lastSeqSeen is maximal if and only if the awaited vote never came, linked to the counted ones, before a held next vote that does not link to it |
| `Delivery.StallExample` | peer.go:90-97 | a vote that fails its next link is kept uncounted, and the counter stays put under every later run |
| `Delivery.BrokenWhereKept` | peer.go:83-97 | in every run at all, the link after a vote is broken if and only if that vote was stored although the next one did not link to it |
| `Delivery.CountedVotesAreChainedIff` | peer.go:83-110 | beginning with vote 0, the votes 0..lastSeqSeen are one hash-linked chain if and only if no vote below lastSeqSeen was stored with a failing next link |
| `Delivery.BadLinkThenGapFilled` | peer.go:90-110 | how that fails: with 0 and 3 held, vote 2 with a bad link to 3 is refused but kept, and vote 1 then moves the counter over both |
| `Delivery.CounterBelowVoteCount` | peer.go:105-110 | in every run the counter is at most the number of votes held |
| `Delivery.ChainNeverClashes` | peer.go:83-126 | votes of one hash-linked chain are never rejected, in any order and with any repetition |
| `Delivery.DeliveryReplies` | peer.go:60-63 | starting with vote 0, a delivery reports a new vote exactly the first time |
| `Delivery.AcceptedTwice` | peer.go:99-113 | a vote that came before vote 0 is accepted as new once more after it, and listed twice |
| `Delivery.AnswersRightIff` | peer.go:60-63 | all deliveries of a chain that begin with vote d report a new vote exactly the first time, if and only if d is 0 |
| `Delivery.Convergence` | peer.go:63-113 | starting with vote 0, any delivery order ends sorted with exactly the delivered votes and the counter at the first gap |
| `Delivery.DeliveryOrderIrrelevant` | peer.go:63-113 | two deliveries of the same votes beginning with vote 0 end in the same bucket |
| `Delivery.SortedIffZeroFirst` | peer.go:99-103 | if vote 0 is delivered at all, the list ends sorted if and only if it came first |
| `Replies.RefusedIffFailsPrevLink` | peer.go:83-88 | in any bucket a vote is refused without being kept if and only if the last vote no higher is the one before it and the link to it fails; nothing changes then |
| `Replies.ReplyByLastRun` | peer.go:63-103 | in every list a run can leave, the answer is told by the votes of the last run alone: already held, an error if the vote before is held and not linked to, an error and kept if a lower vote is held and the vote after does not link to it, else new |
| `Replies.ReplyBySortedList` | peer.go:63-103 | in a sorted list it is told in the same way by all votes held |
| `Replies.WrongLinkIsRefused` | peer_test.go:42-45 | vote 1 with a wrong link to vote 0 is answered with an error, and the list stays as it was |
| `Replies.WalkEnds` | peer.go:105-110 | on a sorted tail the walk stops only before a number that is not there |
| `Replies.CounterAfter` | peer.go:99-113 | in every list a run can leave, an added vote is placed behind the last one no higher, or at the end, and the counter goes on over exactly the numbers found from there without a gap; after any other answer it stays |
| `Preference.BeforeOneWay` | peer.go:145-188 | a peer reports two transactions both ways only if it has both committed |
| `Preference.BeforeTransitive` | peer.go:145-188 | a peer's reports are transitive, committed and unvoted transactions included |
| `Preference.BeforeTotal` | peer.go:145-188 | in a sorted list two transactions are ordered if and only if one of them is committed or voted for |
| `Preference.BeforeNeedsSeenIff` | peer.go:145-188 | a report implies that both transactions are seen if and only if the bucket has no votes and nothing committed |
| `Preference.SeenForGood` | peer.go:190-201 | Seen never reverts, in any bucket and under any later votes |
| `Preference.SettledForGood` | peer.go:99-188 | in any bucket, a settled report never reverts |
| `Preference.LateVoteOvertakes` | peer.go:66-103 | in any reachable list and with any hash function, a report that is not settled is turned around by one late vote of the peer |
| `Preference.BeforeForGoodIff` | peer.go:145-188 | in any reachable list and with any hash function, a report survives all votes the peer can cast later under the label if and only if it is settled |
| `Preference.SettledIffNoGap` | peer.go:145-201 | in a bucket begun with vote 0, stalled or not, settled means committed, or voted for with no gap below the vote |
| `Preference.SeenIsSettled` | peer.go:190-201 | in such a bucket a report of a transaction that is seen is settled |
| `Preference.BeforeForGoodInRunsIff` | peer.go:145-201 | hence in every run that begins with vote 0, and with any hash function, a report is monotone if and only if its transaction is voted for with no gap |
| `Preference.SeenExactInRunsIff` | peer.go:190-201 | in runs that begin with vote 0 and vote once per transaction, seen means voted for with no gap, for all transactions, if and only if no receipt stalled |
| `Preference.SeenExactIff` | peer.go:190-201 | in all deliveries of a chain that begin with vote d, seen means voted for with no gap, if and only if d is 0 |
| `Preference.CounterLeftBehind` | peer.go:99-110 | vote d before the votes 0..d-1: the list ends d, 0, .., d-1 with the counter at d-1 |
| `Preference.UnseenWithoutGap` | peer.go:190-201 | there the transaction of vote d has no gap before its vote and is not seen |
| `Preference.SeenDespiteGap` | peer.go:190-201 | beginning with vote 1, a transaction is seen although vote 0 is missing |
| `PendingTxs.Txs.Push` | tx.go:63-75 | appends unless the hash is known, and list and index keep agreeing |
| `PendingTxs.Txs.ByHash` | tx.go:82-90 | finds a transaction with the hash if and only if one is listed |
| `PendingTxs.Txs.RemoveByHash` | tx.go:92-117 | leaves the order-preserving filter, and the re-indexing loop keeps the index exact |
| `PendingTxs.MoveUp` | tx.go:105-108 | the re-indexing loop moves exactly the positions behind the removed one |
| `PendingTxs.PushedContains` | tx.go:63-75 | pushing keeps the list duplicate-free and adds exactly one hash |
| `PendingTxs.WithoutContains` | tx.go:92-117 | after a removal exactly the other hashes are left |
| `Quorums.QuorumOfThirds` | wendy.go:39-42 | the quorum is the least number above two thirds; of 3t+1 validators it is 2t+1, and t are left |
| `Quorums.HasQuorum` | wendy.go:142-159 | for every order of the map, true if and only if at least a quorum of peers agrees and the quorum is not 0 |
| `Quorums.QuorumsIntersect` | wendy.go:39-45 | any two quorums of n peers share at least floor((n-1)/3) + 1 of them |
| `Quorums.QuorumsShareHonestPeer` | wendy.go:64-76 | any two quorums share a peer outside any set of less than n/3 |
| `Closure.Recompute` | wendy.go:307-326 | terminates, adds only what the start reaches, and leaves every added node and the start with all successors in the set |
| `Closure.Dependencies` | wendy.go:289-290 | from an empty set the search yields exactly the reflexive-transitive closure |
| `Fairness.BlockedSomeWay` | wendy.go:161-169 | two transactions are blocked at least one way while the peers, those that have both committed counted twice, are fewer than two quorums |
| `Fairness.BlockedSomeWayIff` | wendy.go:94-101 | that holds for all votes of the known peers, with any hash function, if and only if they are that few |
| `Fairness.DepsFormChain` | wendy.go:275-290 | the dependency sets form a chain and one of them holds all pending transactions |
| `Fairness.DepsAreFair` | wendy.go:161-169 | a quorum reporting a before b puts a into every dependency set that has b |
| `Fairness.BlockerListsExactIff` | wendy.go:292-302 | the blocker lists name the dependencies if and only if every pending transaction is a dependency of every later one |
| `Fairness.PrefixFairIff` | wendy.go:224-227 | a prefix of the pending list has all dependencies of its members if and only if a quorum reports each member before each outsider |
| `BlockFilling.BlockWithinLimits` | wendy.go:240-258 | under any options the block is a duplicate-free prefix of the pending list within both limits |
| `BlockFilling.BlockReachesIff` | wendy.go:240-258 | for any options and lists, the block has at least t transactions, t up to the longest list and TxLimit, if and only if the byte limit is off or covers every list before the first one that long, charged in full, and then the t transactions |
| `BlockFilling.BlockLengthIff` | wendy.go:206-212 | hence exactly when the block is the longest list cut at TxLimit |
| `BlockFilling.ChargedTwice` | wendy.go:249-256 | a pending list that fits the byte limit is cut, because its first transaction is in two lists |
| `Wendy.FillFromList` | wendy.go:242-257 | the inner loop with its two breaks fills as `FillFrom` does |
| `Wendy.FillFromLists` | wendy.go:240-258 | the outer loop over the blocker lists fills as `FillAll` does |
| `Wendy.KeepPeers` | wendy.go:47-61 | known validators keep their peer object, new ones get their own |
| `Wendy.Wendy.UpdateValidatorSet` | wendy.go:36-62 | the whole new state: quorum, kept and new peers, dropped strangers |
| `Wendy.Wendy.AddTx` | wendy.go:78-85 | the whole new state, and whether the transaction was new |
| `Wendy.Wendy.AddVote` | wendy.go:87-111 | the whole new state, a new peer for an unknown key included, and the reply |
| `Wendy.Wendy.IsBlockedBy` | wendy.go:161-169 | true unless a quorum reports tx1 before tx2 |
| `Wendy.Wendy.IsBlocked` | wendy.go:171-178 | true unless a quorum has seen the transaction |
| `Wendy.Wendy.AddBlock` | wendy.go:180-195 | the whole new state: pending list filtered, block committed at every peer |
| `Wendy.Wendy.RemovePending` | wendy.go:186-188 | the loop of removals is one order-preserving filter |
| `Wendy.Wendy.CommitAtPeers` | wendy.go:190-194 | every peer, in whatever order, gets the block committed once |
| `Wendy.Wendy.BlockMatrix` | wendy.go:275-284 | the nested loops fill exactly the blocked-by relation |
| `Wendy.Wendy.BlockingSet` | wendy.go:271-305 | each pending transaction's list is the first pending ones, as many as it has dependencies |
| `Wendy.Wendy.NewBlockWithOptions` | wendy.go:228-262 | the block is the fill of those lists under the options |
| `Engine.UnblockedForGood` | wendy.go:171-178 | a transaction that is not blocked stays so under every run of votes |
| `Engine.SettledQuorumForGood` | wendy.go:161-169 | with a settled quorum, "not blocked by" stays under every run of votes |
| `Engine.NotBlockedByForGoodIff` | wendy_test.go:49-56 | in every state of every run and with any hash function, "not blocked by" is monotone under votes if and only if a quorum is settled on it |
| `Engine.MonotonyFails` | wendy_test.go:49-56 | a run in which it is not: the only validator's vote 1, for a, comes first, and its vote 0, for b, revokes "a is not blocked by b" |
| `Engine.NotBlockedIffNoneOvertakes` | wendy.go:171-178 | in every state of every run, if every known peer's list is empty or exact from vote 0 on: "not blocked" holds if and only if no transaction without votes can ever take priority |
| `Engine.StepKeepsInvIff` | wendy.go:36-195 | the orderly calls are exactly those that keep the invariant: pending transactions distinct and of one label, and for any two of them the peers, those that have both committed counted twice, fewer than two quorums |
| `Engine.ValidatorsAreOrderly` | wendy.go:36-62 | a new validator set is orderly whenever no peer has two pending transactions committed |
| `Engine.EveryRunKeepsInv` | wendy.go:36-195 | so it holds in every orderly run, strangers' votes, votes before the first validator set and transactions added again included |
| `Engine.EveryRunIsFair` | wendy.go:215-222 | hence in every state of every orderly run a quorum's preference is respected by every dependency set, the sets form a chain, and an unlimited block is the whole pending list |
| `Engine.LimitedBlockUnfair` | wendy.go:242-247 | an orderly run after which the block for TxLimit 1 holds b without a, though the only peer reports a before b |
| `Engine.FittingBlockCut` | wendy.go:249-256 | an orderly run after which the pending list fits MaxBlockSize and the block is only its first transaction |
| `Engine.CommittedGoFirst` | wendy.go:190-194 | after AddBlock every known peer reports the block's transactions before all others, so with a quorum of peers none of them is blocked |
| `Engine.PendingIff` | wendy.go:78-195 | in every state of every run, pending are exactly the transactions that were added and have not been in a block since |
| `Engine.BlockHoldsPending` | wendy.go:240-258 | no block, whatever its limits, holds a transaction that was in a block and not added since |
| `History.VotesAreKept` | wendy.go:36-62 | in every state of every run, a peer's votes and counter are what the votes received since the peer was last dropped leave in an empty bucket, so a validator set that keeps the peer, a block or another peer's vote changes none of them |
| `History.KnownIff` | wendy.go:94-101 | a peer is known if and only if a vote of its own or a validator set has named it since it was last dropped |
| `History.CommittedIff` | wendy.go:190-194 | a peer has a transaction committed if and only if a block held it under the label while the peer was known, since it was last dropped |
| `History.QuorumOfLastSet` | wendy.go:36-42 | in every run the quorum is that of the last validator set |
| `History.BlockedBeforeFirstSet` | wendy.go:142-159 | before the first validator set everything is blocked, whoever votes |
| `History.BackersAfterSet` | wendy.go:49-61 | after a new validator set, the peers that have seen a transaction, report it before another, or are settled on that, are those of the ones before that are in the set |
| `History.VerdictsAfterSet` | wendy.go:36-62 | hence both verdicts after a new set: not blocked if and only if the backers that stay make the new quorum |
| `History.BackersAfterBlock` | wendy.go:190-194 | a block changes neither who has seen a transaction nor any report on two transactions outside it |
| `History.WithoutPrecedes` | tx.go:92-117 | taking transactions out of the list leaves the others in their order |
| `History.PendingInOrder` | wendy.go:78-195 | in every state of every run each pending transaction is the one added when none with its hash was pending, and they stand in the order of these additions |
| `SimNodes.SimNode.NextVote` | simulation/node.go:87-95 | the vote carries the next number and the last vote's hash |
| `SimNodes.SimNode.SendToPeers` | simulation/node.go:116-123 | the loop sends to every peer not skipped |
| `SimNodes.SimNode.HandleTx` | simulation/node.go:109-126 | the node's engine object, counter and last vote, and the messages sent, are those of the protocol step |
| `SimNodes.SimNode.HandleVote` | simulation/node.go:128-148 | the node's engine object, messages sent and error are those of the protocol step |
| `Gossip.EveryRunInv` | simulation/node.go:109-148 | in every run, labels included, each node has cast one hash-linked vote per known transaction and holds them all, all held votes were cast by their author under that label, and what a node holds each peer of it holds or will receive |
| `Forwarding.VoteIsPassedOn` | simulation/node.go:128-148 | a vote that is new goes once over each link to a peer that is neither the sender nor the author; any other vote goes nowhere |
| `Forwarding.TxIsPassedOn` | simulation/node.go:109-126 | a transaction that is new goes to every peer but the sender, and the node's own vote for it to every peer; a known one goes nowhere |
| `Forwarding.NoVoteReturns` | simulation/node.go:138-146 | in every run no vote in flight is on its way to its author |
| `Forwarding.NothingReturns` | simulation/node.go:116-146 | in every run, handling a message sends nothing it carried back to the node it came from |
| `Holdings.EveryRunListsOk` | peer.go:63-113 | in every run every list of every node is a concatenation of falling runs, has all numbers 1..lastSeqSeen, and is exact if it began with vote 0 |
| `Holdings.NeverSeenAcrossLabels` | simulation/node.go:87-95 | a transaction an author voted for after one with another label, vote 0 aside, is never seen at any node in any run |
| `OwnLists.SeesOwnIff` | simulation/node.go:87-95 | in every run a node sees a transaction it voted for if and only if its votes before that, vote 0 aside, have the same label |
| `OwnLists.ThirdIsUnseen` | simulation/node.go:97-126 | a run of three transactions, the last of another label, after which the node sees the second and not the last |
| `Quiescence.NoHashErrors` | simulation/node.go:128-132 | in every reachable state every message in flight is handled without a hash error |
| `Quiescence.OwnVotesAccepted` | simulation/node.go:124-125 | in every reachable state a node accepts its own next vote as new |
| `Quiescence.VotesSpread` | simulation/node.go:138-146 | when nothing is in flight, every node reachable from an author holds all its votes under their labels |
| `Quiescence.SameVotesEverywhere` | simulation/node.go:138-146 | on a strongly connected network every node then holds exactly the votes cast |
| `Quiescence.SameBlockedBy` | wendy.go:161-169 | all nodes then give the same verdict on every "tx1 is blocked by tx2", whatever order the votes came in |
| `Quiescence.SameSeenIff` | peer.go:57-58 | on such a network two nodes count the same peers as having seen each transaction of a label if and only if their counters for the label are the same |
| `Quiescence.SameBlockedFromZero` | wendy.go:171-178 | so they give the same verdicts on "tx is blocked" if vote 0 came first at both, for every author with votes of the label |
| `Disagreement.BlockedDiffers` | wendy.go:171-178 | whatever digests the votes have, a run of two connected nodes and three transactions that ends with nothing in flight and only one of them finding the last transaction blocked |
| `Quiescence.VotesOncePerTx` | simulation/node.go:109-126 | a node has voted exactly once for each transaction it knows and for no other |
| `Quiescence.TxsSpread` | simulation/node.go:97-126 | when nothing is in flight, every node reachable from where a transaction was injected holds it and voted for it once |
| `Quiescence.ReportsMatchArrival` | simulation/node.go:109-148 | when nothing is in flight, what any node reachable from a reports of a's order, within one label, is the order in which a received the transactions |
| `Termination.MeasureFalls` | simulation/node.go:109-148 | each delivery lowers a measure that no step raises |
| `Termination.FloodingEnds` | simulation/node.go:109-148 | any run into which t transactions of k labels are injected handles at most (links + nodes)(t + nodes k t(t+1)/2) messages |
| `TxCache.MapTxCache.Push` | tendermint/mempool/mempool.go:722-746 | moves to the back, or evicts the front of a full list and appends; map and list keep agreeing within the size |
| `TxCache.MapTxCache.Remove` | tendermint/mempool/mempool.go:748-759 | takes out exactly the key; map and list keep agreeing |
| `TxCache.MapTxCache.Reset` | tendermint/mempool/mempool.go:714-720 | empties both |
| `TxCache.CacheIsRecency` | tendermint/mempool/mempool.go:722-746 | with pushes only, the cache is the tail of all pushed keys ordered by last push |
| `TxCache.CachedIff` | tendermint/mempool/mempool.go:694-746 | with pushes only, a key is cached if and only if it was pushed and fewer than `size` distinct others came after its last push |
| `Mempools.Mempool.CheckTx` | tendermint/mempool/mempool.go:244-302 | verdict, cache and request are those of the model, error by error |
| `CLists.CList.PushBack` | tendermint/mempool/mempool.go:361-361 | a new element becomes the tail, and all links keep following the list |
| `CLists.CList.Unlink` | tendermint/mempool/mempool.go:371-372 | head, tail and the neighbours' links skip the element, which keeps its own next link |
| `Mempools.Mempool.AddTx` | tendermint/mempool/mempool.go:360-365 | a new element at the tail, its key and its bytes make the abstract pool with one more element |
| `Mempools.Mempool.RemoveTx` | tendermint/mempool/mempool.go:370-379 | unlinking the element, its key and its bytes makes the abstract pool without it, every key still leads to a live element, and the element still leads to its successor |
| `Mempools.Mempool.RemoveTxByKey` | tendermint/mempool/mempool.go:381-389 | unlinks the element the key leads to, if any |
| `Mempools.Mempool.Clear` | tendermint/mempool/mempool.go:209-212 | the walk that unlinks every element on its way, going on from elements already taken out, leaves an empty list |
| `Mempools.Mempool.Flush` | tendermint/mempool/mempool.go:202-218 | list, key map, byte count and cache end up empty |
| `Mempools.Mempool.NotifyTxsAvailable` | tendermint/mempool/mempool.go:519-531 | panics exactly on an empty list, else notifies once |
| `Mempools.Mempool.ResCbFirstTime` | tendermint/mempool/mempool.go:411-466 | a good transaction is listed unless the pool became full, a bad one leaves the cache unless configured to stay |
| `Mempools.Mempool.JudgeAndMove` | tendermint/mempool/mempool.go:489-501 | the element under the cursor is unlinked unless good, and following its own link moves the cursor to its successor in the list |
| `Mempools.Mempool.ResCbRecheck` | tendermint/mempool/mempool.go:472-512 | panics on another transaction's answer, else judges the element and moves the cursor, which stays on listed elements |
| `Mempools.Mempool.OnAnswer` | tendermint/mempool/mempool.go:313-356 | the global callback runs before the request's own, which panics during a recheck |
| `Mempools.Mempool.CommitTxs` | tendermint/mempool/mempool.go:603-625 | the loop over the committed block |
| `Mempools.Mempool.SendAll` | tendermint/mempool/mempool.go:657-663 | the walk along the links requests every listed transaction in order |
| `Mempools.Mempool.RecheckTxs` | tendermint/mempool/mempool.go:647-666 | panics on an empty list, else cursor and end are set to front and back |
| `Mempools.Mempool.Update` | tendermint/mempool/mempool.go:585-645 | commits, then rechecks or notifies if anything is left |
| `Pools.RemoveKeepsBooks` | tendermint/mempool/mempool.go:367-379 | removing an element keeps the books exact even if the key is listed twice |
| `Pools.FirstAnswer` | tendermint/mempool/mempool.go:411-466 | outside a recheck the next answer appends its transaction if and only if it is good and there is still room, and never panics |
| `Pools.CommitClearsIff` | tendermint/mempool/mempool.go:622-624 | a committed transaction is gone from the list if and only if no listed copy of it is missing from the index |
| `Pools.TwiceWithoutCache` | tendermint/mempool/mempool.go:244-302 | without a cache two calls before the first answer list a transaction twice, and committing it leaves it listed |
| `Pools.TwiceWithSmallCache` | tendermint/mempool/mempool.go:244-302 | with a cache of one entry a call for another transaction in between is enough |
| `Pools.StepKeepsOnceIff` | tendermint/mempool/mempool.go:244-302 | in orderly runs, with nothing listed or awaited twice, a step changes that if and only if it is a CheckTx for a transaction listed or awaited already, with room in the pool, not too large, not refused and not cached |
| `Pools.EveryRunOnceOnly` | tendermint/mempool/mempool.go:622-624 | in every orderly run without such a call, every commit clears its transaction from the list |
| `Pools.RecheckAnswer` | tendermint/mempool/mempool.go:472-512 | one recheck answer: the element stays or goes, the cursor moves to its successor, and the queue still matches |
| `Pools.EveryRunInv` | tendermint/mempool/mempool.go:341-344 | in every orderly run no panic is reached, bytes are the sum of the listed sizes, the index points to live elements of the same key, and list and bytes are within limits |
| `Pools.RecheckFilters` | tendermint/mempool/mempool.go:627-639 | after one answer per listed transaction, with CheckTx calls in between, the cursor is gone and the list is the order-preserving filter of the good ones |
| `Pools.EarlyUpdatePanicsIff` | tendermint/mempool/mempool.go:304-356 | if Update starts a recheck before outstanding answers are in, the next one panics unless the pool holds just that transaction |
| `Pools.EarlyUpdatePanics` | tendermint/mempool/mempool.go:304-356 | an orderly run of two calls and one answer after which an update and the next answer panic |
| `Admission.VerdictIs` | tendermint/mempool/mempool.go:244-302 | each answer to a call if and only if: no room in number or bytes listed; else too large; else a failing check; else known to the cache; else accepted |
| `Admission.TurnedLeavesNoTrace` | tendermint/mempool/mempool.go:265-268 | a call answered with one of the first three errors changes nothing, so every later call is answered as if it had not been made |
| `Admission.LetInIsRemembered` | tendermint/mempool/mempool.go:284-296 | after any other call the same call is answered as known to the cache, or accepted again if there is no cache |
| `Admission.PushRemembers` | tendermint/mempool/mempool.go:722-746 | a push remembers its key and forgets at most the oldest one of a full cache, and that only for a new key |
| `Admission.CommitRemembers` | tendermint/mempool/mempool.go:603-610 | a commit of a valid transaction remembers it and forgets at most the oldest one; an invalid one is forgotten unless kept, and nothing else changes |
| `Admission.CommittedIsRefused` | tendermint/mempool/mempool.go:603-610 | after an update a call for its transaction is answered as known if and only if it was valid, or invalid ones are kept and it was cached; otherwise it is accepted |
| `Admission.FirstAnswerRemembers` | tendermint/mempool/mempool.go:411-466 | a first answer takes its transaction out of the cache if and only if it is good without room, or bad with invalid ones not kept; nothing else leaves the cache |
| `Admission.RecheckRemembers` | tendermint/mempool/mempool.go:489-501 | a recheck answer takes its transaction out of the cache if and only if it is bad and invalid ones are not kept |
| `Admission.RejectedCanComeAgain` | tendermint/mempool/mempool.go:457-463 | a transaction rejected on its first answer is accepted when sent again, unless invalid ones are kept and it is cached |
| `Admission.FlushEmpties` | tendermint/mempool/mempool.go:202-218 | after Flush any call with room in an empty pool that is small enough is accepted |
| `Admission.RemoveByKeyTakesOne` | tendermint/mempool/mempool.go:381-389 | exactly the element the key leads to is taken out, with the key, and from the cache if told to |
| `Admission.FlagIff` | tendermint/mempool/mempool.go:519-531 | in every orderly step the notification flag is set if and only if it was, or a transaction was listed, or a recheck ended with something left; an update re-arms it and sets it again at once only if something is left and nothing is rechecked |
| `Admission.EveryRunFlagRight` | tendermint/mempool/mempool.go:627-639 | in every orderly run, if notifications are on, transactions that are listed and not being rechecked have been announced |
| `Recency.PushKeepsRecent` | tendermint/mempool/mempool.go:722-746 | whatever was dropped before, a push leaves every key at least as recent as the distinct keys pushed after it make it |
| `Recency.RunKeepsRecent` | tendermint/mempool/mempool.go:244-645 | so does every orderly run from any reachable state that does not drop the key |
| `Recency.KnownIsRefused` | tendermint/mempool/mempool.go:284-296 | hence a transaction let in by a call or committed as valid, and not dropped, is refused as known while fewer than cacheSize distinct other ones were pushed after its last push |
| `Recency.KnownIff` | tendermint/mempool/mempool.go:284-296 | in orderly runs from the start that drop nothing it is refused if and only if it was pushed and fewer than that came after |
| `PeerIds.MempoolIDs.constructor` | tendermint/mempool/reactor.go:96-102 | ID 0 is active and nobody's, counting starts at 1 |
| `PeerIds.MempoolIDs.NextPeerID` | tendermint/mempool/reactor.go:59-74 | terminates despite wraparound with the first free ID in cyclic order, or reports that all are in use |
| `PeerIds.MempoolIDs.ReserveForPeer` | tendermint/mempool/reactor.go:48-57 | the peer gets an ID that was not active; 0 stays active and unassigned, assigned IDs are active and distinct |
| `PeerIds.MempoolIDs.Reclaim` | tendermint/mempool/reactor.go:76-86 | frees exactly the peer's ID |
| `PeerIds.MempoolIDs.GetForPeer` | tendermint/mempool/reactor.go:88-94 | 0 if and only if the peer has no ID |
| `PeerIds.ReserveLeaksIff` | tendermint/mempool/reactor.go:48-57 | reserving leaves an ID active that is nobody's if and only if the peer already had one |

## Left out

- SHA-256, Ed25519, hex and protobuf encoding, timestamps and signature checks.
- Mutexes, goroutines and atomics: every call and every handler is one step. The `AddBlock` option of `NewBlockWithOptions` would take a lock it already holds; `AddBlock` is a step of its own here.
- `CommitBlock`, `AddVotes`, `VoteByTxHash`, `HonestParties` and `HonestMajority`: they would only add easy members.
- Validator sets and blocks in the simulation: a simulated node's engine only takes transactions and votes, and its verdicts are stated for any quorum.
- Mempools.Mempool.RemoveTx: only for an element that is still listed; what the concurrent list, which is not in the repository, does with an element removed twice is not part of this model.
- Mempools.Mempool.JudgeAndMove: only while the cursor is on a listed element; `Flush` or `RemoveTxByKey` during a recheck can leave it on one that was taken out.
- Mempools.Mempool.ResCbRecheck: likewise.
- Mempools.Mempool.OnAnswer: likewise.
- Engine.EveryRunIsFair: orderly runs are those of `Engine.StepKeepsInvIff`; pending transactions share a label, since `Before` panics on mixed labels.
- Recency.KnownIsRefused: one direction only, since dropping another transaction makes room and can keep this one known for longer; `Recency.KnownIff` is exact where nothing is dropped.
- Pools.EveryRunInv: orderly runs are those where `Update` waits for all answers and `Flush` and `RemoveTxByKey` stay out of a recheck.
- Senders, gas, heights, pre- and post-check functions, the log, metrics and the notification channel of the mempool; the outcome of a check is an input.
- `ReapMaxTxs` and `ReapMaxBytesMaxGas`: simple prefix loops.
- The list helpers of `utils/list` beyond the searches used, string formatting, `tendermint/node`, `tendermint/main.go`, `tendermint/app`, `tendermint/wendy/reactor.go` and the peer-to-peer parts of `tendermint/mempool/reactor.go`.
