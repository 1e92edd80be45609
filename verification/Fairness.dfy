/**
 Which pending transactions block which, what follows for the dependency sets,
 and in which runs of the engine block-order fairness holds.
 */
module Fairness {
  import opened Types
  import opened FiniteSets
  import opened Buckets
  import opened Preference
  import opened Peers
  import opened Quorums
  import opened Closure

  type Views = map<ID, View>

  /** The peers that report tx1 before tx2. */
  function BeforeBackers(peers: Views, tx1: Tx, tx2: Tx): set<ID>
    requires tx1.lbl == tx2.lbl
  {
    set id | id in peers && Prefers(peers[id], tx1, tx2)
  }

  function SeenBackers(peers: Views, tx: Tx): set<ID> {
    set id | id in peers && HasSeen(peers[id], tx)
  }

  /** tx2 might still have priority over tx1. */
  predicate BlockedBy(peers: Views, quorum: nat, tx1: Tx, tx2: Tx)
    requires tx1.lbl == tx2.lbl
  {
    !Enough(BeforeBackers(peers, tx1, tx2), quorum)
  }

  /** A transaction not known yet might still have priority over tx. */
  predicate Blocked(peers: Views, quorum: nat, tx: Tx) {
    !Enough(SeenBackers(peers, tx), quorum)
  }

  // ---------- any two transactions are blocked some way ----------

  predicate CommittedAt(view: View, tx: Tx) {
    tx.hash in At(view, tx.lbl).committed
  }

  /** The peers that have both transactions committed: they report them both ways. */
  function BothCommitted(peers: Views, tx1: Tx, tx2: Tx): set<ID> {
    set id | id in peers && CommittedAt(peers[id], tx1) && CommittedAt(peers[id], tx2)
  }

  /** n peers, c of which report both ways, cannot make a quorum each way. */
  predicate TooFew(n: nat, c: nat, quorum: nat) {
    quorum == 0 || n + c < 2 * quorum
  }

  predicate Undecided(peers: Views, quorum: nat, tx1: Tx, tx2: Tx) {
    TooFew(|peers|, |BothCommitted(peers, tx1, tx2)|, quorum)
  }

  lemma BlockedSomeWay(peers: Views, quorum: nat, tx1: Tx, tx2: Tx)
    requires tx1.lbl == tx2.lbl && Undecided(peers, quorum, tx1, tx2)
    ensures BlockedBy(peers, quorum, tx1, tx2) || BlockedBy(peers, quorum, tx2, tx1)
  {
    var a, b := BeforeBackers(peers, tx1, tx2), BeforeBackers(peers, tx2, tx1);
    forall id | id in a * b ensures id in BothCommitted(peers, tx1, tx2) {
      BeforeOneWay(At(peers[id], tx1.lbl), tx1.hash, tx2.hash);
    }
    SubsetCount(a * b, BothCommitted(peers, tx1, tx2));
    Overlap(a, b, peers.Keys);
    assert |peers| == |peers.Keys|;
  }

  /** A peer's first vote is for tx. */
  function VotedFor(id: ID, tx: Tx, hash: Vote -> Hash): View {
    map[tx.lbl := Bucket([MakeVote(hash, id, tx.lbl, 0, tx.hash, 0)], 0, {})]
  }

  function Committed(tx1: Tx, tx2: Tx): View {
    map[tx1.lbl := Bucket([], 0, {tx1.hash, tx2.hash})]
  }

  /** Every vote held was cast by the peer, with this hash function. */
  ghost predicate HashedViews(peers: Views, hash: Vote -> Hash) {
    forall id, l :: id in peers ==> CastBy(id, l, hash, At(peers[id], l).votes)
  }

  /** The peers in `both` have both committed; of the others, those in `first` voted for tx1 only, the rest for tx2 only. */
  function SplitViews(ids: set<ID>, both: set<ID>, first: set<ID>, tx1: Tx, tx2: Tx, hash: Vote -> Hash): Views {
    map id | id in ids ::
      if id in both then Committed(tx1, tx2)
      else if id in first then VotedFor(id, tx1, hash)
      else VotedFor(id, tx2, hash)
  }

  lemma VotedForPrefers(id: ID, tx1: Tx, tx2: Tx, hash: Vote -> Hash)
    requires tx1.lbl == tx2.lbl && tx1.hash != tx2.hash
    ensures Prefers(VotedFor(id, tx1, hash), tx1, tx2) && !Prefers(VotedFor(id, tx1, hash), tx2, tx1)
    ensures !CommittedAt(VotedFor(id, tx1, hash), tx1) && !CommittedAt(VotedFor(id, tx1, hash), tx2)
  {
    BeforeOneWay(At(VotedFor(id, tx1, hash), tx1.lbl), tx1.hash, tx2.hash);
  }

  lemma {:induction false} PickSome(all: set<ID>, k: nat) returns (some: set<ID>)
    requires k <= |all|
    ensures some <= all && |some| == k
  {
    if k == 0 {
      some := {};
    } else {
      var x :| x in all;
      var rest := PickSome(all - {x}, k - 1);
      some := rest + {x};
    }
  }

  lemma SplitUnblocks(ids: set<ID>, both: set<ID>, quorum: nat, tx1: Tx, tx2: Tx, hash: Vote -> Hash)
    returns (peers: Views)
    requires tx1.lbl == tx2.lbl && tx1.hash != tx2.hash && both <= ids
    requires !TooFew(|ids|, |both|, quorum)
    ensures peers.Keys == ids && BothCommitted(peers, tx1, tx2) == both && HashedViews(peers, hash)
    ensures !BlockedBy(peers, quorum, tx1, tx2) && !BlockedBy(peers, quorum, tx2, tx1)
  {
    SubsetCount(both, ids);
    var others := ids - both;
    assert |others| == |ids| - |both|;
    var first := PickSome(others, if quorum > |both| then quorum - |both| else 0);
    peers := SplitViews(ids, both, first, tx1, tx2, hash);
    SplitIsHashed(ids, both, first, tx1, tx2, hash);
    SplitBackers(ids, both, first, tx1, tx2, hash);
    SplitSizes(both, others, first);
  }

  lemma SplitSizes(both: set<ID>, others: set<ID>, first: set<ID>)
    requires both !! others && first <= others
    ensures |both + first| == |both| + |first|
    ensures |both + (others - first)| == |both| + |others| - |first|
  {
    assert others == first + (others - first);
  }

  lemma SplitBackers(ids: set<ID>, both: set<ID>, first: set<ID>, tx1: Tx, tx2: Tx, hash: Vote -> Hash)
    requires tx1.lbl == tx2.lbl && tx1.hash != tx2.hash && both <= ids && first <= ids - both
    ensures var peers := SplitViews(ids, both, first, tx1, tx2, hash);
            && peers.Keys == ids && BothCommitted(peers, tx1, tx2) == both
            && BeforeBackers(peers, tx1, tx2) == both + first
            && BeforeBackers(peers, tx2, tx1) == both + (ids - both - first)
  {
    var peers := SplitViews(ids, both, first, tx1, tx2, hash);
    forall id | id in ids
      ensures Prefers(peers[id], tx1, tx2) <==> id in both + first
      ensures Prefers(peers[id], tx2, tx1) <==> id in both + (ids - both - first)
      ensures CommittedAt(peers[id], tx1) && CommittedAt(peers[id], tx2) <==> id in both
    {
      VotedForPrefers(id, tx1, tx2, hash);
      VotedForPrefers(id, tx2, tx1, hash);
    }
  }

  lemma SplitIsHashed(ids: set<ID>, both: set<ID>, first: set<ID>, tx1: Tx, tx2: Tx, hash: Vote -> Hash)
    ensures HashedViews(SplitViews(ids, both, first, tx1, tx2, hash), hash)
  {
  }

  ghost predicate AlwaysBlockedSomeWay(ids: set<ID>, both: set<ID>, quorum: nat, tx1: Tx, tx2: Tx, hash: Vote -> Hash)
    requires tx1.lbl == tx2.lbl
  {
    forall peers: Views :: peers.Keys == ids && BothCommitted(peers, tx1, tx2) == both && HashedViews(peers, hash) ==>
      BlockedBy(peers, quorum, tx1, tx2) || BlockedBy(peers, quorum, tx2, tx1)
  }

  /**
   Whatever the known peers voted, two transactions are blocked at least one
   way: true exactly while the known peers, those that have both committed
   counted twice, are fewer than two quorums. A stranger's vote adds a peer
   without raising the quorum.
   */
  lemma BlockedSomeWayIff(ids: set<ID>, both: set<ID>, quorum: nat, tx1: Tx, tx2: Tx, hash: Vote -> Hash)
    requires tx1.lbl == tx2.lbl && tx1.hash != tx2.hash && both <= ids
    ensures AlwaysBlockedSomeWay(ids, both, quorum, tx1, tx2, hash) <==> TooFew(|ids|, |both|, quorum)
  {
    if TooFew(|ids|, |both|, quorum) {
      forall peers: Views | peers.Keys == ids && BothCommitted(peers, tx1, tx2) == both
        ensures BlockedBy(peers, quorum, tx1, tx2) || BlockedBy(peers, quorum, tx2, tx1)
      {
        assert |peers| == |peers.Keys|;
        BlockedSomeWay(peers, quorum, tx1, tx2);
      }
    } else {
      var peers := SplitUnblocks(ids, both, quorum, tx1, tx2, hash);
    }
  }

  // ---------- dependency sets of the pending transactions ----------

  predicate OneLabel(txs: seq<Tx>) {
    forall i, j :: 0 <= i < |txs| && 0 <= j < |txs| ==> txs[i].lbl == txs[j].lbl
  }

  function BlockEdges(peers: Views, quorum: nat, txs: seq<Tx>): Edges
    requires OneLabel(txs)
  {
    set i: nat, j: nat | i < |txs| && j < |txs| && BlockedBy(peers, quorum, txs[i], txs[j]) :: (i, j)
  }

  ghost function DepsOf(peers: Views, quorum: nat, txs: seq<Tx>, i: nat): set<nat>
    requires OneLabel(txs)
  {
    Reachable(|txs|, BlockEdges(peers, quorum, txs), i)
  }

  /** Any two nodes below n have an edge at least one way. */
  ghost predicate Total(n: nat, e: Edges) {
    forall i: nat, j: nat :: i < n && j < n && i != j ==> (i, j) in e || (j, i) in e
  }

  /** What the theorems below need: too few peers to unblock any two pending transactions both ways. */
  predicate Fit(peers: Views, quorum: nat, txs: seq<Tx>) {
    && OneLabel(txs)
    && (forall i, j :: 0 <= i < j < |txs| ==> Undecided(peers, quorum, txs[i], txs[j]))
  }

  lemma PendingTotal(peers: Views, quorum: nat, txs: seq<Tx>)
    requires Fit(peers, quorum, txs)
    ensures Total(|txs|, BlockEdges(peers, quorum, txs))
  {
    forall i: nat, j: nat | i < |txs| && j < |txs| && i != j
      ensures BlockedBy(peers, quorum, txs[i], txs[j]) || BlockedBy(peers, quorum, txs[j], txs[i])
    {
      if i < j {
        BlockedSomeWay(peers, quorum, txs[i], txs[j]);
      } else {
        BlockedSomeWay(peers, quorum, txs[j], txs[i]);
      }
    }
  }

  lemma ReachableInherits(n: nat, e: Edges, i: nat, j: nat)
    requires Reaches(e, i, j)
    ensures Reachable(n, e, j) <= Reachable(n, e, i)
  {
    forall b | b in Reachable(n, e, j) ensures b in Reachable(n, e, i) {
      ReachesThrough(e, i, j, b);
    }
  }

  lemma ReachableChain(n: nat, e: Edges, i: nat, j: nat)
    requires Total(n, e) && i < n && j < n
    ensures Reachable(n, e, i) <= Reachable(n, e, j) || Reachable(n, e, j) <= Reachable(n, e, i)
  {
    if (i, j) in e {
      ReachesByEdge(e, i, j);
      ReachableInherits(n, e, i, j);
    } else if i != j {
      ReachesByEdge(e, j, i);
      ReachableInherits(n, e, j, i);
    }
  }

  /** In a total graph some node reaches the first k nodes, for every k. */
  lemma {:induction false} SomeoneReachesAll(n: nat, e: Edges, k: nat) returns (top: nat)
    requires Total(n, e) && 0 < k <= n
    ensures top < k && forall j: nat :: j < k ==> j in Reachable(n, e, top)
  {
    ReachesSelf(e, k - 1);
    if k == 1 {
      top := 0;
    } else {
      top := SomeoneReachesAll(n, e, k - 1);
      if (top, k - 1) in e {
        ReachesByEdge(e, top, k - 1);
      } else {
        ReachesByEdge(e, k - 1, top);
        ReachableInherits(n, e, k - 1, top);
        top := k - 1;
      }
    }
  }

  /** The dependency sets form a chain, and one of them holds every pending transaction. */
  lemma DepsFormChain(peers: Views, quorum: nat, txs: seq<Tx>)
    requires Fit(peers, quorum, txs)
    ensures forall i: nat, j: nat :: i < |txs| && j < |txs| ==>
              || DepsOf(peers, quorum, txs, i) <= DepsOf(peers, quorum, txs, j)
              || DepsOf(peers, quorum, txs, j) <= DepsOf(peers, quorum, txs, i)
    ensures txs != [] ==> exists i: nat :: i < |txs| && DepsOf(peers, quorum, txs, i) == Below(|txs|)
  {
    var n, e := |txs|, BlockEdges(peers, quorum, txs);
    PendingTotal(peers, quorum, txs);
    forall i: nat, j: nat | i < n && j < n
      ensures Reachable(n, e, i) <= Reachable(n, e, j) || Reachable(n, e, j) <= Reachable(n, e, i)
    {
      ReachableChain(n, e, i, j);
    }
    if txs != [] {
      var top := SomeoneReachesAll(n, e, n);
      assert DepsOf(peers, quorum, txs, top) == Below(n);
    }
  }

  /**
   Block-order fairness: if a quorum reports txs[a] before txs[b], every
   dependency set that contains b also contains a, however cyclic the
   preferences are.
   */
  lemma DepsAreFair(peers: Views, quorum: nat, txs: seq<Tx>, a: nat, b: nat, i: nat)
    requires Fit(peers, quorum, txs) && a < |txs| && b < |txs| && a != b
    requires Enough(BeforeBackers(peers, txs[a], txs[b]), quorum)
    requires b in DepsOf(peers, quorum, txs, i)
    ensures a in DepsOf(peers, quorum, txs, i)
  {
    var e := BlockEdges(peers, quorum, txs);
    PendingTotal(peers, quorum, txs);
    assert (a, b) !in e;
    ReachesByEdge(e, b, a);
    ReachesThrough(e, i, b, a);
  }

  // ---------- the blocker lists as the code builds them ----------

  /** The positions are the first |s| ones. */
  ghost predicate InitialSegment(s: set<nat>) {
    s == Below(|s|)
  }

  /**
   The blocker list of txs[i] is the first |deps| pending transactions. It
   names exactly the dependencies of every transaction if and only if each
   pending transaction is a dependency of every later one.
   */
  lemma BlockerListsExactIff(n: nat, e: Edges)
    ensures (forall i: nat :: i < n ==> InitialSegment(Reachable(n, e, i))) <==>
            (forall i: nat, j: nat :: j < i < n ==> j in Reachable(n, e, i))
  {
    forall i: nat | i < n ensures i in Reachable(n, e, i) {
      ReachesSelf(e, i);
    }
    if forall i: nat, j: nat :: j < i < n ==> j in Reachable(n, e, i) {
      forall i: nat | i < n ensures InitialSegment(Reachable(n, e, i)) {
        forall k, j: nat | k in Reachable(n, e, i) && j < k ensures j in Reachable(n, e, i) {
          ReachableInherits(n, e, i, k);
        }
        DownClosedIsInitial(Reachable(n, e, i), n);
      }
    }
  }

  lemma {:induction false} DownClosedIsInitial(s: set<nat>, n: nat)
    requires s <= Below(n)
    requires forall k, j: nat :: k in s && j < k ==> j in s
    ensures InitialSegment(s)
  {
    if n == 0 {
      assert s == {};
    } else if n - 1 in s {
      assert s == Below(n);
    } else {
      DownClosedIsInitial(s, n - 1);
    }
  }

  /** The first len pending transactions hold all dependencies of their members. */
  ghost predicate FairPrefix(peers: Views, quorum: nat, txs: seq<Tx>, len: nat)
    requires OneLabel(txs)
  {
    forall i: nat :: i < len <= |txs| ==> DepsOf(peers, quorum, txs, i) <= Below(len)
  }

  /**
   A block is a prefix of the pending list. It is fair exactly when a quorum
   reports each transaction inside before each one outside.
   */
  lemma PrefixFairIff(peers: Views, quorum: nat, txs: seq<Tx>, len: nat)
    requires OneLabel(txs) && len <= |txs|
    ensures FairPrefix(peers, quorum, txs, len) <==>
            forall i, j :: 0 <= i < len <= j < |txs| ==> Enough(BeforeBackers(peers, txs[i], txs[j]), quorum)
  {
    var n, e := |txs|, BlockEdges(peers, quorum, txs);
    if forall i, j :: 0 <= i < len <= j < n ==> Enough(BeforeBackers(peers, txs[i], txs[j]), quorum) {
      assert Expanded(e, Below(len), Below(len)) by {
        forall x, y | x in Below(len) && (x, y) in e ensures y in Below(len) {
          assert BlockedBy(peers, quorum, txs[x], txs[y]);
        }
      }
      forall i: nat, b | i < len && b in Reachable(n, e, i) ensures b in Below(len) {
        ClosedUnderReach(e, Below(len), i, b);
      }
    } else {
      var i: nat, j: nat :| i < len <= j < n && !Enough(BeforeBackers(peers, txs[i], txs[j]), quorum);
      assert (i, j) in e;
      ReachesByEdge(e, i, j);
      assert j in DepsOf(peers, quorum, txs, i);
    }
  }
}
