/** What every run of the network leads to: no hash errors, and agreement once nothing is in flight. */
module Quiescence {
  import opened Types
  import opened FiniteSets
  import opened Buckets
  import opened Delivery
  import opened Closure
  import opened PendingTxs
  import opened Preference
  import opened Fairness
  import opened Gossip
  import opened Holdings

  function LinkEdges(links: Links): Edges {
    set n: nat, i: nat | n < |links| && i < |links[n]| :: (n, links[n][i])
  }

  /** In every reachable state, every message in flight can be handled and no vote in it is rejected. */
  lemma {:induction false} NoHashErrors(links: Links, steps: seq<Step>, m: Msg)
    requires WellFormed(links)
    requires m in Network(links, steps).flight
    ensures var net := Network(links, steps);
            && Enabled(net, Deliver(m, 0))
            && (m.body.VoteBody? ==> var v := m.body.vote;
                  Receive(BucketOf(net.nodes[m.to], v.pubkey, v.lbl), v).reply in {Added, AlreadyHeld})
  {
    var net := Network(links, steps);
    EveryRunInv(links, steps);
    assert MsgOk(net.nodes, m);
    if m.body.VoteBody? {
      VoteStepKeepsInv(links, net, Deliver(m, 0));
    }
  }

  /** The vote a node casts for a new transaction is always accepted by itself. */
  lemma {:induction false} OwnVotesAccepted(links: Links, steps: seq<Step>, q: nat, tx: Tx, digest: Hash)
    requires WellFormed(links) && q < |links|
    ensures var node := Network(links, steps).nodes[q];
            Receive(BucketOf(node, q, tx.lbl), NextVote(q, node, tx, digest)).reply == Added
  {
    EveryRunInv(links, steps);
    OwnVoteIsNew(Network(links, steps).nodes, q, tx, digest);
  }

  // ---------- when nothing is in flight ----------

  function Holders(links: Links, net: Net, body: Body): set<nat>
    requires |net.nodes| == |links|
  {
    set n: nat | n < |links| && Holds(net.nodes[n], body)
  }

  /** Nothing being in flight, whoever holds something has passed it on. */
  lemma HoldersAreClosed(links: Links, net: Net, body: Body, x: nat, y: nat)
    requires Inv(links, net) && net.flight == multiset{}
    requires x in Holders(links, net, body) && (x, y) in LinkEdges(links)
    ensures y in Holders(links, net, body)
  {
    assert y in links[x];
    assert Reached(net, y, body);
  }

  lemma QuietSpreads(links: Links, net: Net, a: nat, b: nat, body: Body)
    requires Inv(links, net) && net.flight == multiset{}
    requires a < |links| && Holds(net.nodes[a], body) && Reaches(LinkEdges(links), a, b)
    ensures b < |links| && Holds(net.nodes[b], body)
  {
    var holders := Holders(links, net, body);
    forall x, y | x in holders && (x, y) in LinkEdges(links) ensures y in holders {
      HoldersAreClosed(links, net, body, x, y);
    }
    ClosedUnderReach(LinkEdges(links), holders, a, b);
  }

  lemma LinkTargets(links: Links, a: nat, b: nat)
    requires WellFormed(links) && a < |links| && Reaches(LinkEdges(links), a, b)
    ensures b < |links|
  {
    ClosedUnderReach(LinkEdges(links), Below(|links|), a, b);
  }

  /** Every vote is held by every node reachable from its author. */
  lemma {:induction false} VotesSpread(links: Links, steps: seq<Step>, a: nat, b: nat)
    requires WellFormed(links) && a < |links| && Reaches(LinkEdges(links), a, b)
    requires Network(links, steps).flight == multiset{}
    ensures var nodes := Network(links, steps).nodes; b < |links| && HoldsAll(nodes[b], nodes[a].cast)
  {
    var net := Network(links, steps);
    EveryRunInv(links, steps);
    LinkTargets(links, a, b);
    assert NodeOk(net.nodes[a], a);
    var cast := net.nodes[a].cast;
    forall i | 0 <= i < |cast| ensures Holds(net.nodes[b], VoteBody(cast[i])) {
      QuietSpreads(links, net, a, b, VoteBody(cast[i]));
    }
  }

  ghost predicate StronglyConnected(links: Links) {
    forall a: nat, b: nat :: a < |links| && b < |links| ==> Reaches(LinkEdges(links), a, b)
  }

  /** On a strongly connected network all nodes hold exactly the votes cast, under their labels. */
  lemma {:induction false} SameVotesEverywhere(links: Links, steps: seq<Step>, a: nat, n: nat, l: Label, v: Vote)
    requires WellFormed(links) && StronglyConnected(links)
    requires Network(links, steps).flight == multiset{}
    requires a < |links| && n < |links|
    ensures var nodes := Network(links, steps).nodes;
            v in BucketOf(nodes[n], a, l).votes <==> v in nodes[a].cast && v.lbl == l
  {
    var nodes := Network(links, steps).nodes;
    EveryRunInv(links, steps);
    VotesSpread(links, steps, a, n);
    assert GenuineAt(nodes, n, a, l) && NodeOk(nodes[a], a);
    assert v in BucketOf(nodes[n], a, l).votes ==> FromChain(v, nodes[a].cast);
    if v in nodes[a].cast && v.lbl == l {
      var i :| 0 <= i < |nodes[a].cast| && nodes[a].cast[i] == v;
      assert Holds(nodes[n], VoteBody(nodes[a].cast[i]));
    }
  }

  predicate Knows(net: Net, n: nat, h: Hash) {
    n < |net.nodes| && Contains(net.nodes[n].wendy.txs, h)
  }

  lemma TakeKeepsTxs(links: Links, net: Net, st: Step, n: nat, h: Hash)
    requires Knows(net, n, h)
    ensures Knows(Take(links, net, st), n, h)
  {
    if |links| == |net.nodes| && Enabled(net, st) {
      var tx := if st.Inject? then st.tx else if st.msg.body.TxBody? then st.msg.body.tx else Tx("", 0, "");
      ContainsSnoc(net.nodes[n].wendy.txs, tx, h);
    }
  }

  lemma InjectedIsHeld(links: Links, net: Net, st: Step)
    requires Inv(links, net) && st.Inject? && st.at < |links|
    ensures Knows(Take(links, net, st), st.at, st.tx.hash)
  {
    if !Contains(net.nodes[st.at].wendy.txs, st.tx.hash) {
      TxArrives(net.nodes, st.at, st.tx, st.digest, links[st.at], st.at);
    }
  }

  lemma {:induction false} InjectedStays(links: Links, steps: seq<Step>, st: Step)
    requires WellFormed(links) && st in steps && st.Inject? && st.at < |links|
    ensures Knows(Network(links, steps), st.at, st.tx.hash)
  {
    var last := |steps| - 1;
    if steps[last] == st {
      EveryRunInv(links, steps[..last]);
      InjectedIsHeld(links, Network(links, steps[..last]), st);
    } else {
      InjectedStays(links, steps[..last], st);
      TakeKeepsTxs(links, Network(links, steps[..last]), steps[last], st.at, st.tx.hash);
    }
  }

  /** The numbers of the votes for a transaction. */
  function NumbersFor(cast: seq<Vote>, h: Hash): set<nat> {
    set i: nat | i < |cast| && cast[i].txHash == h
  }

  /** A node votes exactly once for each transaction it knows and never for another. */
  lemma VotesOncePerTx(node: Node, n: nat, h: Hash)
    requires NodeOk(node, n)
    ensures |NumbersFor(node.cast, h)| == if Contains(node.wendy.txs, h) then 1 else 0
  {
    var cast, txs := node.cast, node.wendy.txs;
    if Contains(txs, h) {
      var i: nat :| i < |txs| && txs[i].hash == h;
      assert NumbersFor(cast, h) == {i};
    } else {
      assert NumbersFor(cast, h) == {};
    }
  }

  /**
   When nothing is in flight, every node reachable from where a transaction was
   injected holds it and has voted for it exactly once.
   */
  lemma {:induction false} TxsSpread(links: Links, steps: seq<Step>, st: Step, b: nat)
    requires WellFormed(links) && st in steps && st.Inject? && st.at < |links|
    requires Reaches(LinkEdges(links), st.at, b)
    requires Network(links, steps).flight == multiset{}
    ensures var nodes := Network(links, steps).nodes;
            && b < |links|
            && Contains(nodes[b].wendy.txs, st.tx.hash)
            && |NumbersFor(nodes[b].cast, st.tx.hash)| == 1
  {
    EveryRunInv(links, steps);
    InjectedStays(links, steps, st);
    QuietSpreads(links, Network(links, steps), st.at, b, TxBody(st.tx));
    VotesOncePerTx(Network(links, steps).nodes[b], b, st.tx.hash);
  }

  // ---------- reports are arrival orders ----------

  /** What a node that holds all of a's votes reports of two of a's transactions. */
  lemma ReportIsOrder(nodes: seq<Node>, b: nat, a: nat, i: nat, j: nat)
    requires NodesOk(nodes) && Genuine(nodes) && b < |nodes| && a < |nodes| && HoldsAll(nodes[b], nodes[a].cast)
    requires i < |nodes[a].cast| && j < |nodes[a].cast| && nodes[a].cast[i].lbl == nodes[a].cast[j].lbl
    requires BucketOf(nodes[b], a, nodes[a].cast[i].lbl).committed == {}
    ensures var cast := nodes[a].cast;
            Before(BucketOf(nodes[b], a, cast[i].lbl), cast[i].txHash, cast[j].txHash) <==> i < j
  {
    var cast := nodes[a].cast;
    assert NodeOk(nodes[a], a);
    assert Holds(nodes[b], VoteBody(cast[i])) && Holds(nodes[b], VoteBody(cast[j]));
    FoundIsCast(nodes, b, a, i);
    FoundIsCast(nodes, b, a, j);
  }

  /**
   When nothing is in flight, what any node reachable from a reports of a's
   order, among transactions of one label, is the order in which a itself
   received them.
   */
  lemma {:induction false} ReportsMatchArrival(links: Links, steps: seq<Step>, a: nat, b: nat, i: nat, j: nat)
    requires WellFormed(links) && a < |links| && Reaches(LinkEdges(links), a, b)
    requires Network(links, steps).flight == multiset{}
    ensures var nodes := Network(links, steps).nodes;
            var txs := nodes[a].wendy.txs;
            && b < |links|
            && (i < |txs| && j < |txs| && txs[i].lbl == txs[j].lbl ==>
                  (Before(BucketOf(nodes[b], a, txs[i].lbl), txs[i].hash, txs[j].hash) <==> i < j))
  {
    var nodes := Network(links, steps).nodes;
    EveryRunInv(links, steps);
    EveryRunListsOk(links, steps);
    VotesSpread(links, steps, a, b);
    var txs := nodes[a].wendy.txs;
    assert NodeOk(nodes[a], a) && ListsOk(nodes[b], |links|);
    if i < |txs| && j < |txs| && txs[i].lbl == txs[j].lbl {
      assert BucketOk(BucketOf(nodes[b], a, txs[i].lbl));
      ReportIsOrder(nodes, b, a, i, j);
    }
  }

  // ---------- do the nodes agree? ----------

  /** The first vote for a transaction has the same number in two lists of the same votes of one author. */
  lemma SameNumber(cast: seq<Vote>, b: Bucket, b': Bucket, h: Hash)
    requires AllFromChain(b, cast) && AllFromChain(b', cast) && (forall v :: v in b.votes <==> v in b'.votes)
    requires forall i, j :: 0 <= i < |cast| && 0 <= j < |cast| && cast[i].txHash == cast[j].txHash ==> i == j
    ensures var k, k' := FirstFor(b.votes, h), FirstFor(b'.votes, h);
            && (k < |b.votes| <==> k' < |b'.votes|)
            && (k < |b.votes| ==> b.votes[k] == b'.votes[k'])
  {
    var k, k' := FirstFor(b.votes, h), FirstFor(b'.votes, h);
    if k < |b.votes| {
      assert b.votes[k] in b'.votes;
    }
    if k' < |b'.votes| {
      assert b'.votes[k'] in b.votes;
    }
    if k < |b.votes| && k' < |b'.votes| {
      assert FromChain(b.votes[k], cast) && FromChain(b'.votes[k'], cast);
    }
  }

  /** The list is empty or began with vote 0. */
  predicate BeganAtZero(b: Bucket) {
    b.votes == [] || b.votes[0].seqNo == 0
  }

  /** Lists of the same votes that both began with vote 0 are the same list with the same counter. */
  lemma SameBucket(b: Bucket, b': Bucket)
    requires BucketOk(b) && BucketOk(b') && BeganAtZero(b) && BeganAtZero(b')
    requires forall v :: v in b.votes <==> v in b'.votes
    ensures b == b'
  {
    SameVotesSameList(b.votes, b'.votes);
    if b.votes == [] {
      NoVotesNoCount(b);
      NoVotesNoCount(b');
    } else {
      CounterIsHighest(b, b'.lastSeqSeen);
      CounterIsHighest(b', b.lastSeqSeen);
    }
  }

  lemma CounterIsHighest(b: Bucket, last: nat)
    requires Maximal(b) && Solid(b.votes, last)
    ensures last <= b.lastSeqSeen
  {
    forall i: nat | i <= last ensures MeetsFrom(b.votes, 0, i) {
      assert b.votes[i].seqNo == i;
    }
  }

  /** The two nodes hold the same votes of every author under the label, in lists that are in order. */
  ghost predicate SameHoldings(nodes: seq<Node>, n: nat, m: nat, l: Label)
    requires n < |nodes| && m < |nodes|
  {
    && NodesOk(nodes) && Genuine(nodes) && ListsOk(nodes[n], |nodes|) && ListsOk(nodes[m], |nodes|)
    && forall a: nat, v :: a < |nodes| ==>
         (v in BucketOf(nodes[n], a, l).votes <==> v in BucketOf(nodes[m], a, l).votes)
  }

  lemma {:induction false} QuietIsSame(links: Links, steps: seq<Step>, n: nat, m: nat, l: Label)
    requires WellFormed(links) && StronglyConnected(links)
    requires Network(links, steps).flight == multiset{} && n < |links| && m < |links|
    ensures SameHoldings(Network(links, steps).nodes, n, m, l)
  {
    var nodes := Network(links, steps).nodes;
    EveryRunInv(links, steps);
    EveryRunListsOk(links, steps);
    assert ListsOk(nodes[n], |links|) && ListsOk(nodes[m], |links|);
    forall a: nat, v | a < |links|
      ensures v in BucketOf(nodes[n], a, l).votes <==> v in BucketOf(nodes[m], a, l).votes
    {
      SameVotesEverywhere(links, steps, a, n, l, v);
      SameVotesEverywhere(links, steps, a, m, l, v);
    }
  }

  /** The first vote for a transaction is the same vote at both nodes. */
  lemma SameFirstVote(nodes: seq<Node>, n: nat, m: nat, a: nat, l: Label, h: Hash)
    requires n < |nodes| && m < |nodes| && a < |nodes| && SameHoldings(nodes, n, m, l)
    ensures var vs, vs' := BucketOf(nodes[n], a, l).votes, BucketOf(nodes[m], a, l).votes;
            var k, k' := FirstFor(vs, h), FirstFor(vs', h);
            (k < |vs| <==> k' < |vs'|) && (k < |vs| ==> vs[k] == vs'[k'])
  {
    var cast := nodes[a].cast;
    assert NodeOk(nodes[a], a) && GenuineAt(nodes, n, a, l) && GenuineAt(nodes, m, a, l);
    forall i, j | 0 <= i < |cast| && 0 <= j < |cast| && cast[i].txHash == cast[j].txHash ensures i == j {
      OneVotePerTx(nodes[a], a, i, j);
    }
    SameNumber(cast, BucketOf(nodes[n], a, l), BucketOf(nodes[m], a, l), h);
  }

  /** A backer at one of two nodes with the same votes is a backer at the other. */
  lemma SameBackers(nodes: seq<Node>, n: nat, m: nat, tx1: Tx, tx2: Tx)
    requires n < |nodes| && m < |nodes| && SameHoldings(nodes, n, m, tx1.lbl) && tx1.lbl == tx2.lbl
    ensures BeforeBackers(nodes[n].wendy.peers, tx1, tx2) <= BeforeBackers(nodes[m].wendy.peers, tx1, tx2)
  {
    forall a | a in BeforeBackers(nodes[n].wendy.peers, tx1, tx2)
      ensures a in BeforeBackers(nodes[m].wendy.peers, tx1, tx2)
    {
      assert a < |nodes|;
      assert BucketOk(BucketOf(nodes[n], a, tx1.lbl)) && BucketOk(BucketOf(nodes[m], a, tx1.lbl));
      SameFirstVote(nodes, n, m, a, tx1.lbl, tx1.hash);
      SameFirstVote(nodes, n, m, a, tx1.lbl, tx2.hash);
    }
  }

  /** So all nodes agree on every verdict "tx1 is blocked by tx2", whatever order the votes came in. */
  lemma {:induction false} SameBlockedBy(links: Links, steps: seq<Step>, n: nat, m: nat, quorum: nat, tx1: Tx, tx2: Tx)
    requires WellFormed(links) && StronglyConnected(links) && tx1.lbl == tx2.lbl
    requires Network(links, steps).flight == multiset{} && n < |links| && m < |links|
    ensures var nodes := Network(links, steps).nodes;
            BlockedBy(nodes[n].wendy.peers, quorum, tx1, tx2) <==> BlockedBy(nodes[m].wendy.peers, quorum, tx1, tx2)
  {
    var nodes := Network(links, steps).nodes;
    QuietIsSame(links, steps, n, m, tx1.lbl);
    QuietIsSame(links, steps, m, n, tx1.lbl);
    SameBackers(nodes, n, m, tx1, tx2);
    SameBackers(nodes, m, n, tx1, tx2);
    assert BeforeBackers(nodes[n].wendy.peers, tx1, tx2) == BeforeBackers(nodes[m].wendy.peers, tx1, tx2);
  }

  function CounterOf(node: Node, a: nat, l: Label): nat {
    BucketOf(node, a, l).lastSeqSeen
  }

  ghost predicate SameCounters(nodes: seq<Node>, n: nat, m: nat, l: Label)
    requires n < |nodes| && m < |nodes|
  {
    forall a: nat :: a < |nodes| ==> CounterOf(nodes[n], a, l) == CounterOf(nodes[m], a, l)
  }

  /** The two nodes count the same peers as having seen each transaction of the label. */
  ghost predicate SameSeen(nodes: seq<Node>, n: nat, m: nat, l: Label)
    requires n < |nodes| && m < |nodes|
  {
    forall tx: Tx :: tx.lbl == l ==>
      SeenBackers(nodes[n].wendy.peers, tx) == SeenBackers(nodes[m].wendy.peers, tx)
  }

  lemma CountersCarrySeen(nodes: seq<Node>, n: nat, m: nat, tx: Tx)
    requires n < |nodes| && m < |nodes| && SameHoldings(nodes, n, m, tx.lbl) && SameCounters(nodes, n, m, tx.lbl)
    ensures SeenBackers(nodes[n].wendy.peers, tx) <= SeenBackers(nodes[m].wendy.peers, tx)
  {
    forall a | a in SeenBackers(nodes[n].wendy.peers, tx) ensures a in SeenBackers(nodes[m].wendy.peers, tx) {
      assert a < |nodes| && CounterOf(nodes[n], a, tx.lbl) == CounterOf(nodes[m], a, tx.lbl);
      SameFirstVote(nodes, n, m, a, tx.lbl, tx.hash);
    }
  }

  /** The node with the higher counter sees the transaction of that vote, the other one does not. */
  lemma HigherCounterSees(nodes: seq<Node>, n: nat, m: nat, a: nat, l: Label) returns (tx: Tx)
    requires n < |nodes| && m < |nodes| && a < |nodes| && SameHoldings(nodes, n, m, l)
    requires CounterOf(nodes[n], a, l) < CounterOf(nodes[m], a, l)
    ensures tx.lbl == l && a !in SeenBackers(nodes[n].wendy.peers, tx) && a in SeenBackers(nodes[m].wendy.peers, tx)
  {
    var b, c := BucketOf(nodes[m], a, l), CounterOf(nodes[m], a, l);
    assert BucketOk(b) && MeetsFrom(b.votes, 0, c);
    var k :| 0 <= k < |b.votes| && b.votes[k].seqNo == c;
    assert b.votes[k] in b.votes && GenuineAt(nodes, m, a, l) && FromChain(b.votes[k], nodes[a].cast);
    tx := Tx("", b.votes[k].txHash, l);
    FoundIsCast(nodes, m, a, c);
    SameFirstVote(nodes, n, m, a, l, tx.hash);
  }

  lemma SameSeenIffSameCounters(nodes: seq<Node>, n: nat, m: nat, l: Label)
    requires n < |nodes| && m < |nodes| && SameHoldings(nodes, n, m, l) && SameHoldings(nodes, m, n, l)
    ensures SameSeen(nodes, n, m, l) <==> SameCounters(nodes, n, m, l)
  {
    if SameCounters(nodes, n, m, l) {
      forall tx: Tx | tx.lbl == l
        ensures SeenBackers(nodes[n].wendy.peers, tx) == SeenBackers(nodes[m].wendy.peers, tx)
      {
        CountersCarrySeen(nodes, n, m, tx);
        CountersCarrySeen(nodes, m, n, tx);
      }
    } else {
      var a: nat :| a < |nodes| && CounterOf(nodes[n], a, l) != CounterOf(nodes[m], a, l);
      if CounterOf(nodes[n], a, l) < CounterOf(nodes[m], a, l) {
        var tx := HigherCounterSees(nodes, n, m, a, l);
      } else {
        var tx := HigherCounterSees(nodes, m, n, a, l);
      }
    }
  }

  /**
   On a quiet strongly connected network two nodes count the same peers as
   having seen each transaction of a label exactly when their counters for it
   are the same.
   */
  lemma {:induction false} SameSeenIff(links: Links, steps: seq<Step>, n: nat, m: nat, l: Label)
    requires WellFormed(links) && StronglyConnected(links)
    requires Network(links, steps).flight == multiset{} && n < |links| && m < |links|
    ensures var nodes := Network(links, steps).nodes; SameSeen(nodes, n, m, l) <==> SameCounters(nodes, n, m, l)
  {
    QuietIsSame(links, steps, n, m, l);
    QuietIsSame(links, steps, m, n, l);
    SameSeenIffSameCounters(Network(links, steps).nodes, n, m, l);
  }

  /** Every list of the label at the node is empty or began with vote 0. */
  predicate AllBeganAtZero(node: Node, size: nat, l: Label) {
    forall a: nat :: a < size ==> BeganAtZero(BucketOf(node, a, l))
  }

  /** So they give the same verdicts on "tx is blocked" if vote 0 of every author of that label came first at both. */
  lemma {:induction false} SameBlockedFromZero(links: Links, steps: seq<Step>, n: nat, m: nat, quorum: nat, tx: Tx)
    requires WellFormed(links) && StronglyConnected(links)
    requires Network(links, steps).flight == multiset{} && n < |links| && m < |links|
    requires var nodes := Network(links, steps).nodes;
             AllBeganAtZero(nodes[n], |links|, tx.lbl) && AllBeganAtZero(nodes[m], |links|, tx.lbl)
    ensures var nodes := Network(links, steps).nodes;
            Blocked(nodes[n].wendy.peers, quorum, tx) <==> Blocked(nodes[m].wendy.peers, quorum, tx)
  {
    var nodes := Network(links, steps).nodes;
    QuietIsSame(links, steps, n, m, tx.lbl);
    forall a: nat | a < |links| ensures CounterOf(nodes[n], a, tx.lbl) == CounterOf(nodes[m], a, tx.lbl) {
      assert BucketOk(BucketOf(nodes[n], a, tx.lbl)) && BucketOk(BucketOf(nodes[m], a, tx.lbl));
      SameBucket(BucketOf(nodes[n], a, tx.lbl), BucketOf(nodes[m], a, tx.lbl));
    }
    SameSeenIff(links, steps, n, m, tx.lbl);
    assert SeenBackers(nodes[n].wendy.peers, tx) == SeenBackers(nodes[m].wendy.peers, tx);
  }
}
