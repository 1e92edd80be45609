/**
 What the nodes' vote lists look like in every run of the network, and what it
 means that an author numbers its votes across all labels while every list
 holds the votes of one label.
 */
module Holdings {
  import opened Types
  import opened Buckets
  import opened Delivery
  import opened Preference
  import opened PendingTxs
  import opened Gossip

  /** A list that began with vote 0 has all numbers up to the counter, and not the next one. */
  predicate ExactFromZero(b: Bucket) {
    b.votes != [] && b.votes[0].seqNo == 0 ==> ZeroBased(b) && Maximal(b)
  }

  ghost predicate BucketOk(b: Bucket) {
    FallingRuns(b.votes) && Backed(b) && b.committed == {} && ExactFromZero(b)
  }

  lemma ReceiveKeepsExact(b: Bucket, cast: seq<Vote>, v: Vote)
    requires Chain(cast) && AllFromChain(b, cast) && FromChain(v, cast) && Backed(b) && ExactFromZero(b)
    ensures ExactFromZero(Receive(b, v).bucket)
  {
    if b.votes == [] {
      assert b.lastSeqSeen > 0 ==> MeetsFrom(b.votes, 0, b.lastSeqSeen);
      assert Receive(b, v).bucket.votes == [v];
      assert Advance([v], 1, 0) == 0;
    } else if b.votes[0].seqNo == 0 {
      ReceiveKeepsZeroBased(b, v);
      ChainVoteNeverStalls(b, cast, v);
      StallLeavesGapFilled(b, v);
    } else {
      ReceiveStores(b, v);
    }
  }

  lemma ReceiveKeepsBucketOk(b: Bucket, cast: seq<Vote>, v: Vote)
    requires Chain(cast) && AllFromChain(b, cast) && FromChain(v, cast) && BucketOk(b)
    ensures BucketOk(Receive(b, v).bucket)
  {
    ReceiveKeepsFallingRuns(b, v);
    ReceiveKeepsBacked(b, v);
    ReceiveKeepsExact(b, cast, v);
    ReceiveStores(b, v);
  }

  /** A node knows only authors among the n nodes, and all their lists are in order. */
  ghost predicate ListsOk(node: Node, n: nat) {
    && (forall id :: id in node.wendy.peers ==> id < n)
    && (forall a: nat, l :: BucketOk(BucketOf(node, a, l)))
  }

  lemma VoteKeepsLists(peers: seq<nat>, me: nat, node: Node, from: nat, v: Vote, cast: seq<Vote>, n: nat)
    requires ListsOk(node, n) && v.pubkey < n
    requires Chain(cast) && AllFromChain(BucketOf(node, v.pubkey, v.lbl), cast) && FromChain(v, cast)
    ensures ListsOk(HandleVote(peers, me, node, from, v).node, n)
  {
    var node' := HandleVote(peers, me, node, from, v).node;
    forall a: nat, l ensures BucketOk(BucketOf(node', a, l)) {
      VoteChanges(peers, me, node, from, v, a, l);
      assert BucketOk(BucketOf(node, a, l));
      if a == v.pubkey && l == v.lbl {
        ReceiveKeepsBucketOk(BucketOf(node, a, l), cast, v);
      }
    }
  }

  lemma TxKeepsLists(nodes: seq<Node>, q: nat, tx: Tx, digest: Hash, peers: seq<nat>, from: nat)
    requires NodesOk(nodes) && Genuine(nodes) && q < |nodes| && ListsOk(nodes[q], |nodes|)
    ensures ListsOk(HandleTx(peers, q, nodes[q], from, tx, digest).node, |nodes|)
  {
    if !Contains(nodes[q].wendy.txs, tx.hash) {
      var v, voted := NextVote(q, nodes[q], tx, digest), Voted(q, nodes[q], tx, digest);
      assert NodeOk(nodes[q], q) && GenuineAt(nodes, q, q, tx.lbl);
      NextVoteIsLinked(nodes[q], q, tx, digest);
      ChainGrows(BucketOf(nodes[q], q, tx.lbl), nodes[q].cast, v);
      forall a: nat, l ensures BucketOf(voted, a, l) == BucketOf(nodes[q], a, l) {}
      assert ListsOk(voted, |nodes|);
      VoteKeepsLists(peers, q, voted, q, v, nodes[q].cast + [v], |nodes|);
    }
  }

  lemma HandlerKeepsLists(links: Links, net: Net, st: Step)
    requires Inv(links, net) && Enabled(net, st) && ListsOk(net.nodes[Target(st)], |links|)
    ensures ListsOk(Handle(links, net, st).node, |links|)
  {
    match st
    case Inject(at, tx, digest) => TxKeepsLists(net.nodes, at, tx, digest, links[at], at);
    case Deliver(m, digest) =>
      assert MsgOk(net.nodes, m);
      match m.body
      case TxBody(tx) => TxKeepsLists(net.nodes, m.to, tx, digest, links[m.to], m.from);
      case VoteBody(v) =>
        VoteMsgGenuine(net, m);
        assert NodeOk(net.nodes[v.pubkey], v.pubkey) && GenuineAt(net.nodes, m.to, v.pubkey, v.lbl);
        VoteKeepsLists(links[m.to], m.to, net.nodes[m.to], m.from, v, net.nodes[v.pubkey].cast, |links|);
  }

  ghost predicate AllListsOk(net: Net, n: nat) {
    forall i :: 0 <= i < |net.nodes| ==> ListsOk(net.nodes[i], n)
  }

  lemma StepKeepsLists(links: Links, net: Net, st: Step)
    requires Inv(links, net) && AllListsOk(net, |links|)
    ensures AllListsOk(Take(links, net, st), |links|)
  {
    if Enabled(net, st) {
      var q := Target(st);
      assert ListsOk(net.nodes[q], |links|);
      HandlerKeepsLists(links, net, st);
      var node := Handle(links, net, st).node;
      assert Take(links, net, st).nodes == net.nodes[q := node];
    }
  }

  lemma StartLists(n: nat)
    ensures AllListsOk(Start(n), n)
  {
    assert BucketOk(EMPTY);
  }

  /** In every run every list of every node is in order. */
  lemma {:induction false} EveryRunListsOk(links: Links, steps: seq<Step>)
    requires WellFormed(links)
    ensures AllListsOk(Network(links, steps), |links|)
  {
    if steps == [] {
      StartLists(|links|);
    } else {
      EveryRunListsOk(links, steps[..|steps| - 1]);
      EveryRunInv(links, steps[..|steps| - 1]);
      StepKeepsLists(links, Network(links, steps[..|steps| - 1]), steps[|steps| - 1]);
    }
  }

  // ---------- one numbering, several labels ----------

  /** The vote found for a transaction of an author is the one vote the author cast for it. */
  lemma FoundIsCast(nodes: seq<Node>, n: nat, a: nat, j: nat)
    requires NodesOk(nodes) && Genuine(nodes) && n < |nodes| && a < |nodes| && j < |nodes[a].cast|
    ensures var v := nodes[a].cast[j];
            var vs := BucketOf(nodes[n], a, v.lbl).votes;
            var k := FirstFor(vs, v.txHash);
            if v in vs then k < |vs| && vs[k] == v else k == |vs|
  {
    var v := nodes[a].cast[j];
    var vs := BucketOf(nodes[n], a, v.lbl).votes;
    var k := FirstFor(vs, v.txHash);
    assert NodeOk(nodes[a], a) && GenuineAt(nodes, n, a, v.lbl);
    if k < |vs| {
      assert vs[k] in vs;
      assert FromChain(vs[k], nodes[a].cast);
      OneVotePerTx(nodes[a], a, vs[k].seqNo, j);
    }
  }

  lemma OneVotePerTx(node: Node, a: nat, i: nat, j: nat)
    requires NodeOk(node, a) && i < |node.cast| && j < |node.cast|
    requires node.cast[i].txHash == node.cast[j].txHash
    ensures i == j
  {
    assert node.wendy.txs[i].hash == node.wendy.txs[j].hash;
  }

  /**
   Numbers are shared by all labels of an author, and each label waits for all
   of them: a transaction that the author voted for after one with another
   label, vote 0 aside, is never seen at any node, in any run.
   */
  lemma NeverSeenAcrossLabels(links: Links, steps: seq<Step>, n: nat, a: nat, i: nat, j: nat)
    requires WellFormed(links) && n < |links| && a < |links|
    requires var cast := Network(links, steps).nodes[a].cast;
             1 <= i < j < |cast| && cast[i].lbl != cast[j].lbl
    ensures var nodes := Network(links, steps).nodes;
            !Seen(BucketOf(nodes[n], a, nodes[a].cast[j].lbl), nodes[a].cast[j].txHash)
  {
    var nodes := Network(links, steps).nodes;
    EveryRunInv(links, steps);
    EveryRunListsOk(links, steps);
    var v := nodes[a].cast[j];
    var b := BucketOf(nodes[n], a, v.lbl);
    FoundIsCast(nodes, n, a, j);
    assert NodeOk(nodes[a], a) && ListsOk(nodes[n], |links|);
    assert BucketOk(b);
    if Seen(b, v.txHash) {
      CountedHaveLabel(nodes, n, a, v.lbl, i);
    }
  }

  /** The counter of a label passes only votes of that label. */
  lemma CountedHaveLabel(nodes: seq<Node>, n: nat, a: nat, l: Label, i: nat)
    requires Genuine(nodes) && n < |nodes| && a < |nodes| && Backed(BucketOf(nodes[n], a, l))
    requires 1 <= i <= BucketOf(nodes[n], a, l).lastSeqSeen
    ensures i < |nodes[a].cast| && nodes[a].cast[i].lbl == l
  {
    var b := BucketOf(nodes[n], a, l);
    assert MeetsFrom(b.votes, 0, i);
    var k :| 0 <= k < |b.votes| && b.votes[k].seqNo == i;
    assert GenuineAt(nodes, n, a, l) && b.votes[k] in b.votes;
  }
}
