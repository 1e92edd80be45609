/**
 What a node's own votes look like in its own lists, and from that exactly which
 of its transactions a node ever sees.
 */
module OwnLists {
  import opened Types
  import opened Buckets
  import opened Delivery
  import opened Preference
  import opened PendingTxs
  import opened Gossip
  import opened Holdings

  /**
   Of the votes cast so far the list holds those of label l, in order, and the
   counter has stopped before a vote of another label or at the last vote.
   */
  predicate OwnList(b: Bucket, cast: seq<Vote>, l: Label) {
    && Increasing(b.votes)
    && (forall x :: x in b.votes ==> x.seqNo < |cast|)
    && (b.lastSeqSeen == 0 || b.lastSeqSeen < |cast|)
    && (b.lastSeqSeen + 1 < |cast| ==> cast[b.lastSeqSeen + 1].lbl != l)
  }

  lemma OwnVoteComesBack(b: Bucket, v: Vote)
    requires Increasing(b.votes) && v in b.votes
    ensures Receive(b, v).bucket == b
  {
    var k :| 0 <= k < |b.votes| && b.votes[k] == v;
    assert LastAtMost(b.votes, v.seqNo) == k;
  }

  /** A higher vote goes to the end of the list. */
  lemma AppendsOwnVote(b: Bucket, v: Vote)
    requires Increasing(b.votes) && (forall x :: x in b.votes ==> x.seqNo < v.seqNo)
    requires b.votes != [] ==> Linked(b.votes[|b.votes| - 1], v)
    requires b.votes == [] ==> b.lastSeqSeen == 0
    ensures Receive(b, v).bucket ==
            b.(votes := b.votes + [v], lastSeqSeen := b.lastSeqSeen + if v.seqNo == b.lastSeqSeen + 1 then 1 else 0)
  {
    if b.votes == [] {
      assert [] + [v] == [v];
      assert Advance([v], 1, 0) == 0 && Advance([v], 1, 1) == 1;
    } else {
      assert b.votes[|b.votes| - 1] in b.votes;
      NextInLine(b, v);
    }
  }

  lemma LastIsLinked(b: Bucket, cast: seq<Vote>, v: Vote)
    requires Chain(cast + [v]) && AllFromChain(b, cast) && b.votes != []
    ensures Linked(b.votes[|b.votes| - 1], v)
  {
    var w := b.votes[|b.votes| - 1];
    assert w in b.votes && FromChain(w, cast);
    assert (cast + [v])[w.seqNo] == w && (cast + [v])[|cast|] == v;
  }

  lemma NextOwnVote(b: Bucket, cast: seq<Vote>, v: Vote, l: Label)
    requires OwnList(b, cast, l) && Backed(b) && AllFromChain(b, cast) && Chain(cast + [v]) && v.seqNo == |cast|
    ensures OwnList(Receive(b, v).bucket, cast + [v], l)
  {
    if b.votes == [] {
      NoVotesNoCount(b);
    } else {
      LastIsLinked(b, cast, v);
    }
    AppendsOwnVote(b, v);
    AppendStaysIncreasing(b.votes, v);
    CounterMovesOn(b, cast, v, l);
  }

  lemma AppendStaysIncreasing(vs: seq<Vote>, v: Vote)
    requires Increasing(vs) && forall x :: x in vs ==> x.seqNo < v.seqNo
    ensures Increasing(vs + [v]) && forall x :: x in vs + [v] ==> x.seqNo < v.seqNo + 1
  {
    assert forall i :: 0 <= i < |vs| ==> vs[i] in vs;
  }

  lemma CounterMovesOn(b: Bucket, cast: seq<Vote>, v: Vote, l: Label)
    requires OwnList(b, cast, l) && v.seqNo == |cast|
    ensures var last := b.lastSeqSeen + if v.seqNo == b.lastSeqSeen + 1 then 1 else 0;
            && (last == 0 || last < |cast + [v]|)
            && (last + 1 < |cast + [v]| ==> (cast + [v])[last + 1].lbl != l)
  {
    assert b.lastSeqSeen + 1 < |cast| ==> (cast + [v])[b.lastSeqSeen + 1] == cast[b.lastSeqSeen + 1];
  }

  lemma OtherLabelCast(b: Bucket, cast: seq<Vote>, v: Vote, l: Label)
    requires OwnList(b, cast, l) && v.lbl != l
    ensures OwnList(b, cast + [v], l)
  {
  }

  // ---------- every run ----------

  ghost predicate OwnListsOk(node: Node, a: nat) {
    forall l :: OwnList(BucketOf(node, a, l), node.cast, l)
  }

  lemma VoteKeepsOwnLists(nodes: seq<Node>, q: nat, v: Vote, peers: seq<nat>, from: nat)
    requires NodesOk(nodes) && Genuine(nodes) && q < |nodes| && v.pubkey < |nodes|
    requires FromChain(v, nodes[v.pubkey].cast) && OwnListsOk(nodes[q], q)
    ensures OwnListsOk(HandleVote(peers, q, nodes[q], from, v).node, q)
  {
    var node := HandleVote(peers, q, nodes[q], from, v).node;
    assert NodeOk(nodes[q], q);
    forall l ensures OwnList(BucketOf(node, q, l), node.cast, l) {
      assert OwnList(BucketOf(nodes[q], q, l), nodes[q].cast, l);
      VoteChanges(peers, q, nodes[q], from, v, q, l);
      if v.pubkey == q && v.lbl == l {
        assert Holds(nodes[q], VoteBody(nodes[q].cast[v.seqNo]));
        OwnVoteComesBack(BucketOf(nodes[q], q, l), v);
      }
    }
  }

  lemma TxKeepsOwnLists(nodes: seq<Node>, q: nat, tx: Tx, digest: Hash, peers: seq<nat>, from: nat)
    requires NodesOk(nodes) && Genuine(nodes) && q < |nodes| && ListsOk(nodes[q], |nodes|) && OwnListsOk(nodes[q], q)
    ensures OwnListsOk(HandleTx(peers, q, nodes[q], from, tx, digest).node, q)
  {
    if !Contains(nodes[q].wendy.txs, tx.hash) {
      var v, voted := NextVote(q, nodes[q], tx, digest), Voted(q, nodes[q], tx, digest);
      var node, cast := HandleVote(peers, q, voted, q, v).node, nodes[q].cast;
      assert NodeOk(nodes[q], q);
      NextVoteIsLinked(nodes[q], q, tx, digest);
      forall l ensures OwnList(BucketOf(node, q, l), node.cast, l) {
        var b := BucketOf(nodes[q], q, l);
        assert BucketOf(voted, q, l) == b && OwnList(b, cast, l) && BucketOk(b) && GenuineAt(nodes, q, q, l);
        VoteChanges(peers, q, voted, q, v, q, l);
        if l == tx.lbl {
          NextOwnVote(b, cast, v, l);
        } else {
          OtherLabelCast(b, cast, v, l);
        }
      }
    }
  }

  ghost predicate AllOwnListsOk(nodes: seq<Node>) {
    forall q :: 0 <= q < |nodes| ==> OwnListsOk(nodes[q], q)
  }

  lemma HandlerKeepsOwnLists(links: Links, net: Net, st: Step)
    requires Inv(links, net) && Enabled(net, st) && AllListsOk(net, |links|) && OwnListsOk(net.nodes[Target(st)], Target(st))
    ensures OwnListsOk(Handle(links, net, st).node, Target(st))
  {
    assert ListsOk(net.nodes[Target(st)], |links|);
    match st
    case Inject(at, tx, digest) => TxKeepsOwnLists(net.nodes, at, tx, digest, links[at], at);
    case Deliver(m, digest) =>
      assert MsgOk(net.nodes, m);
      match m.body
      case TxBody(tx) => TxKeepsOwnLists(net.nodes, m.to, tx, digest, links[m.to], m.from);
      case VoteBody(v) =>
        VoteMsgGenuine(net, m);
        VoteKeepsOwnLists(net.nodes, m.to, v, links[m.to], m.from);
  }

  lemma StepKeepsOwnLists(links: Links, net: Net, st: Step)
    requires Inv(links, net) && AllListsOk(net, |links|) && AllOwnListsOk(net.nodes)
    ensures AllOwnListsOk(Take(links, net, st).nodes)
  {
    if Enabled(net, st) {
      var q := Target(st);
      assert OwnListsOk(net.nodes[q], q);
      HandlerKeepsOwnLists(links, net, st);
      var node := Handle(links, net, st).node;
      assert Take(links, net, st).nodes == net.nodes[q := node];
    }
  }

  lemma StartOwnLists(n: nat)
    ensures AllOwnListsOk(Start(n).nodes)
  {
    assert forall l :: OwnList(EMPTY, [], l);
  }

  lemma {:induction false} EveryRunOwnLists(links: Links, steps: seq<Step>)
    requires WellFormed(links)
    ensures AllOwnListsOk(Network(links, steps).nodes)
  {
    if steps == [] {
      StartOwnLists(|links|);
    } else {
      var before := steps[..|steps| - 1];
      EveryRunOwnLists(links, before);
      EveryRunInv(links, before);
      EveryRunListsOk(links, before);
      StepKeepsOwnLists(links, Network(links, before), steps[|steps| - 1]);
    }
  }

  // ---------- which of its own transactions a node sees ----------

  /** The votes 1 to j-1 have the label of vote j. */
  predicate SameLabelTo(cast: seq<Vote>, j: nat)
    requires j < |cast|
  {
    forall i :: 1 <= i < j ==> cast[i].lbl == cast[j].lbl
  }

  /** The node sees the transaction of its vote j. */
  predicate SeesOwn(node: Node, a: nat, j: nat)
    requires j < |node.cast|
  {
    Seen(BucketOf(node, a, node.cast[j].lbl), node.cast[j].txHash)
  }

  /**
   In every run a node sees a transaction it has voted for exactly when its
   votes before that, vote 0 aside, all have the same label.
   */
  lemma {:induction false} SeesOwnIff(links: Links, steps: seq<Step>, a: nat, j: nat)
    requires WellFormed(links) && a < |links| && j < |Network(links, steps).nodes[a].cast|
    ensures var node := Network(links, steps).nodes[a]; SeesOwn(node, a, j) <==> SameLabelTo(node.cast, j)
  {
    EveryRunInv(links, steps);
    EveryRunListsOk(links, steps);
    EveryRunOwnLists(links, steps);
    SeesOwnIffAt(Network(links, steps).nodes, a, j);
  }

  lemma SeesOwnByNumber(nodes: seq<Node>, a: nat, j: nat)
    requires NodesOk(nodes) && Genuine(nodes) && a < |nodes| && j < |nodes[a].cast|
    ensures SeesOwn(nodes[a], a, j) <==> j <= BucketOf(nodes[a], a, nodes[a].cast[j].lbl).lastSeqSeen
  {
    assert NodeOk(nodes[a], a);
    assert Holds(nodes[a], VoteBody(nodes[a].cast[j]));
    FoundIsCast(nodes, a, a, j);
  }

  lemma CounterReaches(b: Bucket, cast: seq<Vote>, j: nat)
    requires j < |cast| && OwnList(b, cast, cast[j].lbl) && SameLabelTo(cast, j)
    ensures j <= b.lastSeqSeen
  {
  }

  lemma SeesOwnIffAt(nodes: seq<Node>, a: nat, j: nat)
    requires NodesOk(nodes) && Genuine(nodes) && AllOwnListsOk(nodes) && a < |nodes| && ListsOk(nodes[a], |nodes|)
    requires j < |nodes[a].cast|
    ensures SeesOwn(nodes[a], a, j) <==> SameLabelTo(nodes[a].cast, j)
  {
    var cast := nodes[a].cast;
    var b := BucketOf(nodes[a], a, cast[j].lbl);
    assert OwnListsOk(nodes[a], a) && BucketOk(b) && OwnList(b, cast, cast[j].lbl);
    SeesOwnByNumber(nodes, a, j);
    if SameLabelTo(cast, j) {
      CounterReaches(b, cast, j);
    }
    if j <= b.lastSeqSeen {
      forall i | 1 <= i < j ensures cast[i].lbl == cast[j].lbl {
        CountedHaveLabel(nodes, a, a, cast[j].lbl, i);
      }
    }
  }

  /** One node without peers. */
  const ALONE: Links := [[]]

  function InjectThree(t0: Tx, t1: Tx, t2: Tx, digests: seq<Hash>): seq<Step>
    requires |digests| == 3
  {
    [Inject(0, t0, digests[0])] + [Inject(0, t1, digests[1])] + [Inject(0, t2, digests[2])]
  }

  lemma InjectedAlone(steps: seq<Step>, txs: seq<Tx>, tx: Tx, digest: Hash)
    requires Network(ALONE, steps).nodes[0].wendy.txs == txs && !Contains(txs, tx.hash)
    ensures Network(ALONE, steps + [Inject(0, tx, digest)]).nodes[0].wendy.txs == txs + [tx]
  {
    assert |ALONE| == 1;
    var net := Network(ALONE, steps);
    assert Network(ALONE, steps + [Inject(0, tx, digest)]) == Take(ALONE, net, Inject(0, tx, digest));
  }

  lemma {:induction false} ThreeAreHeld(t0: Tx, t1: Tx, t2: Tx, digests: seq<Hash>)
    requires |digests| == 3 && t0.hash != t1.hash && t0.hash != t2.hash && t1.hash != t2.hash
    ensures Network(ALONE, InjectThree(t0, t1, t2, digests)).nodes[0].wendy.txs == [t0] + [t1] + [t2]
  {
    var s0, s1 := [Inject(0, t0, digests[0])], [Inject(0, t1, digests[1])];
    assert [] + s0 == s0 && [] + [t0] == [t0];
    NotContained([], t0);
    NotContained([t0], t1);
    NotContained([t0] + [t1], t2);
    InjectedAlone([], [], t0, digests[0]);
    InjectedAlone(s0, [t0], t1, digests[1]);
    InjectedAlone(s0 + s1, [t0] + [t1], t2, digests[2]);
  }

  lemma NotContained(txs: seq<Tx>, tx: Tx)
    requires forall i :: 0 <= i < |txs| ==> txs[i].hash != tx.hash
    ensures !Contains(txs, tx.hash)
  {
  }

  /** Two transactions of one label and one of another: the last one is voted for and never seen. */
  lemma {:induction false} ThirdIsUnseen(t0: Tx, t1: Tx, t2: Tx, digests: seq<Hash>)
    requires |digests| == 3 && t0.hash != t1.hash && t0.hash != t2.hash && t1.hash != t2.hash
    requires t0.lbl == t1.lbl != t2.lbl
    ensures WellFormed(ALONE)
    ensures var node := Network(ALONE, InjectThree(t0, t1, t2, digests)).nodes[0];
            && node.wendy.txs == [t0] + [t1] + [t2] && |node.cast| == 3
            && SeesOwn(node, 0, 1) && !SeesOwn(node, 0, 2)
  {
    ThreeAreHeld(t0, t1, t2, digests);
    LastIsUnseen(InjectThree(t0, t1, t2, digests), t0, t1, t2);
  }

  lemma {:induction false} LastIsUnseen(steps: seq<Step>, t0: Tx, t1: Tx, t2: Tx)
    requires Network(ALONE, steps).nodes[0].wendy.txs == [t0] + [t1] + [t2] && t1.lbl != t2.lbl
    ensures var node := Network(ALONE, steps).nodes[0];
            |node.cast| == 3 && SeesOwn(node, 0, 1) && !SeesOwn(node, 0, 2)
  {
    EveryRunInv(ALONE, steps);
    var node := Network(ALONE, steps).nodes[0];
    assert NodeOk(node, 0);
    LabelsOf(node.cast, t0, t1, t2);
    SeesOwnIff(ALONE, steps, 0, 1);
    SeesOwnIff(ALONE, steps, 0, 2);
  }

  lemma LabelsOf(cast: seq<Vote>, t0: Tx, t1: Tx, t2: Tx)
    requires VotesFor(cast, [t0] + [t1] + [t2], 0)
    ensures |cast| == 3 && cast[1].lbl == t1.lbl && cast[2].lbl == t2.lbl
  {
    var txs := [t0] + [t1] + [t2];
    assert txs[1] == t1 && txs[2] == t2;
  }
}
