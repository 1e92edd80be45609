/**
 Two nodes, three transactions: a run that ends with nothing in flight and with
 the nodes disagreeing on whether a transaction is blocked.
 */
module Disagreement {
  import opened Types
  import opened FiniteSets
  import opened Buckets
  import opened Delivery
  import opened Preference
  import opened Quorums
  import opened Closure
  import opened PendingTxs
  import opened Fairness
  import opened Gossip
  import opened Holdings
  import opened Quiescence

  const PAIR: Links := [[1], [0]]

  lemma PairIsConnected()
    ensures WellFormed(PAIR) && StronglyConnected(PAIR)
  {
    var e := LinkEdges(PAIR);
    assert PAIR[0][0] == 1 && PAIR[1][0] == 0;
    assert (0, 1) in e && (1, 0) in e;
    ReachesSelf(e, 0);
    ReachesSelf(e, 1);
    ReachesByEdge(e, 0, 1);
    ReachesByEdge(e, 1, 0);
  }

  /** Transactions of one label, and the votes that the two nodes cast for them. */
  datatype Plan = Plan(ts: seq<Tx>, lbl: Label, cast: seq<seq<Vote>>)

  predicate Ballots(cast: seq<Vote>, ts: seq<Tx>, a: nat) {
    && Chain(cast) && VotesFor(cast, ts, a)
    && (cast != [] ==> cast[0].prevHash == 0)
  }

  predicate Sound(p: Plan) {
    && Distinct(p.ts) && (forall i :: 0 <= i < |p.ts| ==> p.ts[i].lbl == p.lbl)
    && |p.cast| == 2 && Ballots(p.cast[0], p.ts, 0) && Ballots(p.cast[1], p.ts, 1)
  }

  /** Nothing is said of the digests of the votes. */
  type Scene = p: Plan | Sound(p) witness Plan([], "", [[], []])

  function VoteOf(s: Scene, a: nat, i: nat): Vote
    requires a < 2 && i < |s.ts|
  {
    s.cast[a][i]
  }

  function VotesOf(s: Scene, a: nat, k: nat): (votes: seq<Vote>)
    requires a < 2 && k <= |s.ts|
    ensures |votes| == k && forall i :: 0 <= i < k ==> votes[i] == VoteOf(s, a, i)
  {
    s.cast[a][..k]
  }

  /** The first k votes of an author, received in order. */
  function InLine(s: Scene, a: nat, k: nat): Bucket
    requires a < 2 && k <= |s.ts|
  {
    Bucket(VotesOf(s, a, k), if k == 0 then 0 else k - 1, {})
  }

  lemma NextReceived(s: Scene, a: nat, k: nat)
    requires a < 2 && k < |s.ts|
    ensures Receive(InLine(s, a, k), VoteOf(s, a, k)) == Receipt(InLine(s, a, k + 1), Added)
  {
    var vs, v := VotesOf(s, a, k), VoteOf(s, a, k);
    assert VotesOf(s, a, k + 1) == vs + [v];
    if k == 0 {
      assert Advance([v], 1, 0) == 0;
      assert vs + [v] == [v];
    } else {
      assert LastAtMost(vs, k) == k - 1;
      NextInLine(InLine(s, a, k), v);
    }
  }

  /** Node a has taken in the first k transactions and voted for them. */
  predicate Ready(node: Node, a: nat, s: Scene, k: nat)
    requires a < 2 && k <= |s.ts|
  {
    && node.wendy.txs == s.ts[..k] && node.seqNo == k
    && node.lastVote == (if k == 0 then None else Some(VoteOf(s, a, k - 1)))
    && BucketOf(node, a, s.lbl) == InLine(s, a, k)
  }

  lemma TxTaken(node: Node, a: nat, c: nat, s: Scene, k: nat, peers: seq<nat>, from: nat)
    requires a < 2 && k < |s.ts| && Ready(node, a, s, k) && a != c
    ensures var o := HandleTx(peers, a, node, from, s.ts[k], VoteOf(s, a, k).digest);
            && Ready(o.node, a, s, k + 1) && BucketOf(o.node, c, s.lbl) == BucketOf(node, c, s.lbl)
            && o.sent == Broadcast(peers, a, {from}, TxBody(s.ts[k])) + Broadcast(peers, a, {a}, VoteBody(VoteOf(s, a, k)))
  {
    var v := VoteOf(s, a, k);
    var voted := Voted(a, node, s.ts[k], v.digest);
    assert !Contains(node.wendy.txs, s.ts[k].hash);
    assert NextVote(a, node, s.ts[k], v.digest) == v;
    assert voted.wendy.txs == s.ts[..k + 1];
    assert {a, a} == {a};
    NextReceived(s, a, k);
    VoteChanges(peers, a, voted, a, v, a, s.lbl);
    VoteChanges(peers, a, voted, a, v, c, s.lbl);
  }

  /** A vote of author c reaches node a. */
  lemma VoteHeard(node: Node, a: nat, c: nat, s: Scene, k: nat, peers: seq<nat>, v: Vote)
    requires a < 2 && k <= |s.ts| && Ready(node, a, s, k) && a != c && v.pubkey == c && v.lbl == s.lbl && peers == [c]
    ensures var o := HandleVote(peers, a, node, c, v);
            && Ready(o.node, a, s, k) && o.sent == []
            && BucketOf(o.node, c, s.lbl) == Receive(BucketOf(node, c, s.lbl), v).bucket
  {
    VoteChanges(peers, a, node, c, v, a, s.lbl);
    VoteChanges(peers, a, node, c, v, c, s.lbl);
    assert Broadcast([c][..0], a, {c, v.pubkey}, VoteBody(v)) == [];
    assert Broadcast([c], a, {c, v.pubkey}, VoteBody(v)) == [];
  }

  // ---------- the run, round by round ----------

  function TxMsg(s: Scene, i: nat): Msg
    requires i < |s.ts|
  {
    Msg(1, 0, TxBody(s.ts[i]))
  }

  /** Author a's vote i on its way to the other node. */
  function VoteMsg(s: Scene, a: nat, i: nat): Msg
    requires a <= 1 && i < |s.ts|
  {
    Msg(1 - a, a, VoteBody(VoteOf(s, a, i)))
  }

  /** Transaction k is injected at node 0, and reaches node 1; the digests are those of the votes cast for it. */
  function InjectOf(s: Scene, k: nat): Step
    requires k < |s.ts|
  {
    Inject(0, s.ts[k], VoteOf(s, 0, k).digest)
  }

  function DeliverOf(s: Scene, k: nat): Step
    requires k < |s.ts|
  {
    Deliver(TxMsg(s, k), VoteOf(s, 1, k).digest)
  }

  /** Node 0's first k votes, all on their way to node 1. */
  function Held(s: Scene, k: nat): multiset<Msg>
    requires k <= |s.ts|
  {
    if k == 0 then multiset{} else Held(s, k - 1) + multiset{VoteMsg(s, 0, k - 1)}
  }

  /**
   Node 0 has taken in k0 transactions, node 1 k1 of them, node 0 has heard of
   `heard` votes of node 1, and node 1 of no vote of node 0.
   */
  predicate Shape(net: Net, s: Scene, k0: nat, k1: nat, heard: nat, more: multiset<Msg>) {
    && |net.nodes| == 2 && k0 <= |s.ts| && k1 <= |s.ts| && heard <= |s.ts|
    && Ready(net.nodes[0], 0, s, k0) && Ready(net.nodes[1], 1, s, k1)
    && BucketOf(net.nodes[0], 1, s.lbl) == InLine(s, 1, heard)
    && BucketOf(net.nodes[1], 0, s.lbl) == EMPTY
    && net.flight == Held(s, k0) + more
  }

  lemma One(to: nat, me: nat, skip: set<nat>, body: Body)
    ensures Broadcast([to], me, skip, body) == if to in skip then [] else [Msg(to, me, body)]
  {
    assert Broadcast([to][..0], me, skip, body) == [];
  }

  lemma InjectTx(net: Net, s: Scene, k: nat)
    requires k < |s.ts| && Shape(net, s, k, k, k, multiset{})
    ensures Shape(Take(PAIR, net, InjectOf(s, k)), s, k + 1, k, k, multiset{TxMsg(s, k)})
  {
    var o := HandleTx([1], 0, net.nodes[0], 0, s.ts[k], VoteOf(s, 0, k).digest);
    FirstTakesTx(net.nodes[0], s, k);
    TwoMore(Held(s, k), TxMsg(s, k), VoteMsg(s, 0, k));
    var net' := After(net, 0, o.node, multiset{}, o.sent);
    assert Take(PAIR, net, InjectOf(s, k)) == net';
    FirstChanged(net, net', s, k, multiset{TxMsg(s, k)});
  }

  lemma FirstTakesTx(node: Node, s: Scene, k: nat)
    requires k < |s.ts| && Ready(node, 0, s, k)
    ensures var o := HandleTx([1], 0, node, 0, s.ts[k], VoteOf(s, 0, k).digest);
            && Ready(o.node, 0, s, k + 1) && BucketOf(o.node, 1, s.lbl) == BucketOf(node, 1, s.lbl)
            && o.sent == [TxMsg(s, k), VoteMsg(s, 0, k)]
  {
    TxTaken(node, 0, 1, s, k, [1], 0);
    ForwardSent(s, k);
  }

  lemma FirstChanged(net: Net, net': Net, s: Scene, k: nat, more: multiset<Msg>)
    requires k < |s.ts| && Shape(net, s, k, k, k, multiset{})
    requires |net'.nodes| == 2 && net'.nodes[1] == net.nodes[1] && net'.flight == Held(s, k) + multiset{VoteMsg(s, 0, k)} + more
    requires Ready(net'.nodes[0], 0, s, k + 1) && BucketOf(net'.nodes[0], 1, s.lbl) == InLine(s, 1, k)
    ensures Shape(net', s, k + 1, k, k, more)
  {
  }

  lemma ForwardSent(s: Scene, k: nat)
    requires k < |s.ts|
    ensures Broadcast([1], 0, {0}, TxBody(s.ts[k])) + Broadcast([1], 0, {0}, VoteBody(VoteOf(s, 0, k))) ==
            [TxMsg(s, k), VoteMsg(s, 0, k)]
  {
    One(1, 0, {0}, TxBody(s.ts[k]));
    One(1, 0, {0}, VoteBody(VoteOf(s, 0, k)));
  }

  lemma TwoMore(flight: multiset<Msg>, m: Msg, m': Msg)
    ensures flight + multiset{} - multiset{} + multiset([m, m']) == flight + multiset{m'} + multiset{m}
  {
    assert [m, m'] == [m] + [m'];
  }

  lemma DeliverTx(net: Net, s: Scene, k: nat)
    requires k < |s.ts| && Shape(net, s, k + 1, k, k, multiset{TxMsg(s, k)})
    ensures Shape(Take(PAIR, net, DeliverOf(s, k)), s, k + 1, k + 1, k, multiset{VoteMsg(s, 1, k)})
  {
    var o, m := HandleTx([0], 1, net.nodes[1], 0, s.ts[k], VoteOf(s, 1, k).digest), TxMsg(s, k);
    SecondTakesTx(net.nodes[1], s, k);
    Exchange(Held(s, k + 1), m, VoteMsg(s, 1, k));
    var net' := After(net, 1, o.node, multiset{m}, o.sent);
    assert Take(PAIR, net, DeliverOf(s, k)) == net';
    SecondChanged(net, net', s, k, multiset{VoteMsg(s, 1, k)}, multiset{m});
  }

  lemma SecondTakesTx(node: Node, s: Scene, k: nat)
    requires k < |s.ts| && Ready(node, 1, s, k) && BucketOf(node, 0, s.lbl) == EMPTY
    ensures var o := HandleTx([0], 1, node, 0, s.ts[k], VoteOf(s, 1, k).digest);
            && Ready(o.node, 1, s, k + 1) && BucketOf(o.node, 0, s.lbl) == EMPTY
            && o.sent == [VoteMsg(s, 1, k)]
  {
    TxTaken(node, 1, 0, s, k, [0], 0);
    BackSent(s, k);
  }

  lemma SecondChanged(net: Net, net': Net, s: Scene, k: nat, more: multiset<Msg>, had: multiset<Msg>)
    requires k < |s.ts| && Shape(net, s, k + 1, k, k, had)
    requires |net'.nodes| == 2 && net'.nodes[0] == net.nodes[0] && net'.flight == Held(s, k + 1) + more
    requires Ready(net'.nodes[1], 1, s, k + 1) && BucketOf(net'.nodes[1], 0, s.lbl) == EMPTY
    ensures Shape(net', s, k + 1, k + 1, k, more)
  {
  }

  lemma Exchange(flight: multiset<Msg>, m: Msg, m': Msg)
    ensures flight + multiset{m} - multiset{m} + multiset([m']) == flight + multiset{m'}
    ensures m in flight + multiset{m}
  {
  }

  lemma BackSent(s: Scene, k: nat)
    requires k < |s.ts|
    ensures Broadcast([0], 1, {0}, TxBody(s.ts[k])) + Broadcast([0], 1, {1}, VoteBody(VoteOf(s, 1, k))) == [VoteMsg(s, 1, k)]
  {
    One(0, 1, {0}, TxBody(s.ts[k]));
    One(0, 1, {1}, VoteBody(VoteOf(s, 1, k)));
  }

  lemma DeliverBack(net: Net, s: Scene, k: nat)
    requires k < |s.ts| && Shape(net, s, k + 1, k + 1, k, multiset{VoteMsg(s, 1, k)})
    ensures Shape(Take(PAIR, net, Deliver(VoteMsg(s, 1, k), 0)), s, k + 1, k + 1, k + 1, multiset{})
  {
    VoteHeard(net.nodes[0], 0, 1, s, k + 1, [1], VoteOf(s, 1, k));
    NextReceived(s, 1, k);
  }

  /** A transaction is injected at node 0, reaches node 1, and node 1's vote comes back. */
  function Round(s: Scene, k: nat): seq<Step>
    requires k < |s.ts|
  {
    [InjectOf(s, k)] + [DeliverOf(s, k)] + [Deliver(VoteMsg(s, 1, k), 0)]
  }

  lemma {:induction false} ThreeSteps(links: Links, steps: seq<Step>, s1: Step, s2: Step, s3: Step)
    ensures Network(links, steps + ([s1] + [s2] + [s3])) ==
            Take(links, Take(links, Take(links, Network(links, steps), s1), s2), s3)
  {
    SnocThree(steps, s1, s2, s3);
    NetworkSnoc(links, steps, s1);
    NetworkSnoc(links, steps + [s1], s2);
    NetworkSnoc(links, steps + [s1] + [s2], s3);
  }

  lemma SnocThree(steps: seq<Step>, s1: Step, s2: Step, s3: Step)
    ensures steps + ([s1] + [s2] + [s3]) == steps + [s1] + [s2] + [s3]
  {
  }

  lemma NetworkSnoc(links: Links, steps: seq<Step>, st: Step)
    ensures Network(links, steps + [st]) == Take(links, Network(links, steps), st)
  {
  }

  ghost predicate Rounds(steps: seq<Step>, s: Scene, k: nat) {
    Shape(Network(PAIR, steps), s, k, k, k, multiset{})
  }

  lemma NoRounds(s: Scene)
    ensures Rounds([], s, 0)
  {
    assert |PAIR| == 2;
    assert s.ts[..0] == [];
  }

  lemma SomeRounds(s: Scene, k: nat) returns (steps: seq<Step>)
    requires k <= |s.ts|
    ensures Rounds(steps, s, k)
  {
    steps := [];
    NoRounds(s);
    for i := 0 to k
      invariant Rounds(steps, s, i)
    {
      OneRound(steps, s, i);
      steps := steps + Round(s, i);
    }
  }

  lemma {:induction false} OneRound(steps: seq<Step>, s: Scene, k: nat)
    requires k < |s.ts| && Rounds(steps, s, k)
    ensures Rounds(steps + Round(s, k), s, k + 1)
  {
    ThreeSteps(PAIR, steps, InjectOf(s, k), DeliverOf(s, k), Deliver(VoteMsg(s, 1, k), 0));
    WholeRound(Network(PAIR, steps), s, k);
  }

  lemma WholeRound(net: Net, s: Scene, k: nat)
    requires k < |s.ts| && Shape(net, s, k, k, k, multiset{})
    ensures var net1 := Take(PAIR, net, InjectOf(s, k));
            var net2 := Take(PAIR, net1, DeliverOf(s, k));
            Shape(Take(PAIR, net2, Deliver(VoteMsg(s, 1, k), 0)), s, k + 1, k + 1, k + 1, multiset{})
  {
    InjectTx(net, s, k);
    var net1 := Take(PAIR, net, InjectOf(s, k));
    DeliverTx(net1, s, k);
    DeliverBack(Take(PAIR, net1, DeliverOf(s, k)), s, k);
  }

  // ---------- node 0's votes arrive late and out of order ----------

  predicate Waiting(net: Net, s: Scene, got: Bucket, flight: multiset<Msg>) {
    && |net.nodes| == 2 && net.flight == flight
    && Ready(net.nodes[0], 0, s, |s.ts|) && Ready(net.nodes[1], 1, s, |s.ts|)
    && BucketOf(net.nodes[0], 1, s.lbl) == InLine(s, 1, |s.ts|)
    && BucketOf(net.nodes[1], 0, s.lbl) == got
  }

  lemma DeliverLate(net: Net, s: Scene, i: nat, got: Bucket, flight: multiset<Msg>)
    requires i < |s.ts| && VoteMsg(s, 0, i) in flight && Waiting(net, s, got, flight)
    ensures Waiting(Take(PAIR, net, Deliver(VoteMsg(s, 0, i), 0)), s, Receive(got, VoteOf(s, 0, i)).bucket,
                    flight - multiset{VoteMsg(s, 0, i)})
  {
    VoteHeard(net.nodes[1], 1, 0, s, |s.ts|, [0], VoteOf(s, 0, i));
  }

  /** Node 0's votes 2, 0 and 1 reach node 1 in this order. */
  function LateVotesOf(s: Scene): seq<Step>
    requires |s.ts| == 3
  {
    [Deliver(VoteMsg(s, 0, 2), 0)] + [Deliver(VoteMsg(s, 0, 0), 0)] + [Deliver(VoteMsg(s, 0, 1), 0)]
  }

  /** What node 1 then has of node 0: the counter has not got to vote 2. */
  function LateBucket(s: Scene): Bucket
    requires |s.ts| == 3
  {
    Bucket([VoteOf(s, 0, 2), VoteOf(s, 0, 0), VoteOf(s, 0, 1)], 1, {})
  }

  lemma {:induction false} AfterLateVotes(steps: seq<Step>, s: Scene)
    requires |s.ts| == 3 && Rounds(steps, s, 3)
    ensures Waiting(Network(PAIR, steps + LateVotesOf(s)), s, LateBucket(s), multiset{})
  {
    var s0, s1, s2 := Deliver(VoteMsg(s, 0, 0), 0), Deliver(VoteMsg(s, 0, 1), 0), Deliver(VoteMsg(s, 0, 2), 0);
    ThreeSteps(PAIR, steps, s2, s0, s1);
    AllWaiting(Network(PAIR, steps), s);
    ThreeLateVotes(Network(PAIR, steps), s);
  }

  lemma AllWaiting(net: Net, s: Scene)
    requires |s.ts| == 3 && Shape(net, s, 3, 3, 3, multiset{})
    ensures Waiting(net, s, EMPTY, multiset{VoteMsg(s, 0, 0), VoteMsg(s, 0, 1), VoteMsg(s, 0, 2)})
  {
    var m0, m1, m2 := VoteMsg(s, 0, 0), VoteMsg(s, 0, 1), VoteMsg(s, 0, 2);
    assert Held(s, 0) == multiset{};
    assert Held(s, 1) == multiset{m0};
    assert Held(s, 2) == multiset{m0, m1};
    assert Held(s, 3) == multiset{m0, m1, m2};
  }

  lemma ThreeLateVotes(net: Net, s: Scene)
    requires |s.ts| == 3
    requires Waiting(net, s, EMPTY, multiset{VoteMsg(s, 0, 0), VoteMsg(s, 0, 1), VoteMsg(s, 0, 2)})
    ensures var net1 := Take(PAIR, net, Deliver(VoteMsg(s, 0, 2), 0));
            var net2 := Take(PAIR, net1, Deliver(VoteMsg(s, 0, 0), 0));
            Waiting(Take(PAIR, net2, Deliver(VoteMsg(s, 0, 1), 0)), s, LateBucket(s), multiset{})
  {
    var m0, m1, m2 := VoteMsg(s, 0, 0), VoteMsg(s, 0, 1), VoteMsg(s, 0, 2);
    LateVotes(VoteOf(s, 0, 0), VoteOf(s, 0, 1), VoteOf(s, 0, 2));
    var net1 := Take(PAIR, net, Deliver(m2, 0));
    var b1 := Receive(EMPTY, VoteOf(s, 0, 2)).bucket;
    DeliverLate(net, s, 2, EMPTY, multiset{m0, m1, m2});
    LastTwoLate(net1, s, b1);
  }

  lemma LastTwoLate(net: Net, s: Scene, b: Bucket)
    requires |s.ts| == 3 && Waiting(net, s, b, multiset{VoteMsg(s, 0, 0), VoteMsg(s, 0, 1)})
    ensures var b' := Receive(Receive(b, VoteOf(s, 0, 0)).bucket, VoteOf(s, 0, 1)).bucket;
            Waiting(Take(PAIR, Take(PAIR, net, Deliver(VoteMsg(s, 0, 0), 0)), Deliver(VoteMsg(s, 0, 1), 0)), s, b', multiset{})
  {
    var m0, m1 := VoteMsg(s, 0, 0), VoteMsg(s, 0, 1);
    DeliverLate(net, s, 0, b, multiset{m0, m1});
    DeliverLate(Take(PAIR, net, Deliver(m0, 0)), s, 1, Receive(b, VoteOf(s, 0, 0)).bucket, multiset{m1});
  }

  lemma LateVotes(v0: Vote, v1: Vote, v2: Vote)
    requires v0.seqNo == 0 && v1.seqNo == 1 && v2.seqNo == 2 && v0.digest == v1.prevHash
    ensures var b := Receive(Receive(EMPTY, v2).bucket, v0).bucket;
            Receive(b, v1).bucket == Bucket([v2, v0, v1], 1, {})
  {
    FirstVote(v2);
    assert Receive(EMPTY, v2).bucket == Bucket([v2], 0, {});
    NextInLine(Bucket([v2], 0, {}), v0);
    assert [v2] + [v0] == [v2, v0];
    NextInLine(Bucket([v2, v0], 0, {}), v1);
    assert [v2, v0] + [v1] == [v2, v0, v1];
  }

  lemma InLineIsSeen(s: Scene, a: nat, i: nat)
    requires a < 2 && i < |s.ts|
    ensures Seen(InLine(s, a, |s.ts|), s.ts[i].hash)
  {
    var vs := VotesOf(s, a, |s.ts|);
    assert vs[i].txHash == s.ts[i].hash;
    assert FirstFor(vs, s.ts[i].hash) <= i;
  }

  /** Nothing is in flight, the nodes hold the votes of the scene, and only node 1 still finds the last transaction blocked. */
  ghost predicate Disagree(net: Net, s: Scene)
    requires |s.ts| == 3 && |net.nodes| == 2
  {
    && net.flight == multiset{}
    && BucketOf(net.nodes[0], 0, s.lbl).votes == s.cast[0] && BucketOf(net.nodes[1], 1, s.lbl).votes == s.cast[1]
    && !Blocked(net.nodes[0].wendy.peers, QuorumOf(2), s.ts[2])
    && Blocked(net.nodes[1].wendy.peers, QuorumOf(2), s.ts[2])
  }

  lemma LateIsBlocked(net: Net, s: Scene)
    requires |s.ts| == 3 && AllListsOk(net, 2)
    requires Waiting(net, s, LateBucket(s), multiset{})
    ensures Disagree(net, s)
  {
    var peers0 := net.nodes[0].wendy.peers;
    BothSeen(net.nodes[0], s);
    SubsetCount({0, 1}, SeenBackers(peers0, s.ts[2]));
    FirstForUnique(LateBucket(s).votes, s.ts[2].hash, 0);
    OneSeen(net.nodes[1], s.ts[2]);
    assert VotesOf(s, 0, 3) == s.cast[0] && VotesOf(s, 1, 3) == s.cast[1];
  }

  /**
   Whatever digests the six votes have, a run in which the nodes cast them, on
   a strongly connected network, ends in disagreement.
   */
  lemma {:induction false} BlockedDiffers(s: Scene) returns (steps: seq<Step>)
    requires |s.ts| == 3
    ensures WellFormed(PAIR) && StronglyConnected(PAIR) && |PAIR| == 2
    ensures Disagree(Network(PAIR, steps), s)
  {
    PairIsConnected();
    assert |PAIR| == 2;
    var before := SomeRounds(s, 3);
    steps := before + LateVotesOf(s);
    AfterLateVotes(before, s);
    EveryRunListsOk(PAIR, steps);
    LateIsBlocked(Network(PAIR, steps), s);
  }

  lemma OneSeen(node: Node, tx: Tx)
    requires ListsOk(node, 2) && !Seen(BucketOf(node, 0, tx.lbl), tx.hash)
    ensures Blocked(node.wendy.peers, QuorumOf(2), tx)
  {
    assert SeenBackers(node.wendy.peers, tx) <= {1};
    SubsetCount(SeenBackers(node.wendy.peers, tx), {1});
  }

  lemma BothSeen(node: Node, s: Scene)
    requires |s.ts| == 3
    requires BucketOf(node, 0, s.lbl) == InLine(s, 0, 3) && BucketOf(node, 1, s.lbl) == InLine(s, 1, 3)
    ensures {0, 1} <= SeenBackers(node.wendy.peers, s.ts[2])
  {
    InLineIsSeen(s, 0, 2);
    InLineIsSeen(s, 1, 2);
  }
}
