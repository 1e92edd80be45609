/** Whom a node passes what on to, and whom it does not. */
module Forwarding {
  import opened Types
  import opened Buckets
  import opened PendingTxs
  import opened Gossip

  function Count<T(==)>(s: seq<T>, x: T): nat {
    if s == [] then 0 else Count(s[..|s| - 1], x) + if s[|s| - 1] == x then 1 else 0
  }

  lemma CountSnoc<T>(s: seq<T>, y: T, x: T)
    ensures Count(s + [y], x) == Count(s, x) + if y == x then 1 else 0
  {
    assert (s + [y])[..|s|] == s;
  }

  /** One message for every link to a peer outside skip, and no other message. */
  lemma {:induction false} BroadcastCounts(peers: seq<nat>, me: nat, skip: set<nat>, body: Body, m: Msg)
    ensures Count(Broadcast(peers, me, skip, body), m) ==
            if m.from == me && m.body == body && m.to !in skip then Count(peers, m.to) else 0
  {
    if peers == [] {
    } else {
      var n := |peers| - 1;
      var out := Broadcast(peers[..n], me, skip, body);
      BroadcastCounts(peers[..n], me, skip, body, m);
      CountSnoc(out, Msg(peers[n], me, body), m);
      assert out + [] == out;
    }
  }

  /** A message of node `me` for one of its peers. */
  predicate FromTo(m: Msg, me: nat, peers: seq<nat>, body: Body) {
    m.from == me && m.body == body && m.to in peers
  }

  /**
   A vote that is new to a node goes to each of its peers except the one it came
   from and the author; any other vote goes nowhere.
   */
  lemma VoteIsPassedOn(peers: seq<nat>, me: nat, node: Node, from: nat, v: Vote, m: Msg)
    ensures var sent := HandleVote(peers, me, node, from, v).sent;
            if Receive(BucketOf(node, v.pubkey, v.lbl), v).reply == Added then
              && (m in sent <==> FromTo(m, me, peers, VoteBody(v)) && m.to != from && m.to != v.pubkey)
              && (m in sent ==> Count(sent, m) == Count(peers, m.to))
            else sent == []
  {
    BroadcastCounts(peers, me, {from, v.pubkey}, VoteBody(v), m);
    BroadcastIs(peers, me, {from, v.pubkey}, VoteBody(v), m);
  }

  /**
   A transaction that is new to a node goes to each of its peers except the one
   it came from, and the node's own vote for it to each of its peers, that one
   included; a known one goes nowhere.
   */
  lemma TxIsPassedOn(nodes: seq<Node>, q: nat, tx: Tx, digest: Hash, peers: seq<nat>, from: nat, m: Msg)
    requires NodesOk(nodes) && Genuine(nodes) && q < |nodes|
    ensures var sent := HandleTx(peers, q, nodes[q], from, tx, digest).sent;
            var v := NextVote(q, nodes[q], tx, digest);
            if Contains(nodes[q].wendy.txs, tx.hash) then sent == []
            else m in sent <==>
              || (FromTo(m, q, peers, TxBody(tx)) && m.to != from)
              || (FromTo(m, q, peers, VoteBody(v)) && m.to != q)
  {
    if !Contains(nodes[q].wendy.txs, tx.hash) {
      TxArrives(nodes, q, tx, digest, peers, from);
      BroadcastIs(peers, q, {from}, TxBody(tx), m);
      BroadcastIs(peers, q, {q}, VoteBody(NextVote(q, nodes[q], tx, digest)), m);
    }
  }

  // ---------- laws of every run ----------

  /** What a handler sends: no vote to its author, and to the node a message came from nothing that it carried. */
  lemma NothingSentBack(links: Links, net: Net, st: Step, m: Msg)
    requires Inv(links, net) && Enabled(net, st) && m in Handle(links, net, st).sent
    ensures m.from == Target(st)
    ensures m.body.VoteBody? ==> m.to != m.body.vote.pubkey
    ensures st.Deliver? && m.body == st.msg.body ==> m.to != st.msg.from
  {
    var q := Target(st);
    match st
    case Inject(at, tx, digest) => TxIsPassedOn(net.nodes, at, tx, digest, links[at], at, m);
    case Deliver(d, digest) =>
      match d.body
      case TxBody(tx) => TxIsPassedOn(net.nodes, q, tx, digest, links[q], d.from, m);
      case VoteBody(v) => VoteIsPassedOn(links[q], q, net.nodes[q], d.from, v, m);
  }

  ghost predicate NoVoteToAuthor(flight: multiset<Msg>) {
    forall m :: m in flight && m.body.VoteBody? ==> m.to != m.body.vote.pubkey
  }

  lemma StepSendsNoVoteToAuthor(links: Links, net: Net, st: Step)
    requires Inv(links, net) && NoVoteToAuthor(net.flight)
    ensures NoVoteToAuthor(Take(links, net, st).flight)
  {
    if Enabled(net, st) {
      var sent := Handle(links, net, st).sent;
      forall m | m in Take(links, net, st).flight && m.body.VoteBody? ensures m.to != m.body.vote.pubkey {
        if m in sent {
          NothingSentBack(links, net, st, m);
        } else {
          assert m in net.flight;
        }
      }
    }
  }

  /** In every run no vote in flight is on its way to its author. */
  lemma {:induction false} NoVoteReturns(links: Links, steps: seq<Step>)
    requires WellFormed(links)
    ensures NoVoteToAuthor(Network(links, steps).flight)
  {
    if steps == [] {
    } else {
      var before := steps[..|steps| - 1];
      NoVoteReturns(links, before);
      EveryRunInv(links, before);
      StepSendsNoVoteToAuthor(links, Network(links, before), steps[|steps| - 1]);
    }
  }

  /** In every run, handling a message sends nothing that it carried back to the node it came from. */
  lemma {:induction false} NothingReturns(links: Links, steps: seq<Step>, d: Msg, digest: Hash, m: Msg)
    requires WellFormed(links) && Enabled(Network(links, steps), Deliver(d, digest))
    requires m in Handle(links, Network(links, steps), Deliver(d, digest)).sent && m.body == d.body
    ensures m.from == d.to && m.to != d.from
  {
    EveryRunInv(links, steps);
    NothingSentBack(links, Network(links, steps), Deliver(d, digest), m);
  }
}
