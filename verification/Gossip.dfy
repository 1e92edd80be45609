/**
 The simulated network: nodes that flood transactions and votes over an
 arbitrary directed topology, as steps over node states and a multiset of
 messages in flight.
 */
module Gossip {
  import opened Types
  import opened Buckets
  import opened Delivery
  import opened PendingTxs
  import opened Peers
  import E = Engine

  /** links[n] are the nodes that node n sends to. */
  type Links = seq<seq<nat>>

  predicate WellFormed(links: Links) {
    forall n, i :: 0 <= n < |links| && 0 <= i < |links[n]| ==> links[n][i] < |links|
  }

  datatype Body = TxBody(tx: Tx) | VoteBody(vote: Vote)

  datatype Msg = Msg(to: nat, from: nat, body: Body)

  /**
   A node with its engine. `cast` records the votes the node has cast; no
   handler looks at it.
   */
  datatype Node = Node(wendy: E.State, seqNo: nat, lastVote: Option<Vote>, cast: seq<Vote>)

  datatype Net = Net(nodes: seq<Node>, flight: multiset<Msg>)

  datatype Outcome = Outcome(node: Node, sent: seq<Msg>)

  // ---------- the handlers ----------

  /** One message to every peer outside skip. */
  function Broadcast(peers: seq<nat>, me: nat, skip: set<nat>, body: Body): seq<Msg> {
    if peers == [] then []
    else
      var n := |peers| - 1;
      Broadcast(peers[..n], me, skip, body) + if peers[n] in skip then [] else [Msg(peers[n], me, body)]
  }

  /** Exactly one message for each peer outside skip, and no other. */
  lemma {:induction false} BroadcastIs(peers: seq<nat>, me: nat, skip: set<nat>, body: Body, m: Msg)
    ensures m in Broadcast(peers, me, skip, body) <==> m.from == me && m.body == body && m.to in peers && m.to !in skip
  {
    if peers == [] {
    } else {
      var n := |peers| - 1;
      BroadcastIs(peers[..n], me, skip, body, m);
      assert peers == peers[..n] + [peers[n]];
    }
  }

  lemma {:induction false} BroadcastSize(peers: seq<nat>, me: nat, skip: set<nat>, body: Body)
    ensures |Broadcast(peers, me, skip, body)| <= |peers|
  {
    if peers == [] {
    } else {
      BroadcastSize(peers[..|peers| - 1], me, skip, body);
    }
  }

  /** What a node has of one author's votes of one label. */
  function BucketOf(node: Node, author: nat, l: Label): Bucket {
    At(E.ViewOf(node.wendy.peers, author), l)
  }

  /** A vote that is new here is passed on, but not to its sender or its author. */
  function HandleVote(peers: seq<nat>, me: nat, node: Node, from: nat, v: Vote): Outcome {
    Outcome(node.(wendy := E.Step(node.wendy, E.AddVote(v))),
            if Receive(BucketOf(node, v.pubkey, v.lbl), v).reply == Added
            then Broadcast(peers, me, {from, v.pubkey}, VoteBody(v)) else [])
  }

  /** The node's next vote links to its last one. The digest is whatever the vote hashes to. */
  function NextVote(me: nat, node: Node, tx: Tx, digest: Hash): Vote {
    Vote(me, tx.lbl, node.seqNo, tx.hash, if node.lastVote.Some? then node.lastVote.value.digest else 0, digest)
  }

  function Voted(me: nat, node: Node, tx: Tx, digest: Hash): Node {
    var v := NextVote(me, node, tx, digest);
    Node(E.Step(node.wendy, E.AddTx(tx)), node.seqNo + 1, Some(v), node.cast + [v])
  }

  /** A transaction that is new here is passed on and voted for. */
  function HandleTx(peers: seq<nat>, me: nat, node: Node, from: nat, tx: Tx, digest: Hash): Outcome {
    if Contains(node.wendy.txs, tx.hash) then Outcome(node, [])
    else
      var o := HandleVote(peers, me, Voted(me, node, tx, digest), me, NextVote(me, node, tx, digest));
      Outcome(o.node, Broadcast(peers, me, {from}, TxBody(tx)) + o.sent)
  }

  // ---------- steps and runs ----------

  datatype Step =
    | Inject(at: nat, tx: Tx, digest: Hash)
    | Deliver(msg: Msg, digest: Hash)

  predicate Enabled(net: Net, st: Step) {
    match st
    case Inject(at, _, _) => at < |net.nodes|
    case Deliver(m, _) => m in net.flight && m.to < |net.nodes|
  }

  function Handle(links: Links, net: Net, st: Step): Outcome
    requires Enabled(net, st) && |links| == |net.nodes|
  {
    match st
    case Inject(at, tx, digest) => HandleTx(links[at], at, net.nodes[at], at, tx, digest)
    case Deliver(m, digest) =>
      match m.body
      case TxBody(tx) => HandleTx(links[m.to], m.to, net.nodes[m.to], m.from, tx, digest)
      case VoteBody(v) => HandleVote(links[m.to], m.to, net.nodes[m.to], m.from, v)
  }

  function Target(st: Step): nat {
    if st.Inject? then st.at else st.msg.to
  }

  function Consumed(st: Step): multiset<Msg> {
    if st.Inject? then multiset{} else multiset{st.msg}
  }

  /** Node q becomes `node`, the consumed messages are gone and the sent ones are in flight. */
  function After(net: Net, q: nat, node: Node, consumed: multiset<Msg>, sent: seq<Msg>): Net
    requires q < |net.nodes|
  {
    Net(net.nodes[q := node], net.flight - consumed + multiset(sent))
  }

  /** A step that is not enabled changes nothing. */
  function Take(links: Links, net: Net, st: Step): Net {
    if |links| == |net.nodes| && Enabled(net, st) then
      var o := Handle(links, net, st);
      After(net, Target(st), o.node, Consumed(st), o.sent)
    else net
  }

  function Start(n: nat): Net {
    Net(seq(n, _ => Node(E.FRESH, 0, None, [])), multiset{})
  }

  function Network(links: Links, steps: seq<Step>): (net: Net)
    ensures |net.nodes| == |links|
  {
    if steps == [] then Start(|links|)
    else Take(links, Network(links, steps[..|steps| - 1]), steps[|steps| - 1])
  }

  // ---------- the invariant ----------

  /** A node has cast one vote for each transaction it knows, in order, and holds them all. */
  predicate NodeOk(node: Node, n: nat) {
    && Distinct(node.wendy.txs) && Chain(node.cast)
    && node.seqNo == |node.cast|
    && node.lastVote == (if node.cast == [] then None else Some(node.cast[|node.cast| - 1]))
    && VotesFor(node.cast, node.wendy.txs, n)
    && HoldsAll(node, node.cast)
  }

  /** The votes are node n's, one for each transaction in order. */
  predicate VotesFor(cast: seq<Vote>, txs: seq<Tx>, n: nat) {
    && |cast| == |txs|
    && forall i :: 0 <= i < |cast| ==> cast[i].txHash == txs[i].hash && cast[i].lbl == txs[i].lbl && cast[i].pubkey == n
  }

  predicate HoldsAll(node: Node, votes: seq<Vote>) {
    forall i :: 0 <= i < |votes| ==> Holds(node, VoteBody(votes[i]))
  }

  predicate NodesOk(nodes: seq<Node>) {
    forall n :: 0 <= n < |nodes| ==> NodeOk(nodes[n], n)
  }

  /** Everything held as a vote of a, under whatever label, was cast by a under that label. */
  ghost predicate Genuine(nodes: seq<Node>) {
    forall n, a, l :: 0 <= n < |nodes| && 0 <= a < |nodes| ==> GenuineAt(nodes, n, a, l)
  }

  ghost predicate GenuineAt(nodes: seq<Node>, n: nat, a: nat, l: Label)
    requires n < |nodes| && a < |nodes|
  {
    AllCast(BucketOf(nodes[n], a, l), nodes[a].cast, l)
  }

  ghost predicate AllCast(b: Bucket, cast: seq<Vote>, l: Label) {
    AllFromChain(b, cast) && forall x :: x in b.votes ==> x.lbl == l
  }

  predicate Holds(node: Node, body: Body) {
    match body
    case TxBody(tx) => Contains(node.wendy.txs, tx.hash)
    case VoteBody(v) => v in BucketOf(node, v.pubkey, v.lbl).votes
  }

  predicate SameItem(a: Body, b: Body) {
    a == b || (a.TxBody? && b.TxBody? && a.tx.hash == b.tx.hash)
  }

  /** A message comes from a node that holds what it carries. */
  predicate MsgOk(nodes: seq<Node>, m: Msg) {
    && m.to < |nodes| && m.from < |nodes|
    && (m.body.VoteBody? ==> m.body.vote.pubkey < |nodes|)
    && Holds(nodes[m.from], m.body)
  }

  predicate AllOk(nodes: seq<Node>, sent: seq<Msg>) {
    forall m :: m in sent ==> MsgOk(nodes, m)
  }

  predicate AllInFlight(net: Net, sent: seq<Msg>) {
    forall m :: m in sent ==> m in net.flight
  }

  ghost predicate OnItsWay(flight: multiset<Msg>, p: nat, body: Body) {
    exists m :: m in flight && m.to == p && SameItem(m.body, body)
  }

  /** What a node holds, each of its peers holds or will receive. */
  ghost predicate Flooded(links: Links, net: Net)
    requires |links| == |net.nodes|
  {
    forall n, p, body :: 0 <= n < |links| && p in links[n] && Holds(net.nodes[n], body) ==>
      Reached(net, p, body)
  }

  ghost predicate Reached(net: Net, p: nat, body: Body) {
    p < |net.nodes| && (Holds(net.nodes[p], body) || OnItsWay(net.flight, p, body))
  }

  ghost predicate ReachedAll(links: Links, net: Net, q: nat, body: Body)
    requires q < |links|
  {
    forall p :: p in links[q] ==> Reached(net, p, body)
  }

  ghost predicate Inv(links: Links, net: Net) {
    && WellFormed(links) && |links| == |net.nodes|
    && NodesOk(net.nodes) && Genuine(net.nodes)
    && (forall m :: m in net.flight ==> MsgOk(net.nodes, m))
    && Flooded(links, net)
  }

  // ---------- one node changes: what the rest of the invariant needs ----------

  /** Node q now holds what it held, and the new items. */
  ghost predicate Grows(was: Node, now: Node, items: set<Body>) {
    && (forall b :: Holds(was, b) ==> Holds(now, b))
    && (forall b :: Holds(now, b) ==> Holds(was, b) || exists i :: i in items && SameItem(i, b))
  }

  lemma SameItemHeld(node: Node, a: Body, b: Body)
    requires SameItem(a, b)
    ensures Holds(node, a) <==> Holds(node, b)
  {
  }

  lemma MsgsStayOk(nodes: seq<Node>, q: nat, node: Node, m: Msg)
    requires q < |nodes| && MsgOk(nodes, m)
    requires forall b :: Holds(nodes[q], b) ==> Holds(node, b)
    ensures MsgOk(nodes[q := node], m)
  {
  }

  /** A step that passes every new item on to all peers keeps the flood going. */
  lemma FloodGoesOn(links: Links, net: Net, net': Net, q: nat, items: set<Body>)
    requires WellFormed(links) && |links| == |net.nodes| && q < |links| && Flooded(links, net)
    requires |net'.nodes| == |net.nodes| && net'.nodes == net.nodes[q := net'.nodes[q]]
    requires Grows(net.nodes[q], net'.nodes[q], items)
    requires forall m :: m in net.flight ==> m in net'.flight || (m.to == q && Holds(net'.nodes[q], m.body))
    requires forall i :: i in items ==> ReachedAll(links, net', q, i)
    ensures Flooded(links, net')
  {
  }

  lemma BroadcastReaches(net: Net, peers: seq<nat>, me: nat, skip: set<nat>, body: Body, p: nat)
    requires p in peers && p < |net.nodes|
    requires AllInFlight(net, Broadcast(peers, me, skip, body))
    requires p in skip ==> Holds(net.nodes[p], body)
    ensures Reached(net, p, body)
  {
    if p !in skip {
      var m := Msg(p, me, body);
      BroadcastIs(peers, me, skip, body, m);
      assert m in net.flight && m.to == p && SameItem(m.body, body);
    }
  }

  /** A broadcast by a holder reaches all its peers, if those skipped hold the item already. */
  lemma BroadcastReachesAll(links: Links, net: Net, me: nat, skip: set<nat>, body: Body)
    requires WellFormed(links) && |links| == |net.nodes| && me < |links|
    requires AllInFlight(net, Broadcast(links[me], me, skip, body))
    requires forall p :: p in skip && p < |links| ==> Holds(net.nodes[p], body)
    ensures ReachedAll(links, net, me, body)
  {
    forall p | p in links[me] ensures Reached(net, p, body) {
      BroadcastReaches(net, links[me], me, skip, body, p);
    }
  }

  lemma BroadcastIsOk(links: Links, nodes: seq<Node>, me: nat, skip: set<nat>, body: Body)
    requires WellFormed(links) && |links| == |nodes| && me < |links| && Holds(nodes[me], body)
    requires body.VoteBody? ==> body.vote.pubkey < |nodes|
    ensures AllOk(nodes, Broadcast(links[me], me, skip, body))
  {
    forall m | m in Broadcast(links[me], me, skip, body) ensures MsgOk(nodes, m) {
      BroadcastIs(links[me], me, skip, body, m);
    }
  }

  // ---------- a vote arrives ----------

  /** A vote changes one bucket. */
  lemma VoteChanges(peers: seq<nat>, me: nat, node: Node, from: nat, v: Vote, a: nat, l: Label)
    ensures var b, b' := BucketOf(node, a, l), BucketOf(HandleVote(peers, me, node, from, v).node, a, l);
            b' == if a == v.pubkey && l == v.lbl then Receive(b, v).bucket else b
  {
  }

  /** A stored vote is held, as is everything held before, and nothing else. */
  lemma VoteGrows(peers: seq<nat>, me: nat, node: Node, from: nat, v: Vote)
    ensures Grows(node, HandleVote(peers, me, node, from, v).node, {VoteBody(v)})
    ensures v in Receive(BucketOf(node, v.pubkey, v.lbl), v).bucket.votes ==>
              Holds(HandleVote(peers, me, node, from, v).node, VoteBody(v))
  {
    var node', items := HandleVote(peers, me, node, from, v).node, {VoteBody(v)};
    ReceiveKeepsVotes(BucketOf(node, v.pubkey, v.lbl), v);
    forall b: Body | b.VoteBody?
      ensures Holds(node, b) ==> Holds(node', b)
      ensures Holds(node', b) ==> Holds(node, b) || (VoteBody(v) in items && SameItem(VoteBody(v), b))
    {
      VoteChanges(peers, me, node, from, v, b.vote.pubkey, b.vote.lbl);
    }
    VoteChanges(peers, me, node, from, v, v.pubkey, v.lbl);
  }

  lemma HoldsAllStays(was: Node, now: Node, votes: seq<Vote>)
    requires HoldsAll(was, votes) && forall b :: Holds(was, b) ==> Holds(now, b)
    ensures HoldsAll(now, votes)
  {
  }

  /** A vote of one of the nodes is accepted or known, and the bucket holds only genuine votes after it. */
  lemma VoteAccepted(nodes: seq<Node>, q: nat, v: Vote)
    requires NodesOk(nodes) && Genuine(nodes) && q < |nodes| && v.pubkey < |nodes|
    requires FromChain(v, nodes[v.pubkey].cast)
    ensures var b := BucketOf(nodes[q], v.pubkey, v.lbl);
            var r := Receive(b, v);
            && r.reply in {Added, AlreadyHeld} && (r.reply == AlreadyHeld ==> v in b.votes)
            && v in r.bucket.votes && AllCast(r.bucket, nodes[v.pubkey].cast, v.lbl)
  {
    var b := BucketOf(nodes[q], v.pubkey, v.lbl);
    assert NodeOk(nodes[v.pubkey], v.pubkey) && GenuineAt(nodes, q, v.pubkey, v.lbl);
    ChainNeverClashes(b, nodes[v.pubkey].cast, v);
    ReceiveKeepsVotes(b, v);
  }

  lemma VoteKeepsNodeOk(node: Node, q: nat, v: Vote, peers: seq<nat>, from: nat)
    requires NodeOk(node, q)
    ensures NodeOk(HandleVote(peers, q, node, from, v).node, q)
  {
    VoteGrows(peers, q, node, from, v);
    HoldsAllStays(node, HandleVote(peers, q, node, from, v).node, node.cast);
  }

  lemma VoteArrives(nodes: seq<Node>, q: nat, v: Vote, peers: seq<nat>, from: nat)
    requires NodesOk(nodes) && Genuine(nodes) && q < |nodes| && v.pubkey < |nodes|
    requires FromChain(v, nodes[v.pubkey].cast)
    ensures var node, reply := HandleVote(peers, q, nodes[q], from, v).node,
                               Receive(BucketOf(nodes[q], v.pubkey, v.lbl), v).reply;
            && reply in {Added, AlreadyHeld}
            && NodesOk(nodes[q := node]) && Genuine(nodes[q := node])
            && Grows(nodes[q], node, {VoteBody(v)})
            && Holds(node, VoteBody(v))
            && (reply == AlreadyHeld ==> Holds(nodes[q], VoteBody(v)))
  {
    var node := HandleVote(peers, q, nodes[q], from, v).node;
    VoteAccepted(nodes, q, v);
    VoteGrows(peers, q, nodes[q], from, v);
    VoteKeepsNodeOk(nodes[q], q, v, peers, from);
    VoteKeepsNodesOk(nodes, q, node);
    VoteKeepsGenuine(nodes, q, v, peers, from);
  }

  lemma VoteKeepsNodesOk(nodes: seq<Node>, q: nat, node: Node)
    requires NodesOk(nodes) && q < |nodes| && NodeOk(node, q)
    ensures NodesOk(nodes[q := node])
  {
    var nodes' := nodes[q := node];
    forall n | 0 <= n < |nodes| ensures NodeOk(nodes'[n], n) {
      assert NodeOk(nodes[n], n);
    }
  }

  lemma VoteKeepsGenuine(nodes: seq<Node>, q: nat, v: Vote, peers: seq<nat>, from: nat)
    requires Genuine(nodes) && q < |nodes| && v.pubkey < |nodes|
    requires AllCast(Receive(BucketOf(nodes[q], v.pubkey, v.lbl), v).bucket, nodes[v.pubkey].cast, v.lbl)
    ensures Genuine(nodes[q := HandleVote(peers, q, nodes[q], from, v).node])
  {
    var node := HandleVote(peers, q, nodes[q], from, v).node;
    var nodes' := nodes[q := node];
    forall n, a, l | 0 <= n < |nodes| && 0 <= a < |nodes| ensures GenuineAt(nodes', n, a, l) {
      assert GenuineAt(nodes, n, a, l);
      VoteChanges(peers, q, nodes[q], from, v, a, l);
      assert nodes'[a].cast == nodes[a].cast;
    }
  }

  // ---------- a new transaction arrives ----------

  /** The next vote goes on the chain. */
  lemma NextVoteIsLinked(node: Node, q: nat, tx: Tx, digest: Hash)
    requires NodeOk(node, q)
    ensures var v := NextVote(q, node, tx, digest);
            Chain(node.cast + [v]) && FromChain(v, node.cast + [v]) && !FromChain(v, node.cast)
  {
  }

  lemma ChainGrows(b: Bucket, cast: seq<Vote>, v: Vote)
    requires AllFromChain(b, cast)
    ensures AllFromChain(b, cast + [v])
  {
  }

  /** A node's own next vote is always new to it. */
  lemma OwnVoteIsNew(nodes: seq<Node>, q: nat, tx: Tx, digest: Hash)
    requires NodesOk(nodes) && Genuine(nodes) && q < |nodes|
    ensures var v, b := NextVote(q, nodes[q], tx, digest), BucketOf(nodes[q], q, tx.lbl);
            && Receive(b, v).reply == Added && v in Receive(b, v).bucket.votes
            && AllCast(Receive(b, v).bucket, nodes[q].cast + [v], tx.lbl)
  {
    var v, b := NextVote(q, nodes[q], tx, digest), BucketOf(nodes[q], q, tx.lbl);
    assert NodeOk(nodes[q], q) && GenuineAt(nodes, q, q, tx.lbl);
    NextVoteIsLinked(nodes[q], q, tx, digest);
    ChainGrows(b, nodes[q].cast, v);
    ChainNeverClashes(b, nodes[q].cast + [v], v);
    ReceiveKeepsVotes(b, v);
  }

  lemma TxArrives(nodes: seq<Node>, q: nat, tx: Tx, digest: Hash, peers: seq<nat>, from: nat)
    requires NodesOk(nodes) && Genuine(nodes) && q < |nodes|
    requires !Contains(nodes[q].wendy.txs, tx.hash)
    ensures var v := NextVote(q, nodes[q], tx, digest);
            var o := HandleTx(peers, q, nodes[q], from, tx, digest);
            && o.sent == Broadcast(peers, q, {from}, TxBody(tx)) + Broadcast(peers, q, {q}, VoteBody(v))
            && NodesOk(nodes[q := o.node]) && Genuine(nodes[q := o.node])
            && Grows(nodes[q], o.node, {TxBody(tx), VoteBody(v)})
            && Holds(o.node, TxBody(tx)) && Holds(o.node, VoteBody(v))
            && o.node.wendy.txs == nodes[q].wendy.txs + [tx]
  {
    var v := NextVote(q, nodes[q], tx, digest);
    var node := HandleTx(peers, q, nodes[q], from, tx, digest).node;
    assert {q, v.pubkey} == {q};
    OwnVoteIsNew(nodes, q, tx, digest);
    VotedNodeGrows(nodes[q], q, tx, digest, peers, from);
    VotedNodeOk(nodes[q], q, tx, digest, node);
    VoteKeepsNodesOk(nodes, q, node);
    CastGrows(nodes, q, tx, digest, peers, from);
  }

  lemma VotedNodeOk(was: Node, q: nat, tx: Tx, digest: Hash, now: Node)
    requires NodeOk(was, q) && !Contains(was.wendy.txs, tx.hash)
    requires var voted := Voted(q, was, tx, digest); now == voted.(wendy := now.wendy) && now.wendy.txs == voted.wendy.txs
    requires Holds(now, VoteBody(NextVote(q, was, tx, digest)))
    requires forall b :: Holds(was, b) ==> Holds(now, b)
    ensures NodeOk(now, q)
  {
    var v := NextVote(q, was, tx, digest);
    NextVoteIsLinked(was, q, tx, digest);
    HoldsAllStays(was, now, was.cast);
    assert now.cast == was.cast + [v] && now.wendy.txs == was.wendy.txs + [tx];
  }

  lemma VotedNodeGrows(was: Node, q: nat, tx: Tx, digest: Hash, peers: seq<nat>, from: nat)
    requires !Contains(was.wendy.txs, tx.hash)
    requires var v := NextVote(q, was, tx, digest); v in Receive(BucketOf(was, q, tx.lbl), v).bucket.votes
    ensures var now, v := HandleTx(peers, q, was, from, tx, digest).node, NextVote(q, was, tx, digest);
            && Grows(was, now, {TxBody(tx), VoteBody(v)})
            && Holds(now, TxBody(tx)) && Holds(now, VoteBody(v))
  {
    var v, voted := NextVote(q, was, tx, digest), Voted(q, was, tx, digest);
    var now := HandleVote(peers, q, voted, q, v).node;
    var items := {TxBody(tx), VoteBody(v)};
    VoteGrows(peers, q, voted, q, v);
    forall h ensures Contains(voted.wendy.txs, h) <==> Contains(was.wendy.txs, h) || h == tx.hash {
      ContainsSnoc(was.wendy.txs, tx, h);
    }
    assert forall b: Body :: b.VoteBody? ==> (Holds(voted, b) <==> Holds(was, b));
    forall b | Holds(now, b) && !Holds(was, b) ensures exists i :: i in items && SameItem(i, b) {
      match b
      case TxBody(t) => assert TxBody(tx) in items && SameItem(TxBody(tx), b);
      case VoteBody(w) => assert VoteBody(v) in items && SameItem(VoteBody(v), b);
    }
  }

  /** When an author casts one more vote, what is held of it stays genuine. */
  lemma CastGrows(nodes: seq<Node>, q: nat, tx: Tx, digest: Hash, peers: seq<nat>, from: nat)
    requires Genuine(nodes) && q < |nodes| && !Contains(nodes[q].wendy.txs, tx.hash)
    requires var v := NextVote(q, nodes[q], tx, digest);
             AllCast(Receive(BucketOf(nodes[q], q, tx.lbl), v).bucket, nodes[q].cast + [v], tx.lbl)
    ensures Genuine(nodes[q := HandleTx(peers, q, nodes[q], from, tx, digest).node])
  {
    var v, voted := NextVote(q, nodes[q], tx, digest), Voted(q, nodes[q], tx, digest);
    var nodes' := nodes[q := HandleVote(peers, q, voted, q, v).node];
    forall n, a, l | 0 <= n < |nodes| && 0 <= a < |nodes| ensures GenuineAt(nodes', n, a, l) {
      assert GenuineAt(nodes, n, a, l);
      VoteChanges(peers, q, voted, q, v, a, l);
      ChainGrows(BucketOf(nodes[n], a, l), nodes[a].cast, v);
      assert nodes'[a].cast == if a == q then nodes[a].cast + [v] else nodes[a].cast;
    }
  }

  // ---------- every step keeps the invariant ----------

  /** Node q changes, consuming messages to it that it now holds and sending new items to all its peers. */
  ghost predicate GoodChange(links: Links, net: Net, q: nat, node: Node,
                             consumed: multiset<Msg>, sent: seq<Msg>, items: set<Body>)
    requires q < |links| == |net.nodes|
  {
    && NodesOk(net.nodes[q := node]) && Genuine(net.nodes[q := node])
    && Grows(net.nodes[q], node, items)
    && (forall m :: m in consumed ==> m.to == q && Holds(node, m.body))
    && AllOk(net.nodes[q := node], sent)
    && (forall i :: i in items ==> ReachedAll(links, After(net, q, node, consumed, sent), q, i))
  }

  lemma ChangeKeepsInv(links: Links, net: Net, q: nat, node: Node, consumed: multiset<Msg>, sent: seq<Msg>, items: set<Body>)
    requires Inv(links, net) && q < |links|
    requires GoodChange(links, net, q, node, consumed, sent, items)
    ensures Inv(links, After(net, q, node, consumed, sent))
  {
    var net' := After(net, q, node, consumed, sent);
    forall x | x in net'.flight ensures MsgOk(net'.nodes, x) {
      if x in net.flight {
        MsgsStayOk(net.nodes, q, node, x);
      } else {
        assert x in sent;
      }
    }
    FloodGoesOn(links, net, net', q, items);
  }

  lemma SentIsInFlight(net: Net, q: nat, node: Node, consumed: multiset<Msg>, sent: seq<Msg>)
    requires q < |net.nodes|
    ensures AllInFlight(After(net, q, node, consumed, sent), sent)
  {
  }

  /** A vote that was in flight and is new to node q, handled by it. */
  lemma NewVoteApplies(links: Links, net: Net, m: Msg)
    requires Inv(links, net) && MsgOk(net.nodes, m) && m.body.VoteBody?
    requires Receive(BucketOf(net.nodes[m.to], m.body.vote.pubkey, m.body.vote.lbl), m.body.vote).reply == Added
    ensures var o := HandleVote(links[m.to], m.to, net.nodes[m.to], m.from, m.body.vote);
            var net' := After(net, m.to, o.node, multiset{m}, o.sent);
            && NodesOk(net'.nodes) && Genuine(net'.nodes)
            && Grows(net.nodes[m.to], o.node, {m.body}) && Holds(o.node, m.body)
            && AllOk(net'.nodes, o.sent) && ReachedAll(links, net', m.to, m.body)
  {
    var q, v := m.to, m.body.vote;
    var o := HandleVote(links[q], q, net.nodes[q], m.from, v);
    VoteMsgGenuine(net, m);
    VoteArrives(net.nodes, q, v, links[q], m.from);
    NewVoteIsForwarded(links, net, m, o.node, o.sent);
  }

  lemma NewVoteIsForwarded(links: Links, net: Net, m: Msg, node: Node, sent: seq<Msg>)
    requires WellFormed(links) && |links| == |net.nodes| && NodesOk(net.nodes) && MsgOk(net.nodes, m) && m.body.VoteBody?
    requires FromChain(m.body.vote, net.nodes[m.body.vote.pubkey].cast)
    requires sent == Broadcast(links[m.to], m.to, {m.from, m.body.vote.pubkey}, m.body)
    requires Holds(node, m.body)
    ensures var net' := After(net, m.to, node, multiset{m}, sent);
            AllOk(net'.nodes, sent) && ReachedAll(links, net', m.to, m.body)
  {
    var net' := After(net, m.to, node, multiset{m}, sent);
    AuthorHolds(net.nodes, m.body.vote);
    SentIsInFlight(net, m.to, node, multiset{m}, sent);
    BroadcastReachesAll(links, net', m.to, {m.from, m.body.vote.pubkey}, m.body);
    BroadcastIsOk(links, net'.nodes, m.to, {m.from, m.body.vote.pubkey}, m.body);
  }

  lemma GoodChangeOfOne(links: Links, net: Net, q: nat, node: Node, consumed: multiset<Msg>, sent: seq<Msg>, body: Body)
    requires q < |links| == |net.nodes|
    requires NodesOk(net.nodes[q := node]) && Genuine(net.nodes[q := node])
    requires Grows(net.nodes[q], node, {body}) && Holds(node, body)
    requires forall m :: m in consumed ==> m.to == q && m.body == body
    requires AllOk(net.nodes[q := node], sent) && ReachedAll(links, After(net, q, node, consumed, sent), q, body)
    ensures GoodChange(links, net, q, node, consumed, sent, {body})
  {
  }

  lemma NewVoteKeepsInv(links: Links, net: Net, m: Msg)
    requires Inv(links, net) && MsgOk(net.nodes, m) && m.body.VoteBody?
    requires Receive(BucketOf(net.nodes[m.to], m.body.vote.pubkey, m.body.vote.lbl), m.body.vote).reply == Added
    ensures var o := HandleVote(links[m.to], m.to, net.nodes[m.to], m.from, m.body.vote);
            Inv(links, After(net, m.to, o.node, multiset{m}, o.sent))
  {
    var o := HandleVote(links[m.to], m.to, net.nodes[m.to], m.from, m.body.vote);
    NewVoteApplies(links, net, m);
    GoodChangeOfOne(links, net, m.to, o.node, multiset{m}, o.sent, m.body);
    ChangeKeepsInv(links, net, m.to, o.node, multiset{m}, o.sent, {m.body});
  }

  lemma VoteStepKeepsInv(links: Links, net: Net, st: Step)
    requires Inv(links, net) && Enabled(net, st) && st.Deliver? && st.msg.body.VoteBody?
    ensures Inv(links, Take(links, net, st))
    ensures Receive(BucketOf(net.nodes[st.msg.to], st.msg.body.vote.pubkey, st.msg.body.vote.lbl), st.msg.body.vote).reply in {Added, AlreadyHeld}
  {
    var m := st.msg;
    var q, v := m.to, m.body.vote;
    var o := HandleVote(links[q], q, net.nodes[q], m.from, v);
    assert MsgOk(net.nodes, m);
    VoteMsgGenuine(net, m);
    VoteArrives(net.nodes, q, v, links[q], m.from);
    if Receive(BucketOf(net.nodes[q], v.pubkey, v.lbl), v).reply == AlreadyHeld {
      KnownVoteChangesNothing(links[q], q, net.nodes[q], m.from, v);
      ChangeKeepsInv(links, net, q, o.node, multiset{m}, o.sent, {});
    } else {
      NewVoteKeepsInv(links, net, m);
    }
  }

  lemma KnownVoteChangesNothing(peers: seq<nat>, me: nat, node: Node, from: nat, v: Vote)
    requires Holds(node, VoteBody(v)) && Receive(BucketOf(node, v.pubkey, v.lbl), v).reply == AlreadyHeld
    ensures HandleVote(peers, me, node, from, v) == Outcome(node, [])
  {
    var views := node.wendy.peers;
    ReceiveStores(BucketOf(node, v.pubkey, v.lbl), v);
    assert v.pubkey in views && v.lbl in views[v.pubkey];
    assert WithVote(views[v.pubkey], v) == views[v.pubkey];
    assert E.Record(views, v) == views;
  }

  lemma VoteMsgGenuine(net: Net, m: Msg)
    requires NodesOk(net.nodes) && Genuine(net.nodes) && MsgOk(net.nodes, m) && m.body.VoteBody?
    ensures FromChain(m.body.vote, net.nodes[m.body.vote.pubkey].cast)
  {
    assert GenuineAt(net.nodes, m.from, m.body.vote.pubkey, m.body.vote.lbl);
  }

  lemma AuthorHolds(nodes: seq<Node>, v: Vote)
    requires NodesOk(nodes) && v.pubkey < |nodes| && FromChain(v, nodes[v.pubkey].cast)
    ensures Holds(nodes[v.pubkey], VoteBody(v))
  {
    assert NodeOk(nodes[v.pubkey], v.pubkey);
  }

  /** What a node sends for a new transaction: the transaction and its own vote. */
  lemma NewTxIsForwarded(links: Links, net: Net, q: nat, from: nat, tx: Tx, v: Vote, sent: seq<Msg>)
    requires WellFormed(links) && |links| == |net.nodes| && q < |links| && from < |links| && v.pubkey == q
    requires sent == Broadcast(links[q], q, {from}, TxBody(tx)) + Broadcast(links[q], q, {q}, VoteBody(v))
    requires AllInFlight(net, sent)
    requires Holds(net.nodes[q], TxBody(tx)) && Holds(net.nodes[q], VoteBody(v)) && Holds(net.nodes[from], TxBody(tx))
    ensures AllOk(net.nodes, sent)
    ensures ReachedAll(links, net, q, TxBody(tx)) && ReachedAll(links, net, q, VoteBody(v))
  {
    BroadcastIsOk(links, net.nodes, q, {from}, TxBody(tx));
    BroadcastIsOk(links, net.nodes, q, {q}, VoteBody(v));
    BroadcastReachesAll(links, net, q, {from}, TxBody(tx));
    BroadcastReachesAll(links, net, q, {q}, VoteBody(v));
  }

  lemma NewTxApplies(links: Links, net: Net, q: nat, from: nat, tx: Tx, digest: Hash, consumed: multiset<Msg>)
    requires Inv(links, net) && q < |links|
    requires !Contains(net.nodes[q].wendy.txs, tx.hash)
    requires from < |links| && (from == q || Holds(net.nodes[from], TxBody(tx)))
    ensures var o := HandleTx(links[q], q, net.nodes[q], from, tx, digest);
            var v := NextVote(q, net.nodes[q], tx, digest);
            var net' := After(net, q, o.node, consumed, o.sent);
            && NodesOk(net'.nodes) && Genuine(net'.nodes)
            && Grows(net.nodes[q], o.node, {TxBody(tx), VoteBody(v)})
            && Holds(o.node, TxBody(tx))
            && AllOk(net'.nodes, o.sent)
            && ReachedAll(links, net', q, TxBody(tx)) && ReachedAll(links, net', q, VoteBody(v))
  {
    var o := HandleTx(links[q], q, net.nodes[q], from, tx, digest);
    var v := NextVote(q, net.nodes[q], tx, digest);
    TxArrives(net.nodes, q, tx, digest, links[q], from);
    SentIsInFlight(net, q, o.node, consumed, o.sent);
    NewTxIsForwarded(links, After(net, q, o.node, consumed, o.sent), q, from, tx, v, o.sent);
  }

  lemma GoodChangeOfTwo(links: Links, net: Net, q: nat, node: Node,
                        consumed: multiset<Msg>, sent: seq<Msg>, tx: Body, vote: Body)
    requires q < |links| == |net.nodes|
    requires NodesOk(net.nodes[q := node]) && Genuine(net.nodes[q := node])
    requires Grows(net.nodes[q], node, {tx, vote}) && Holds(node, tx)
    requires forall m :: m in consumed ==> m.to == q && SameItem(m.body, tx)
    requires AllOk(net.nodes[q := node], sent)
    requires ReachedAll(links, After(net, q, node, consumed, sent), q, tx)
    requires ReachedAll(links, After(net, q, node, consumed, sent), q, vote)
    ensures GoodChange(links, net, q, node, consumed, sent, {tx, vote})
  {
    forall m | m in consumed ensures Holds(node, m.body) {
      SameItemHeld(node, m.body, tx);
    }
  }

  lemma NewTxKeepsInv(links: Links, net: Net, q: nat, from: nat, tx: Tx, digest: Hash, consumed: multiset<Msg>)
    requires Inv(links, net) && q < |links|
    requires !Contains(net.nodes[q].wendy.txs, tx.hash)
    requires from < |links| && (from == q || Holds(net.nodes[from], TxBody(tx)))
    requires forall m :: m in consumed ==> m.to == q && SameItem(m.body, TxBody(tx))
    ensures var o := HandleTx(links[q], q, net.nodes[q], from, tx, digest);
            Inv(links, After(net, q, o.node, consumed, o.sent))
  {
    var o := HandleTx(links[q], q, net.nodes[q], from, tx, digest);
    var v := NextVote(q, net.nodes[q], tx, digest);
    NewTxApplies(links, net, q, from, tx, digest, consumed);
    GoodChangeOfTwo(links, net, q, o.node, consumed, o.sent, TxBody(tx), VoteBody(v));
    ChangeKeepsInv(links, net, q, o.node, consumed, o.sent, {TxBody(tx), VoteBody(v)});
  }

  lemma TxStepKeepsInv(links: Links, net: Net, q: nat, from: nat, tx: Tx, digest: Hash, consumed: multiset<Msg>)
    requires Inv(links, net) && q < |links|
    requires from < |links| && (from == q || Holds(net.nodes[from], TxBody(tx)))
    requires forall m :: m in consumed ==> m.to == q && SameItem(m.body, TxBody(tx))
    ensures var o := HandleTx(links[q], q, net.nodes[q], from, tx, digest);
            Inv(links, After(net, q, o.node, consumed, o.sent))
  {
    if Contains(net.nodes[q].wendy.txs, tx.hash) {
      assert net.nodes[q := net.nodes[q]] == net.nodes;
      ChangeKeepsInv(links, net, q, net.nodes[q], consumed, [], {});
    } else {
      NewTxKeepsInv(links, net, q, from, tx, digest, consumed);
    }
  }

  lemma StepKeepsInv(links: Links, net: Net, st: Step)
    requires Inv(links, net)
    ensures Inv(links, Take(links, net, st))
  {
    if Enabled(net, st) {
      match st
      case Inject(at, tx, digest) => TxStepKeepsInv(links, net, at, at, tx, digest, multiset{});
      case Deliver(m, digest) =>
        match m.body
        case TxBody(tx) =>
          assert MsgOk(net.nodes, m);
          TxStepKeepsInv(links, net, m.to, m.from, tx, digest, multiset{m});
        case VoteBody(v) => VoteStepKeepsInv(links, net, st);
    }
  }

  lemma StartInv(links: Links)
    requires WellFormed(links)
    ensures Inv(links, Start(|links|))
  {
  }

  lemma {:induction false} EveryRunInv(links: Links, steps: seq<Step>)
    requires WellFormed(links)
    ensures Inv(links, Network(links, steps))
  {
    if steps == [] {
      StartInv(links);
    } else {
      EveryRunInv(links, steps[..|steps| - 1]);
      StepKeepsInv(links, Network(links, steps[..|steps| - 1]), steps[|steps| - 1]);
    }
  }
}
