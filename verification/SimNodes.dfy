/** A simulated node as an object: its engine object, its counter and last vote, and what it has sent. */
module SimNodes {
  import opened Types
  import opened Buckets
  import opened PendingTxs
  import opened Gossip
  import Engines = Wendy
  import E = Engine

  /** What casting the next vote for a transaction does. */
  ghost function Cast(me: nat, peers: seq<nat>, node: Node, tx: Tx, digest: Hash): Outcome {
    var v := NextVote(me, node, tx, digest);
    HandleVote(peers, me, node.(seqNo := node.seqNo + 1, lastVote := Some(v), cast := node.cast + [v]), me, v)
  }

  /** Taking in a transaction is adding it to the engine, forwarding it and casting a vote. */
  lemma HandleTxInSteps(peers: seq<nat>, me: nat, node: Node, from: nat, tx: Tx, digest: Hash)
    ensures var added := node.(wendy := E.Step(node.wendy, E.AddTx(tx)));
            var o := Cast(me, peers, added, tx, digest);
            HandleTx(peers, me, node, from, tx, digest) ==
            if Contains(node.wendy.txs, tx.hash) then Outcome(added, [])
            else Outcome(o.node, Broadcast(peers, me, {from}, TxBody(tx)) + o.sent)
  {
  }

  class SimNode {
    const me: nat
    const peers: seq<nat>
    const wendy: Engines.Wendy
    var seqNo: nat
    var lastVote: Option<Vote>
    /** Everything sent so far, in order. */
    var outbox: seq<Msg>
    /** The votes cast so far. */
    ghost var cast: seq<Vote>

    ghost predicate Valid()
      reads wendy, wendy.txs
    {
      wendy.Valid()
    }

    ghost function Current(): Node
      reads this, wendy, wendy.txs, wendy.peers.Values
    {
      Node(wendy.Current(), seqNo, lastVote, cast)
    }

    constructor (me: nat, peers: seq<nat>)
      ensures Valid() && fresh(wendy) && fresh(wendy.txs) && wendy.peers == map[]
      ensures this.me == me && this.peers == peers && outbox == []
      ensures forall n: nat :: me < n ==> Current() == Start(n).nodes[me]
    {
      this.me, this.peers := me, peers;
      wendy := new Engines.Wendy();
      seqNo, lastVote, outbox, cast := 0, None, [], [];
    }

    /** Sends a body to every peer, leaving out those in skip. */
    method SendToPeers(skip: set<nat>, body: Body)
      modifies this`outbox
      ensures outbox == old(outbox) + Broadcast(peers, me, skip, body)
    {
      for i := 0 to |peers|
        invariant outbox == old(outbox) + Broadcast(peers[..i], me, skip, body)
      {
        assert peers[..i + 1][..i] == peers[..i];
        if peers[i] !in skip {
          outbox := outbox + [Msg(peers[i], me, body)];
        }
      }
      assert peers[..|peers|] == peers;
    }

    method NextVote(tx: Tx, digest: Hash) returns (v: Vote)
      modifies this`seqNo, this`lastVote, this`cast
      ensures v == Gossip.NextVote(me, old(Current()), tx, digest)
      ensures Current() == old(Current()).(seqNo := old(seqNo) + 1, lastVote := Some(v), cast := old(cast) + [v])
    {
      var prev := if lastVote.Some? then lastVote.value.digest else 0;
      seqNo := seqNo + 1;
      v := Vote(me, tx.lbl, seqNo - 1, tx.hash, prev, digest);
      lastVote, cast := Some(v), cast + [v];
    }

    method HandleVote(from: nat, v: Vote) returns (err: bool)
      requires Valid()
      modifies this`outbox, wendy, wendy.peers.Values
      ensures Valid()
      ensures var o := Gossip.HandleVote(peers, me, old(Current()), from, v);
              Current() == o.node && outbox == old(outbox) + o.sent
      ensures err == Receive(BucketOf(old(Current()), v.pubkey, v.lbl), v).reply.Mismatch?
    {
      var isNew;
      isNew, err := wendy.AddVote(v);
      if isNew {
        SendToPeers({from, v.pubkey}, VoteBody(v));
      }
    }

    /** The node casts its next vote and handles it itself. */
    method VoteFor(tx: Tx, digest: Hash)
      requires Valid()
      modifies this`seqNo, this`lastVote, this`cast, this`outbox, wendy, wendy.peers.Values
      ensures Valid()
      ensures var o := Cast(me, peers, old(Current()), tx, digest);
              Current() == o.node && outbox == old(outbox) + o.sent
    {
      var v := NextVote(tx, digest);
      var err := HandleVote(me, v);
    }

    method HandleTx(from: nat, tx: Tx, digest: Hash)
      requires Valid()
      modifies this, wendy, wendy.txs, wendy.peers.Values
      ensures Valid()
      ensures var o := Gossip.HandleTx(peers, me, old(Current()), from, tx, digest);
              Current() == o.node && outbox == old(outbox) + o.sent
    {
      HandleTxInSteps(peers, me, Current(), from, tx, digest);
      var isNew := TakeTx(tx);
      if isNew {
        ForwardAndVote(from, tx, digest);
      }
    }

    method TakeTx(tx: Tx) returns (isNew: bool)
      requires Valid()
      modifies wendy.txs
      ensures Valid() && isNew == !Contains(old(wendy.txs.list), tx.hash)
      ensures Current() == old(Current()).(wendy := E.Step(old(wendy.Current()), E.AddTx(tx)))
    {
      isNew := wendy.AddTx(tx);
    }

    /** What a node does with a transaction that was new to its engine. */
    method ForwardAndVote(from: nat, tx: Tx, digest: Hash)
      requires Valid()
      modifies this, wendy, wendy.peers.Values
      ensures Valid()
      ensures var o := Cast(me, peers, old(Current()), tx, digest);
              Current() == o.node && outbox == old(outbox) + Broadcast(peers, me, {from}, TxBody(tx)) + o.sent
    {
      SendToPeers({from}, TxBody(tx));
      VoteFor(tx, digest);
    }
  }
}
