/**
 What the engine knows after any run, told by the events alone: whom it knows,
 which votes and commits each peer has, the quorum, and the pending transactions
 in their order.
 */
module History {
  import opened Types
  import opened Buckets
  import opened Preference
  import opened Peers
  import opened Quorums
  import opened PendingTxs
  import opened Fairness
  import opened Engine

  // ---------- peers ----------

  /** A validator set without the peer. */
  predicate Drops(e: Event, id: ID) {
    e.UpdateValidatorSet? && id !in IdsOf(e.validators)
  }

  /** The event makes the peer known, or finds it known. */
  predicate Names(e: Event, id: ID) {
    || (e.AddVote? && e.vote.pubkey == id)
    || (e.UpdateValidatorSet? && id in IdsOf(e.validators))
  }

  /** The number of events up to the last one that dropped the peer, that one included. */
  function Start(es: seq<Event>, id: ID): (f: nat)
    ensures f <= |es| && (f > 0 ==> Drops(es[f - 1], id))
    ensures forall i :: f <= i < |es| ==> !Drops(es[i], id)
  {
    if es == [] then 0
    else if Drops(es[|es| - 1], id) then |es|
    else Start(es[..|es| - 1], id)
  }

  /** The votes of the peer under the label, in the order they came. */
  function VotesIn(es: seq<Event>, id: ID, l: Label): seq<Vote> {
    if es == [] then []
    else
      var e := es[|es| - 1];
      VotesIn(es[..|es| - 1], id, l) +
      if e.AddVote? && e.vote.pubkey == id && e.vote.lbl == l then [e.vote] else []
  }

  /** The votes received from the peer since it was last dropped. */
  function Heard(es: seq<Event>, id: ID, l: Label): seq<Vote> {
    VotesIn(es[Start(es, id)..], id, l)
  }

  lemma StartSnoc(es: seq<Event>, e: Event, id: ID)
    ensures Start(es + [e], id) == if Drops(e, id) then |es| + 1 else Start(es, id)
  {
    assert (es + [e])[..|es|] == es;
  }

  lemma HeardSnoc(es: seq<Event>, e: Event, id: ID, l: Label)
    ensures Heard(es + [e], id, l) ==
            if Drops(e, id) then []
            else Heard(es, id, l) + if e.AddVote? && e.vote.pubkey == id && e.vote.lbl == l then [e.vote] else []
  {
    var all, f := es + [e], Start(es, id);
    StartSnoc(es, e, id);
    if Drops(e, id) {
      assert all[|all|..] == [];
    } else {
      assert all[f..] == es[f..] + [e];
      assert (es[f..] + [e])[..|es[f..]|] == es[f..];
    }
  }

  /** Commits play no part in what a receipt does to votes and counter. */
  predicate SameVotes(b: Bucket, c: Bucket) {
    b.votes == c.votes && b.lastSeqSeen == c.lastSeqSeen
  }

  lemma ReceiveIgnoresCommits(b: Bucket, c: Bucket, v: Vote)
    requires SameVotes(b, c)
    ensures SameVotes(Receive(b, v).bucket, Receive(c, v).bucket)
  {
  }

  /** What the engine has of a peer's votes under a label, known or not. */
  function BucketIn(s: State, id: ID, l: Label): Bucket {
    At(ViewOf(s.peers, id), l)
  }

  /** One event, seen from one peer and label. */
  lemma StepAtBucket(s: State, e: Event, id: ID, l: Label)
    ensures SameVotes(BucketIn(Step(s, e), id, l),
                      if Drops(e, id) then EMPTY
                      else if e.AddVote? && e.vote.pubkey == id && e.vote.lbl == l then Receive(BucketIn(s, id, l), e.vote).bucket
                      else BucketIn(s, id, l))
  {
    if e.AddBlock? && id in s.peers {
      CommittedAdds(s.peers[id], e.block, l);
    }
  }

  /**
   In every state of every run, what the engine has of a peer's votes under a
   label is what the votes received since the peer was last dropped leave in an
   empty bucket: validator sets that keep the peer, blocks, transactions and
   other peers' votes change nothing.
   */
  lemma {:induction false} VotesAreKept(es: seq<Event>, id: ID, l: Label)
    ensures SameVotes(BucketIn(Play(es), id, l), Run(EMPTY, Heard(es, id, l)))
  {
    if es == [] {
    } else {
      var before, e := es[..|es| - 1], es[|es| - 1];
      assert es == before + [e];
      VotesAreKept(before, id, l);
      HeardSnoc(before, e, id, l);
      StepAtBucket(Play(before), e, id, l);
      if e.AddVote? && e.vote.pubkey == id && e.vote.lbl == l {
        RunSnoc(EMPTY, Heard(before, id, l), e.vote);
        ReceiveIgnoresCommits(BucketIn(Play(before), id, l), Run(EMPTY, Heard(before, id, l)), e.vote);
      } else {
        assert Heard(before, id, l) + [] == Heard(before, id, l);
      }
    }
  }

  /** The peer was named since it was last dropped. */
  predicate Known(es: seq<Event>, id: ID) {
    exists i :: Start(es, id) <= i < |es| && Names(es[i], id)
  }

  lemma KnownSnoc(es: seq<Event>, e: Event, id: ID)
    ensures Known(es + [e], id) <==> !Drops(e, id) && (Known(es, id) || Names(e, id))
  {
    var all := es + [e];
    StartSnoc(es, e, id);
    assert all[|es|] == e && forall i :: 0 <= i < |es| ==> all[i] == es[i];
    if Known(es, id) && !Drops(e, id) {
      var i :| Start(es, id) <= i < |es| && Names(es[i], id);
      assert Names(all[i], id);
    }
  }

  /** A peer is known exactly when a vote or a validator set has named it since it was last dropped. */
  lemma {:induction false} KnownIff(es: seq<Event>, id: ID)
    ensures id in Play(es).peers <==> Known(es, id)
  {
    if es == [] {
    } else {
      var before, e := es[..|es| - 1], es[|es| - 1];
      assert es == before + [e];
      KnownIff(before, id);
      KnownSnoc(before, e, id);
    }
  }

  predicate HasTx(block: seq<Tx>, l: Label, h: Hash) {
    exists i :: 0 <= i < |block| && block[i].lbl == l && block[i].hash == h
  }

  /** A block with the transaction came while the peer was known, and the peer was not dropped since. */
  predicate CommitHeard(es: seq<Event>, id: ID, l: Label, h: Hash) {
    exists i :: Start(es, id) <= i < |es| && es[i].AddBlock? && HasTx(es[i].block, l, h) && Known(es[..i], id)
  }

  lemma CommitHeardSnoc(es: seq<Event>, e: Event, id: ID, l: Label, h: Hash)
    ensures CommitHeard(es + [e], id, l, h) <==>
            !Drops(e, id) && (CommitHeard(es, id, l, h) || (e.AddBlock? && HasTx(e.block, l, h) && Known(es, id)))
  {
    var all := es + [e];
    StartSnoc(es, e, id);
    assert all[|es|] == e && all[..|es|] == es;
    assert forall i :: 0 <= i < |es| ==> all[i] == es[i] && all[..i] == es[..i];
    if CommitHeard(es, id, l, h) && !Drops(e, id) {
      var i :| Start(es, id) <= i < |es| && es[i].AddBlock? && HasTx(es[i].block, l, h) && Known(es[..i], id);
      assert Known(all[..i], id);
    }
  }

  /** A peer has exactly the transactions committed that came in a block while it was known, since it was last dropped. */
  lemma {:induction false} CommittedIff(es: seq<Event>, id: ID, l: Label, h: Hash)
    ensures h in BucketIn(Play(es), id, l).committed <==> CommitHeard(es, id, l, h)
  {
    if es == [] {
    } else {
      var before, e := es[..|es| - 1], es[|es| - 1];
      assert es == before + [e];
      CommittedIff(before, id, l, h);
      CommitHeardSnoc(before, e, id, l, h);
      KnownIff(before, id);
      StepAtCommitted(Play(before), e, id, l, h);
    }
  }

  lemma StepAtCommitted(s: State, e: Event, id: ID, l: Label, h: Hash)
    ensures h in BucketIn(Step(s, e), id, l).committed <==>
            !Drops(e, id) && (h in BucketIn(s, id, l).committed || (e.AddBlock? && HasTx(e.block, l, h) && id in s.peers))
  {
    match e
    case AddTx(_) =>
    case AddVote(v) => VoteAtCommitted(s, v, id, l);
    case AddBlock(block) => BlockAtCommitted(s, block, id, l, h);
    case UpdateValidatorSet(_) =>
  }

  lemma VoteAtCommitted(s: State, v: Vote, id: ID, l: Label)
    ensures BucketIn(Step(s, AddVote(v)), id, l).committed == BucketIn(s, id, l).committed
  {
    ReceiveStores(BucketIn(s, v.pubkey, v.lbl), v);
  }

  lemma BlockAtCommitted(s: State, block: seq<Tx>, id: ID, l: Label, h: Hash)
    ensures h in BucketIn(Step(s, AddBlock(block)), id, l).committed <==>
            h in BucketIn(s, id, l).committed || (HasTx(block, l, h) && id in s.peers)
  {
    if id in s.peers {
      CommittedAdds(s.peers[id], block, l);
    }
  }

  // ---------- the quorum ----------

  /** The quorum is that of the last validator set. */
  lemma {:induction false} QuorumOfLastSet(es: seq<Event>, i: nat)
    requires i < |es| && es[i].UpdateValidatorSet?
    requires forall j :: i < j < |es| ==> !es[j].UpdateValidatorSet?
    ensures Play(es).quorum == QuorumOf(|es[i].validators|)
  {
    if i < |es| - 1 {
      QuorumOfLastSet(es[..|es| - 1], i);
    }
  }

  /** Before the first one nothing is unblocked, whoever votes. */
  lemma {:induction false} NoSetNoQuorum(es: seq<Event>)
    requires forall j :: 0 <= j < |es| ==> !es[j].UpdateValidatorSet?
    ensures Play(es).quorum == 0
  {
    if es == [] {
    } else {
      NoSetNoQuorum(es[..|es| - 1]);
    }
  }

  lemma {:induction false} BlockedBeforeFirstSet(es: seq<Event>, tx: Tx, tx2: Tx)
    requires forall j :: 0 <= j < |es| ==> !es[j].UpdateValidatorSet?
    ensures Blocked(Play(es).peers, Play(es).quorum, tx)
    ensures tx.lbl == tx2.lbl ==> BlockedBy(Play(es).peers, Play(es).quorum, tx, tx2)
  {
    NoSetNoQuorum(es);
  }

  // ---------- verdicts across a new validator set and across a block ----------

  lemma NothingInEmpty(h1: Hash, h2: Hash)
    ensures !Seen(EMPTY, h1) && !Before(EMPTY, h1, h2) && !Settled(EMPTY, h1, h2)
  {
  }

  /** A new validator set keeps the reports of the peers it keeps, and brings no others. */
  lemma BackersAfterSet(s: State, vs: seq<ID>, tx1: Tx, tx2: Tx)
    requires tx1.lbl == tx2.lbl
    ensures var s' := Step(s, UpdateValidatorSet(vs));
            && SeenBackers(s'.peers, tx1) == SeenBackers(s.peers, tx1) * IdsOf(vs)
            && BeforeBackers(s'.peers, tx1, tx2) == BeforeBackers(s.peers, tx1, tx2) * IdsOf(vs)
            && SettledBackers(s'.peers, tx1, tx2) == SettledBackers(s.peers, tx1, tx2) * IdsOf(vs)
  {
    NothingInEmpty(tx1.hash, tx2.hash);
  }

  /** So the verdicts are: not blocked exactly when the backers that stay make the new quorum. */
  lemma VerdictsAfterSet(s: State, vs: seq<ID>, tx1: Tx, tx2: Tx)
    requires tx1.lbl == tx2.lbl
    ensures var s' := Step(s, UpdateValidatorSet(vs));
            && (!Blocked(s'.peers, s'.quorum, tx1) <==> |SeenBackers(s.peers, tx1) * IdsOf(vs)| >= QuorumOf(|vs|))
            && (!BlockedBy(s'.peers, s'.quorum, tx1, tx2) <==>
                  |BeforeBackers(s.peers, tx1, tx2) * IdsOf(vs)| >= QuorumOf(|vs|))
  {
    var s' := Step(s, UpdateValidatorSet(vs));
    BackersAfterSet(s, vs, tx1, tx2);
    assert s'.quorum == QuorumOf(|vs|) >= 1;
    assert SeenBackers(s'.peers, tx1) == SeenBackers(s.peers, tx1) * IdsOf(vs);
    assert BeforeBackers(s'.peers, tx1, tx2) == BeforeBackers(s.peers, tx1, tx2) * IdsOf(vs);
  }

  /** A block changes neither who has seen what nor any report on two transactions outside it. */
  lemma BackersAfterBlock(s: State, block: seq<Tx>, tx1: Tx, tx2: Tx)
    requires tx1.lbl == tx2.lbl
    ensures var s' := Step(s, AddBlock(block));
            && s'.quorum == s.quorum
            && SeenBackers(s'.peers, tx1) == SeenBackers(s.peers, tx1)
            && (tx1.hash !in HashesOf(block) && tx2.hash !in HashesOf(block) ==>
                  BeforeBackers(s'.peers, tx1, tx2) == BeforeBackers(s.peers, tx1, tx2))
  {
    var s' := Step(s, AddBlock(block));
    forall id | id in s.peers
      ensures HasSeen(s'.peers[id], tx1) <==> HasSeen(s.peers[id], tx1)
      ensures tx1.hash !in HashesOf(block) && tx2.hash !in HashesOf(block) ==>
                (Prefers(s'.peers[id], tx1, tx2) <==> Prefers(s.peers[id], tx1, tx2))
    {
      CommittedAdds(s.peers[id], block, tx1.lbl);
    }
  }

  // ---------- the pending list ----------

  /** Event i added a transaction with this hash, none was pending then, and no block has had it since. */
  predicate Opens(es: seq<Event>, i: nat, h: Hash) {
    && i < |es| && es[i].AddTx? && es[i].tx.hash == h
    && !AddedNotTaken(es[..i], h)
    && (forall j :: i < j < |es| && es[j].AddBlock? ==> h !in HashesOf(es[j].block))
  }

  lemma OpensSnoc(es: seq<Event>, e: Event, i: nat, h: Hash)
    ensures Opens(es + [e], i, h) <==>
            if i == |es| then e.AddTx? && e.tx.hash == h && !AddedNotTaken(es, h)
            else Opens(es, i, h) && !(e.AddBlock? && h in HashesOf(e.block))
  {
    var all := es + [e];
    assert all[..|es|] == es && all[|es|] == e;
    assert forall j :: 0 <= j < |es| ==> all[j] == es[j];
    if i < |es| {
      assert all[..i] == es[..i];
    }
  }

  /** The transaction with hash h1 stands before the one with hash h2. */
  predicate Precedes(list: seq<Tx>, h1: Hash, h2: Hash) {
    exists p, q :: 0 <= p < q < |list| && list[p].hash == h1 && list[q].hash == h2
  }

  lemma PrecedesSnoc(list: seq<Tx>, tx: Tx, h1: Hash, h2: Hash)
    ensures Precedes(list + [tx], h1, h2) <==> Precedes(list, h1, h2) || (Contains(list, h1) && tx.hash == h2)
  {
    var all := list + [tx];
    assert all[|list|] == tx && forall p :: 0 <= p < |list| ==> all[p] == list[p];
    if p, q :| 0 <= p < q < |list| && list[p].hash == h1 && list[q].hash == h2 {
      assert all[p].hash == h1 && all[q].hash == h2;
    }
    if Contains(list, h1) && tx.hash == h2 {
      var p :| 0 <= p < |list| && list[p].hash == h1;
      assert all[p].hash == h1 && all[|list|].hash == h2;
    }
  }

  /** Taking transactions out leaves the others in their order. */
  lemma {:induction false} WithoutPrecedes(list: seq<Tx>, hs: set<Hash>, h1: Hash, h2: Hash)
    ensures Precedes(Without(list, hs), h1, h2) <==> Precedes(list, h1, h2) && h1 !in hs && h2 !in hs
  {
    if list == [] {
    } else {
      var n := |list| - 1;
      assert list == list[..n] + [list[n]];
      WithoutPrecedes(list[..n], hs, h1, h2);
      WithoutContains(list[..n], hs, h1);
      PrecedesSnoc(list[..n], list[n], h1, h2);
      PrecedesSnoc(Without(list[..n], hs), list[n], h1, h2);
    }
  }

  lemma OpenIsPending(es: seq<Event>, i: nat, h: Hash)
    requires Opens(es, i, h)
    ensures Contains(Play(es).txs, h)
  {
    PendingIff(es, h);
    assert es[i].AddTx?;
  }

  lemma {:induction false} WithoutKeeps(list: seq<Tx>, hs: set<Hash>, tx: Tx)
    ensures tx in Without(list, hs) <==> tx in list && tx.hash !in hs
  {
    if list == [] {
    } else {
      WithoutKeeps(list[..|list| - 1], hs, tx);
      assert list == list[..|list| - 1] + [list[|list| - 1]];
    }
  }

  /** An event that is not one of the two additions. */
  lemma OrderStays(es: seq<Event>, e: Event, h1: Hash, h2: Hash, tx: Tx)
    requires Contains(Play(es).txs, h1) && Contains(Play(es).txs, h2)
    requires !(e.AddBlock? && (h1 in HashesOf(e.block) || h2 in HashesOf(e.block)))
    requires tx in Play(es).txs && tx.hash == h1
    ensures Precedes(Play(es + [e]).txs, h1, h2) <==> Precedes(Play(es).txs, h1, h2)
    ensures tx in Play(es + [e]).txs
  {
    var list := Play(es).txs;
    assert Play(es + [e]) == Step(Play(es), e);
    if e.AddTx? && !Contains(list, e.tx.hash) {
      PrecedesSnoc(list, e.tx, h1, h2);
    } else if e.AddBlock? {
      WithoutPrecedes(list, HashesOf(e.block), h1, h2);
      WithoutKeeps(list, HashesOf(e.block), tx);
    }
  }

  /** The addition comes last. */
  lemma AddedLast(es: seq<Event>, tx: Tx, h: Hash)
    requires !Contains(Play(es).txs, tx.hash)
    ensures var list := Play(es + [AddTx(tx)]).txs;
            && tx in list
            && (Precedes(list, h, tx.hash) <==> Contains(Play(es).txs, h))
            && !Precedes(list, tx.hash, h)
  {
    var list := Play(es).txs;
    assert Play(es + [AddTx(tx)]).txs == list + [tx];
    PrecedesSnoc(list, tx, h, tx.hash);
    PrecedesSnoc(list, tx, tx.hash, h);
  }

  /**
   In every state of every run each pending transaction is the one that was added
   when none with its hash was pending, and they stand in the order of these
   additions.
   */
  lemma {:induction false} PendingInOrder(es: seq<Event>, h1: Hash, h2: Hash, i: nat, j: nat)
    requires Opens(es, i, h1) && Opens(es, j, h2)
    ensures es[i].tx in Play(es).txs
    ensures Precedes(Play(es).txs, h1, h2) <==> i < j
  {
    var n := |es| - 1;
    var before, e := es[..n], es[n];
    assert es == before + [e];
    OpensSnoc(before, e, i, h1);
    OpensSnoc(before, e, j, h2);
    if e.AddTx? {
      PendingIff(before, e.tx.hash);
    }
    if i < n && j < n {
      PendingInOrder(before, h1, h2, i, j);
      OpenIsPending(before, i, h1);
      OpenIsPending(before, j, h2);
      OrderStays(before, e, h1, h2, es[i].tx);
    } else if i < n {
      PendingInOrder(before, h1, h1, i, i);
      OpenIsPending(before, i, h1);
      OrderStays(before, e, h1, h1, es[i].tx);
      AddedLast(before, e.tx, h1);
    } else {
      AddedLast(before, e.tx, h2);
    }
  }
}
