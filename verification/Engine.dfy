/**
 The fairness engine as a state machine: what each call does to the whole
 state, how verdicts hold up under later votes, and that fairness holds in
 every state of every orderly run.
 */
module Engine {
  import opened Types
  import opened FiniteSets
  import opened Buckets
  import opened Delivery
  import opened Preference
  import opened Peers
  import opened Quorums
  import opened Closure
  import opened PendingTxs
  import opened Fairness
  import opened BlockFilling

  datatype State = State(quorum: nat, txs: seq<Tx>, peers: Views)

  const FRESH := State(0, [], map[])

  datatype Event =
    | AddTx(tx: Tx)
    | AddVote(vote: Vote)
    | AddBlock(block: seq<Tx>)
    | UpdateValidatorSet(validators: seq<ID>)

  function ViewOf(peers: Views, id: ID): View {
    if id in peers then peers[id] else map[]
  }

  /** A vote from an unknown key makes a new peer. */
  function Record(peers: Views, v: Vote): Views {
    peers[v.pubkey := WithVote(ViewOf(peers, v.pubkey), v)]
  }

  function HashesOf(block: seq<Tx>): set<Hash> {
    set i | 0 <= i < |block| :: block[i].hash
  }

  function IdsOf(validators: seq<ID>): set<ID> {
    set i | 0 <= i < |validators| :: validators[i]
  }

  function Step(s: State, e: Event): State {
    match e
    case AddTx(tx) => s.(txs := Pushed(s.txs, tx))
    case AddVote(v) => s.(peers := Record(s.peers, v))
    case AddBlock(block) =>
      s.(txs := Without(s.txs, HashesOf(block)),
         peers := map id | id in s.peers :: WithCommitted(s.peers[id], block))
    case UpdateValidatorSet(vs) =>
      s.(quorum := QuorumOf(|vs|), peers := map id | id in IdsOf(vs) :: ViewOf(s.peers, id))
  }

  function Play(es: seq<Event>): State {
    if es == [] then FRESH else Step(Play(es[..|es| - 1]), es[|es| - 1])
  }

  // ---------- verdicts under later votes ----------

  function RecordAll(peers: Views, ws: seq<Vote>): Views {
    if ws == [] then peers else Record(RecordAll(peers, ws[..|ws| - 1]), ws[|ws| - 1])
  }

  lemma RecordSnoc(peers: Views, ws: seq<Vote>, w: Vote)
    ensures RecordAll(peers, ws + [w]) == Record(RecordAll(peers, ws), w)
  {
  }

  /** A vote changes one bucket of one peer. */
  lemma RecordAt(peers: Views, v: Vote, id: ID, l: Label)
    requires id in peers
    ensures At(Record(peers, v)[id], l) ==
            if id == v.pubkey && l == v.lbl then Receive(At(peers[id], l), v).bucket else At(peers[id], l)
  {
  }

  lemma RecordKeepsSeen(peers: Views, v: Vote, tx: Tx)
    ensures SeenBackers(peers, tx) <= SeenBackers(Record(peers, v), tx)
  {
    forall id | id in SeenBackers(peers, tx) ensures HasSeen(Record(peers, v)[id], tx) {
      RecordAt(peers, v, id, tx.lbl);
      SeenSurvives(At(peers[id], tx.lbl), v, tx.hash);
    }
  }

  /** A transaction that is not blocked stays so under every later vote. */
  lemma {:induction false} UnblockedForGood(peers: Views, quorum: nat, ws: seq<Vote>, tx: Tx)
    requires !Blocked(peers, quorum, tx)
    ensures !Blocked(RecordAll(peers, ws), quorum, tx)
  {
    if ws == [] {
    } else {
      var n := |ws| - 1;
      UnblockedForGood(peers, quorum, ws[..n], tx);
      RecordKeepsSeen(RecordAll(peers, ws[..n]), ws[n], tx);
      SubsetCount(SeenBackers(RecordAll(peers, ws[..n]), tx), SeenBackers(RecordAll(peers, ws), tx));
    }
  }

  /** The peers whose report of tx1 before tx2 can no longer be overtaken. */
  ghost function SettledBackers(peers: Views, tx1: Tx, tx2: Tx): set<ID> {
    set id | id in peers && Settled(At(peers[id], tx1.lbl), tx1.hash, tx2.hash)
  }

  lemma RecordKeepsSettled(peers: Views, v: Vote, tx1: Tx, tx2: Tx)
    ensures SettledBackers(peers, tx1, tx2) <= SettledBackers(Record(peers, v), tx1, tx2)
  {
    forall id | id in SettledBackers(peers, tx1, tx2)
      ensures Settled(At(Record(peers, v)[id], tx1.lbl), tx1.hash, tx2.hash)
    {
      RecordAt(peers, v, id, tx1.lbl);
      SettledSurvives(At(peers[id], tx1.lbl), v, tx1.hash, tx2.hash);
    }
  }

  lemma {:induction false} SettledQuorumForGood(peers: Views, quorum: nat, ws: seq<Vote>, tx1: Tx, tx2: Tx)
    requires tx1.lbl == tx2.lbl && Enough(SettledBackers(peers, tx1, tx2), quorum)
    ensures Enough(SettledBackers(RecordAll(peers, ws), tx1, tx2), quorum)
    ensures !BlockedBy(RecordAll(peers, ws), quorum, tx1, tx2)
  {
    var later := RecordAll(peers, ws);
    if ws == [] {
    } else {
      var n := |ws| - 1;
      SettledQuorumForGood(peers, quorum, ws[..n], tx1, tx2);
      RecordKeepsSettled(RecordAll(peers, ws[..n]), ws[n], tx1, tx2);
      SubsetCount(SettledBackers(RecordAll(peers, ws[..n]), tx1, tx2), SettledBackers(later, tx1, tx2));
    }
    SubsetCount(SettledBackers(later, tx1, tx2), BeforeBackers(later, tx1, tx2));
  }

  /** Every vote list has the shape that `Buckets.EveryRunFallingRuns` gives it. */
  ghost predicate AllFalling(peers: Views) {
    forall id, l :: id in peers ==> FallingRuns(At(peers[id], l).votes)
  }

  lemma RecordKeepsFalling(peers: Views, v: Vote)
    requires AllFalling(peers)
    ensures AllFalling(Record(peers, v))
  {
    forall id, l | id in Record(peers, v) ensures FallingRuns(At(Record(peers, v)[id], l).votes) {
      if id == v.pubkey {
        assert FallingRuns(At(ViewOf(peers, id), l).votes);
        ReceiveKeepsFallingRuns(At(ViewOf(peers, id), l), v);
      }
    }
  }

  lemma CommitKeepsFalling(s: State, block: seq<Tx>)
    requires AllFalling(s.peers)
    ensures AllFalling(Step(s, AddBlock(block)).peers)
  {
    forall id, l | id in s.peers ensures FallingRuns(At(WithCommitted(s.peers[id], block), l).votes) {
      CommittedAdds(s.peers[id], block, l);
    }
  }

  /** In every state of every run at all. */
  lemma {:induction false} EveryRunAllFalling(es: seq<Event>)
    ensures AllFalling(Play(es).peers)
  {
    if es == [] {
    } else {
      var s := Play(es[..|es| - 1]);
      EveryRunAllFalling(es[..|es| - 1]);
      match es[|es| - 1]
      case AddTx(_) =>
      case AddVote(v) => RecordKeepsFalling(s.peers, v);
      case AddBlock(block) => CommitKeepsFalling(s, block);
      case UpdateValidatorSet(vs) =>
    }
  }

  /** One late vote turns an unsettled backer. */
  lemma TurnBacker(peers: Views, id: ID, tx1: Tx, tx2: Tx, hash: Vote -> Hash) returns (v: Vote)
    requires tx1.lbl == tx2.lbl && AllFalling(peers)
    requires id in BeforeBackers(peers, tx1, tx2) && id !in SettledBackers(peers, tx1, tx2)
    ensures BeforeBackers(Record(peers, v), tx1, tx2) == BeforeBackers(peers, tx1, tx2) - {id}
    ensures SettledBackers(Record(peers, v), tx1, tx2) == SettledBackers(peers, tx1, tx2)
    ensures AllFalling(Record(peers, v)) && Hashed(hash, v)
  {
    var b := At(peers[id], tx1.lbl);
    var n := LateVoteOvertakes(b, id, tx1.lbl, tx1.hash, tx2.hash, hash);
    v := LateVote(b.votes, id, tx1.lbl, n, tx2.hash, hash);
    RecordAt(peers, v, id, tx1.lbl);
    OneTurned(peers, v, tx1, tx2);
    RecordKeepsFalling(peers, v);
  }

  /** If the voter stops preferring tx1, it is the only backer lost. */
  lemma OneTurned(peers: Views, v: Vote, tx1: Tx, tx2: Tx)
    requires tx1.lbl == tx2.lbl && v.pubkey in peers
    requires v.pubkey !in SettledBackers(peers, tx1, tx2)
    requires !Prefers(Record(peers, v)[v.pubkey], tx1, tx2)
    ensures BeforeBackers(Record(peers, v), tx1, tx2) == BeforeBackers(peers, tx1, tx2) - {v.pubkey}
    ensures SettledBackers(Record(peers, v), tx1, tx2) == SettledBackers(peers, tx1, tx2)
  {
  }

  /** Later, the backers in todo are lost and no others, and no peer has settled meanwhile. */
  ghost predicate Turned(peers: Views, later: Views, todo: set<ID>, tx1: Tx, tx2: Tx)
    requires tx1.lbl == tx2.lbl
  {
    && BeforeBackers(later, tx1, tx2) == BeforeBackers(peers, tx1, tx2) - todo
    && SettledBackers(later, tx1, tx2) == SettledBackers(peers, tx1, tx2)
    && AllFalling(later)
  }

  lemma TurnOneMore(peers: Views, mid: Views, id: ID, todo: set<ID>, tx1: Tx, tx2: Tx, hash: Vote -> Hash)
    returns (v: Vote)
    requires tx1.lbl == tx2.lbl && id in todo && Turned(peers, mid, todo - {id}, tx1, tx2)
    requires id in BeforeBackers(peers, tx1, tx2) && id !in SettledBackers(peers, tx1, tx2)
    ensures Turned(peers, Record(mid, v), todo, tx1, tx2) && Hashed(hash, v)
  {
    v := TurnBacker(mid, id, tx1, tx2, hash);
  }

  lemma {:induction false} TurnBackers(peers: Views, todo: set<ID>, tx1: Tx, tx2: Tx, hash: Vote -> Hash)
    returns (ws: seq<Vote>)
    requires tx1.lbl == tx2.lbl && AllFalling(peers)
    requires todo <= BeforeBackers(peers, tx1, tx2) && todo !! SettledBackers(peers, tx1, tx2)
    ensures Turned(peers, RecordAll(peers, ws), todo, tx1, tx2) && AllHashed(hash, ws)
  {
    if todo == {} {
      ws := [];
    } else {
      var id :| id in todo;
      var ws' := TurnBackers(peers, todo - {id}, tx1, tx2, hash);
      var v := TurnOneMore(peers, RecordAll(peers, ws'), id, todo, tx1, tx2, hash);
      ws := ws' + [v];
      RecordSnoc(peers, ws', v);
    }
  }

  /** "tx1 is not blocked by tx2" holds whatever votes come, from whomever, with this hash function. */
  ghost predicate NeverBlockedBy(peers: Views, quorum: nat, tx1: Tx, tx2: Tx, hash: Vote -> Hash)
    requires tx1.lbl == tx2.lbl
  {
    forall ws :: AllHashed(hash, ws) ==> !BlockedBy(RecordAll(peers, ws), quorum, tx1, tx2)
  }

  /**
   In every state of every run and with every hash function, "tx1 is not blocked
   by tx2" survives every later vote exactly when a quorum of peers is settled
   on it; with fewer, late votes revoke it.
   */
  lemma {:induction false} NotBlockedByForGoodIff(es: seq<Event>, tx1: Tx, tx2: Tx, hash: Vote -> Hash)
    requires tx1.lbl == tx2.lbl
    requires !BlockedBy(Play(es).peers, Play(es).quorum, tx1, tx2)
    ensures var s := Play(es);
            NeverBlockedBy(s.peers, s.quorum, tx1, tx2, hash) <==> Enough(SettledBackers(s.peers, tx1, tx2), s.quorum)
  {
    EveryRunAllFalling(es);
    ForGoodIff(Play(es).peers, Play(es).quorum, tx1, tx2, hash);
  }

  lemma ForGoodIff(peers: Views, quorum: nat, tx1: Tx, tx2: Tx, hash: Vote -> Hash)
    requires tx1.lbl == tx2.lbl && AllFalling(peers)
    requires !BlockedBy(peers, quorum, tx1, tx2)
    ensures NeverBlockedBy(peers, quorum, tx1, tx2, hash) <==> Enough(SettledBackers(peers, tx1, tx2), quorum)
  {
    if Enough(SettledBackers(peers, tx1, tx2), quorum) {
      forall ws ensures !BlockedBy(RecordAll(peers, ws), quorum, tx1, tx2) {
        SettledQuorumForGood(peers, quorum, ws, tx1, tx2);
      }
    } else {
      var settled := SettledBackers(peers, tx1, tx2);
      var ws := TurnBackers(peers, BeforeBackers(peers, tx1, tx2) - settled, tx1, tx2, hash);
      assert BeforeBackers(RecordAll(peers, ws), tx1, tx2) <= settled;
      SubsetCount(BeforeBackers(RecordAll(peers, ws), tx1, tx2), settled);
    }
  }

  // ---------- what "blocked" means ----------

  /** The peer has neither transaction committed, no vote for u, and a list that is empty or exact from vote 0 on. */
  predicate ReadyFor(b: Bucket, tx: Tx, u: Tx) {
    && tx.hash !in b.committed && u.hash !in b.committed
    && FirstFor(b.votes, u.hash) == |b.votes|
    && (b.votes == [] || (ZeroBased(b) && Maximal(b)))
  }

  lemma SeenIffSettled(b: Bucket, tx: Tx, u: Tx)
    requires ReadyFor(b, tx, u)
    ensures Seen(b, tx.hash) <==> Settled(b, tx.hash, u.hash)
  {
    if b.votes != [] {
      SeenIffNoGap(b, tx.hash);
      if Before(b, tx.hash, u.hash) {
        SettledIffNoGap(b, tx.hash, u.hash);
      }
    }
  }

  /**
   "Not blocked" means that no transaction u nobody has voted for yet can take
   priority any more, if every known peer's list of the label is empty or exact
   from vote 0 on.
   */
  lemma {:induction false} NotBlockedIffNoneOvertakes(es: seq<Event>, tx: Tx, u: Tx, hash: Vote -> Hash)
    requires tx.lbl == u.lbl
    requires forall id :: id in Play(es).peers ==> ReadyFor(At(Play(es).peers[id], tx.lbl), tx, u)
    ensures var s := Play(es); !Blocked(s.peers, s.quorum, tx) <==> NeverBlockedBy(s.peers, s.quorum, tx, u, hash)
  {
    var s := Play(es);
    EveryRunAllFalling(es);
    forall id | id in s.peers ensures HasSeen(s.peers[id], tx) <==> Settled(At(s.peers[id], tx.lbl), tx.hash, u.hash) {
      SeenIffSettled(At(s.peers[id], tx.lbl), tx, u);
    }
    assert SeenBackers(s.peers, tx) == SettledBackers(s.peers, tx, u);
    UnblockedIsNever(s.peers, s.quorum, tx, u, hash);
  }

  lemma UnblockedIsNever(peers: Views, quorum: nat, tx: Tx, u: Tx, hash: Vote -> Hash)
    requires tx.lbl == u.lbl && AllFalling(peers)
    ensures Enough(SettledBackers(peers, tx, u), quorum) <==> NeverBlockedBy(peers, quorum, tx, u, hash)
  {
    if BlockedBy(peers, quorum, tx, u) {
      assert RecordAll(peers, []) == peers && AllHashed(hash, []);
      SubsetCount(SettledBackers(peers, tx, u), BeforeBackers(peers, tx, u));
    } else {
      ForGoodIff(peers, quorum, tx, u, hash);
    }
  }

  // ---------- every state of every orderly run ----------

  /** With n peers of which those in `among` matter, too few to unblock any two of the transactions both ways. */
  predicate RoomFor(peers: Views, among: set<ID>, txs: seq<Tx>, n: nat, quorum: nat) {
    forall i, j :: 0 <= i < j < |txs| ==> TooFew(n, |BothCommitted(peers, txs[i], txs[j]) * among|, quorum)
  }

  /**
   The calls that keep the engine within its assumptions: a stranger's vote must
   leave fewer than two quorums of peers, those that have two pending
   transactions committed counted twice; so must a new validator set; and a new
   transaction has the label of the pending ones and goes with each of them.
   */
  predicate Orderly(s: State, e: Event) {
    match e
    case AddTx(tx) =>
      Contains(s.txs, tx.hash) ||
      (forall i :: 0 <= i < |s.txs| ==> s.txs[i].lbl == tx.lbl && Undecided(s.peers, s.quorum, s.txs[i], tx))
    case AddVote(v) => v.pubkey in s.peers || RoomFor(s.peers, s.peers.Keys, s.txs, |s.peers| + 1, s.quorum)
    case AddBlock(_) => true
    case UpdateValidatorSet(vs) => RoomFor(s.peers, IdsOf(vs), s.txs, |IdsOf(vs)|, QuorumOf(|vs|))
  }

  predicate OrderlyRun(es: seq<Event>) {
    forall i :: 0 <= i < |es| ==> Orderly(Play(es[..i]), es[i])
  }

  predicate Inv(s: State) {
    Fit(s.peers, s.quorum, s.txs) && Distinct(s.txs)
  }

  lemma VoteKeepsCommitted(peers: Views, v: Vote, id: ID, tx: Tx)
    requires id in Record(peers, v)
    ensures CommittedAt(Record(peers, v)[id], tx) <==> id in peers && CommittedAt(peers[id], tx)
  {
    ReceiveStores(At(ViewOf(peers, v.pubkey), v.lbl), v);
  }

  lemma VoteCommitsNothing(peers: Views, v: Vote, tx1: Tx, tx2: Tx)
    ensures BothCommitted(Record(peers, v), tx1, tx2) == BothCommitted(peers, tx1, tx2)
    ensures BothCommitted(peers, tx1, tx2) * peers.Keys == BothCommitted(peers, tx1, tx2)
  {
    forall id | id in Record(peers, v)
      ensures id in BothCommitted(Record(peers, v), tx1, tx2) <==> id in BothCommitted(peers, tx1, tx2)
    {
      VoteKeepsCommitted(peers, v, id, tx1);
      VoteKeepsCommitted(peers, v, id, tx2);
    }
  }

  lemma VoteAddsPeer(peers: Views, v: Vote)
    ensures |Record(peers, v)| == |peers| + if v.pubkey in peers then 0 else 1
  {
    assert Record(peers, v).Keys == peers.Keys + {v.pubkey};
    assert |Record(peers, v)| == |Record(peers, v).Keys| && |peers| == |peers.Keys|;
  }

  lemma KnownVoteKeepsInv(s: State, v: Vote)
    requires Inv(s) && v.pubkey in s.peers
    ensures Inv(Step(s, AddVote(v)))
  {
    VoteAddsPeer(s.peers, v);
    forall i, j | 0 <= i < j < |s.txs| ensures Undecided(Record(s.peers, v), s.quorum, s.txs[i], s.txs[j]) {
      assert Undecided(s.peers, s.quorum, s.txs[i], s.txs[j]);
      VoteCommitsNothing(s.peers, v, s.txs[i], s.txs[j]);
    }
  }

  lemma StrangersVoteIff(s: State, v: Vote)
    requires OneLabel(s.txs) && v.pubkey !in s.peers
    ensures Fit(Record(s.peers, v), s.quorum, s.txs) <==>
            RoomFor(s.peers, s.peers.Keys, s.txs, |s.peers| + 1, s.quorum)
  {
    VoteAddsPeer(s.peers, v);
    forall i, j | 0 <= i < j < |s.txs|
      ensures Undecided(Record(s.peers, v), s.quorum, s.txs[i], s.txs[j]) <==>
              TooFew(|s.peers| + 1, |BothCommitted(s.peers, s.txs[i], s.txs[j]) * s.peers.Keys|, s.quorum)
    {
      VoteCommitsNothing(s.peers, v, s.txs[i], s.txs[j]);
    }
  }

  /** A vote commits nothing, so it can only break the bound on the number of peers. */
  lemma VoteKeepsInvIff(s: State, v: Vote)
    requires Inv(s)
    ensures Inv(Step(s, AddVote(v))) <==> Orderly(s, AddVote(v))
  {
    if v.pubkey in s.peers {
      KnownVoteKeepsInv(s, v);
    } else {
      StrangersVoteIff(s, v);
    }
  }

  lemma PushKeepsInvIff(s: State, tx: Tx)
    requires Inv(s)
    ensures Inv(Step(s, AddTx(tx))) <==> Orderly(s, AddTx(tx))
  {
    var list := Pushed(s.txs, tx);
    if !Contains(s.txs, tx.hash) {
      assert forall i :: 0 <= i < |s.txs| ==> list[i] == s.txs[i];
      assert list[|s.txs|] == tx;
      if Inv(Step(s, AddTx(tx))) {
        forall i | 0 <= i < |s.txs| ensures s.txs[i].lbl == tx.lbl && Undecided(s.peers, s.quorum, s.txs[i], tx) {
          assert list[i].lbl == list[|s.txs|].lbl && Undecided(s.peers, s.quorum, list[i], list[|s.txs|]);
        }
      }
    }
  }

  lemma BlockKeepsInv(s: State, block: seq<Tx>)
    requires Inv(s)
    ensures Inv(Step(s, AddBlock(block)))
  {
    var s' := Step(s, AddBlock(block));
    assert s'.peers.Keys == s.peers.Keys;
    assert |s'.peers| == |s'.peers.Keys| && |s.peers| == |s.peers.Keys|;
    WithoutKeepsDistinct(s.txs, HashesOf(block));
    WithoutMembers(s.txs, HashesOf(block));
    assert forall i :: 0 <= i < |s'.txs| ==> s'.txs[i] in s'.txs;
    forall i, j | 0 <= i < j < |s'.txs| ensures Undecided(s'.peers, s.quorum, s'.txs[i], s'.txs[j]) {
      BlockKeepsUndecided(s, block, s'.txs[i], s'.txs[j]);
    }
  }

  lemma BlockKeepsUndecided(s: State, block: seq<Tx>, tx1: Tx, tx2: Tx)
    requires Inv(s) && tx1 in s.txs && tx2 in s.txs && tx1.hash != tx2.hash
    requires tx1.hash !in HashesOf(block) && tx2.hash !in HashesOf(block)
    ensures Undecided(Step(s, AddBlock(block)).peers, s.quorum, tx1, tx2)
  {
    var i :| 0 <= i < |s.txs| && s.txs[i] == tx1;
    var j :| 0 <= j < |s.txs| && s.txs[j] == tx2;
    assert BothCommitted(s.peers, tx1, tx2) == BothCommitted(s.peers, tx2, tx1);
    assert if i < j then Undecided(s.peers, s.quorum, s.txs[i], s.txs[j]) else Undecided(s.peers, s.quorum, s.txs[j], s.txs[i]);
    forall id | id in s.peers
      ensures CommittedAt(WithCommitted(s.peers[id], block), tx1) == CommittedAt(s.peers[id], tx1)
      ensures CommittedAt(WithCommitted(s.peers[id], block), tx2) == CommittedAt(s.peers[id], tx2)
    {
      CommittedAdds(s.peers[id], block, tx1.lbl);
      CommittedAdds(s.peers[id], block, tx2.lbl);
    }
    var peers' := Step(s, AddBlock(block)).peers;
    assert BothCommitted(peers', tx1, tx2) == BothCommitted(s.peers, tx1, tx2);
    assert peers'.Keys == s.peers.Keys && |peers'| == |peers'.Keys| && |s.peers| == |s.peers.Keys|;
  }

  lemma {:induction false} WithoutMembers(list: seq<Tx>, hs: set<Hash>)
    ensures forall tx :: tx in Without(list, hs) ==> tx in list && tx.hash !in hs
  {
    if list == [] {
    } else {
      WithoutMembers(list[..|list| - 1], hs);
    }
  }

  lemma ValidatorsKeepInvIff(s: State, vs: seq<ID>)
    requires Inv(s)
    ensures Inv(Step(s, UpdateValidatorSet(vs))) <==> Orderly(s, UpdateValidatorSet(vs))
  {
    var s' := Step(s, UpdateValidatorSet(vs));
    assert s'.peers.Keys == IdsOf(vs) && |s'.peers| == |s'.peers.Keys|;
    forall i, j | 0 <= i < j < |s.txs|
      ensures BothCommitted(s'.peers, s.txs[i], s.txs[j]) == BothCommitted(s.peers, s.txs[i], s.txs[j]) * IdsOf(vs)
    {
    }
    if Inv(s') {
      forall i, j | 0 <= i < j < |s.txs|
        ensures TooFew(|IdsOf(vs)|, |BothCommitted(s.peers, s.txs[i], s.txs[j]) * IdsOf(vs)|, s'.quorum)
      {
        assert Undecided(s'.peers, s'.quorum, s'.txs[i], s'.txs[j]);
      }
    }
  }

  /** A new validator set is always orderly while no peer has two pending transactions committed. */
  lemma ValidatorsAreOrderly(s: State, vs: seq<ID>)
    requires forall i, j :: 0 <= i < j < |s.txs| ==> BothCommitted(s.peers, s.txs[i], s.txs[j]) == {}
    ensures Orderly(s, UpdateValidatorSet(vs))
  {
    IdsCount(vs);
  }

  lemma {:induction false} IdsCount(vs: seq<ID>)
    ensures |IdsOf(vs)| <= |vs|
  {
    if vs == [] {
    } else {
      var n := |vs| - 1;
      IdsCount(vs[..n]);
      assert IdsOf(vs) == IdsOf(vs[..n]) + {vs[n]};
    }
  }

  /** Orderly calls are exactly those that keep the invariant. */
  lemma StepKeepsInvIff(s: State, e: Event)
    requires Inv(s)
    ensures Inv(Step(s, e)) <==> Orderly(s, e)
  {
    match e
    case AddTx(tx) => PushKeepsInvIff(s, tx);
    case AddVote(v) => VoteKeepsInvIff(s, v);
    case AddBlock(block) => BlockKeepsInv(s, block);
    case UpdateValidatorSet(vs) => ValidatorsKeepInvIff(s, vs);
  }

  lemma {:induction false} OrderlyPrefix(es: seq<Event>)
    requires OrderlyRun(es) && es != []
    ensures OrderlyRun(es[..|es| - 1]) && Orderly(Play(es[..|es| - 1]), es[|es| - 1])
  {
    var before := es[..|es| - 1];
    forall i | 0 <= i < |before| ensures Orderly(Play(before[..i]), before[i]) {
      assert before[..i] == es[..i] && before[i] == es[i];
    }
  }

  lemma {:induction false} EveryRunKeepsInv(es: seq<Event>)
    requires OrderlyRun(es)
    ensures Inv(Play(es))
  {
    if es == [] {
    } else {
      OrderlyPrefix(es);
      EveryRunKeepsInv(es[..|es| - 1]);
      StepKeepsInvIff(Play(es[..|es| - 1]), es[|es| - 1]);
    }
  }

  /** Sizes of the dependency sets, the lengths of the blocker lists. */
  ghost function DepSizes(s: State): (sizes: seq<nat>)
    requires OneLabel(s.txs)
    ensures |sizes| == |s.txs| && Fits(sizes, |s.txs|)
  {
    forall i: nat ensures |DepsOf(s.peers, s.quorum, s.txs, i)| <= |s.txs| {
      SubsetCount(DepsOf(s.peers, s.quorum, s.txs, i), Below(|s.txs|));
    }
    seq(|s.txs|, i requires 0 <= i < |s.txs| => |DepsOf(s.peers, s.quorum, s.txs, i)|)
  }

  /** A quorum of peers reports pending transaction a before pending transaction b. */
  predicate QuorumPrefers(s: State, a: nat, b: nat)
    requires OneLabel(s.txs)
  {
    a < |s.txs| && b < |s.txs| && a != b && Enough(BeforeBackers(s.peers, s.txs[a], s.txs[b]), s.quorum)
  }

  ghost predicate FairDeps(s: State)
    requires OneLabel(s.txs)
  {
    forall a: nat, b: nat, i: nat :: QuorumPrefers(s, a, b) && b in DepsOf(s.peers, s.quorum, s.txs, i) ==>
      a in DepsOf(s.peers, s.quorum, s.txs, i)
  }

  ghost predicate ChainOfDeps(s: State)
    requires OneLabel(s.txs)
  {
    forall i: nat, j: nat :: i < |s.txs| && j < |s.txs| ==>
      || DepsOf(s.peers, s.quorum, s.txs, i) <= DepsOf(s.peers, s.quorum, s.txs, j)
      || DepsOf(s.peers, s.quorum, s.txs, j) <= DepsOf(s.peers, s.quorum, s.txs, i)
  }

  /**
   In every state of every orderly run: a quorum's preference between pending
   transactions is respected by every dependency set, the dependency sets form
   a chain, and a block without limits takes the whole pending list.
   */
  lemma EveryRunIsFair(es: seq<Event>)
    requires OrderlyRun(es)
    ensures var s := Play(es);
            && Fit(s.peers, s.quorum, s.txs)
            && FairDeps(s)
            && ChainOfDeps(s)
            && FillAll(s.txs, DepSizes(s), Options(0, 0)).block == s.txs
  {
    var s := Play(es);
    EveryRunKeepsInv(es);
    forall a: nat, b: nat, i: nat | QuorumPrefers(s, a, b) && b in DepsOf(s.peers, s.quorum, s.txs, i)
      ensures a in DepsOf(s.peers, s.quorum, s.txs, i)
    {
      DepsAreFair(s.peers, s.quorum, s.txs, a, b, i);
    }
    DepsFormChain(s.peers, s.quorum, s.txs);
    UnlimitedBlockTakesAll(s);
  }

  lemma UnlimitedBlockTakesAll(s: State)
    requires Fit(s.peers, s.quorum, s.txs) && Distinct(s.txs)
    ensures FillAll(s.txs, DepSizes(s), Options(0, 0)).block == s.txs
  {
    BlockLengthIff(s.txs, DepSizes(s), Options(0, 0));
    SomeListIsFull(s);
  }

  lemma SomeListIsFull(s: State)
    requires Fit(s.peers, s.quorum, s.txs)
    ensures MaxOf(DepSizes(s)) == |s.txs|
  {
    var sizes := DepSizes(s);
    DepsFormChain(s.peers, s.quorum, s.txs);
    if s.txs == [] {
      assert sizes == [];
    } else {
      var i: nat :| i < |s.txs| && DepsOf(s.peers, s.quorum, s.txs, i) == Below(|s.txs|);
      assert sizes[i] == |s.txs|;
    }
  }

  lemma {:induction false} OrderlySnoc(es: seq<Event>, e: Event)
    requires OrderlyRun(es) && Orderly(Play(es), e)
    ensures OrderlyRun(es + [e]) && Play(es + [e]) == Step(Play(es), e)
  {
    var all := es + [e];
    assert all[..|es|] == es && all[|es|] == e;
    assert forall i :: 0 <= i < |es| ==> all[..i] == es[..i] && all[i] == es[i];
  }

  /** One validator votes for a; then two transactions are added. */
  function OneVote(a: Tx, first: Tx, second: Tx, hash: Vote -> Hash): seq<Event> {
    [UpdateValidatorSet([0])] + [AddVote(MakeVote(hash, 0, a.lbl, 0, a.hash, 0))] + [AddTx(first)] + [AddTx(second)]
  }

  lemma OneValidator()
    ensures OrderlyRun([UpdateValidatorSet([0])])
    ensures Play([UpdateValidatorSet([0])]) == State(1, [], map[0 := map[]])
  {
    OrderlySnoc([], UpdateValidatorSet([0]));
    assert [] + [UpdateValidatorSet([0])] == [UpdateValidatorSet([0])];
    assert [0 as ID][0] == 0 && IdsOf([0]) == {0};
  }

  lemma OneVoteRecorded(a: Tx, hash: Vote -> Hash)
    ensures Record(map[0 := map[]], MakeVote(hash, 0, a.lbl, 0, a.hash, 0)) == map[0 := VotedFor(0, a, hash)]
  {
    FirstVote(MakeVote(hash, 0, a.lbl, 0, a.hash, 0));
  }

  lemma OneVotePlays(a: Tx, first: Tx, second: Tx, hash: Vote -> Hash)
    requires first.lbl == second.lbl && first.hash != second.hash
    ensures OrderlyRun(OneVote(a, first, second, hash))
    ensures Play(OneVote(a, first, second, hash)) == State(1, [first, second], map[0 := VotedFor(0, a, hash)])
  {
    var v := MakeVote(hash, 0, a.lbl, 0, a.hash, 0);
    var es := [UpdateValidatorSet([0])];
    OneValidator();
    OrderlySnoc(es, AddVote(v));
    OneVoteRecorded(a, hash);
    OrderlySnoc(es + [AddVote(v)], AddTx(first));
    SecondIsOrderly(first, second, map[0 := VotedFor(0, a, hash)]);
    OrderlySnoc(es + [AddVote(v)] + [AddTx(first)], AddTx(second));
  }

  lemma SecondIsOrderly(first: Tx, second: Tx, peers: Views)
    requires first.lbl == second.lbl && first.hash != second.hash
    requires |peers| == 1 && BothCommitted(peers, first, second) == {}
    ensures Orderly(State(1, [first], peers), AddTx(second))
    ensures Step(State(1, [first], peers), AddTx(second)) == State(1, [first, second], peers)
  {
    assert !Contains([first], second.hash);
  }

  /** The only validator's vote 1, for a, comes before its vote 0, for b. */
  function VoteOneFirst(a: Tx, hash: Vote -> Hash, prev: Hash): seq<Event> {
    [UpdateValidatorSet([0])] + [AddVote(MakeVote(hash, 0, a.lbl, 1, a.hash, prev))]
  }

  /** Monotony fails in a run: "a is not blocked by b", until the vote with the lower number arrives. */
  lemma {:induction false} MonotonyFails(a: Tx, b: Tx, hash: Vote -> Hash, prev: Hash)
    requires a.lbl == b.lbl && a.hash != b.hash
    ensures var es, v0 := VoteOneFirst(a, hash, prev), MakeVote(hash, 0, b.lbl, 0, b.hash, 0);
            && OrderlyRun(es + [AddVote(v0)])
            && !BlockedBy(Play(es).peers, Play(es).quorum, a, b)
            && BlockedBy(Play(es + [AddVote(v0)]).peers, Play(es + [AddVote(v0)]).quorum, a, b)
  {
    var v1, v0 := MakeVote(hash, 0, a.lbl, 1, a.hash, prev), MakeVote(hash, 0, b.lbl, 0, b.hash, 0);
    var es := [UpdateValidatorSet([0])];
    OneValidator();
    OrderlySnoc(es, AddVote(v1));
    OrderlySnoc(es + [AddVote(v1)], AddVote(v0));
    var peers := Record(map[0 := map[]], v1);
    RecordAt(map[0 := map[]], v1, 0, a.lbl);
    RecordAt(peers, v0, 0, a.lbl);
    TurnedByVoteZero(v1, v0);
    assert BeforeBackers(peers, a, b) == {0};
    assert BeforeBackers(Record(peers, v0), a, b) == {};
  }

  lemma TurnedByVoteZero(v1: Vote, v0: Vote)
    requires v1.seqNo == 1 && v0.seqNo == 0 && v1.txHash != v0.txHash
    ensures var b := Receive(EMPTY, v1).bucket;
            Before(b, v1.txHash, v0.txHash) && !Before(Receive(b, v0).bucket, v1.txHash, v0.txHash)
  {
    var b := Receive(EMPTY, v1).bucket;
    FirstVote(v1);
    assert b.votes == [v1] && Receive(b, v0).bucket.votes == [v1, v0];
    FirstForUnique([v1], v1.txHash, 0);
    FirstForUnique([v1], v0.txHash, 1);
    FirstForUnique([v1, v0], v1.txHash, 0);
    FirstForUnique([v1, v0], v0.txHash, 1);
    ReceiveStores(EMPTY, v1);
    ReceiveStores(b, v0);
  }

  /**
   With TxLimit the blocker lists cut the wrong transactions: the only peer
   reports a before b, b was added first, and the block of one is [b].
   */
  lemma LimitedBlockUnfair(a: Tx, b: Tx, hash: Vote -> Hash)
    requires a.lbl == b.lbl && a.hash != b.hash
    ensures var s := Play(OneVote(a, b, a, hash));
            && OrderlyRun(OneVote(a, b, a, hash)) && s.txs == [b, a] && OneLabel(s.txs)
            && FillAll(s.txs, DepSizes(s), Options(1, 0)).block == [b]
            && Enough(BeforeBackers(s.peers, a, b), s.quorum)
            && !FairPrefix(s.peers, s.quorum, s.txs, 1)
  {
    OneVotePlays(a, b, a, hash);
    BlockOfOneUnfair(a, b, hash);
  }

  lemma BlockOfOneUnfair(a: Tx, b: Tx, hash: Vote -> Hash)
    requires a.lbl == b.lbl && a.hash != b.hash
    ensures var s := State(1, [b, a], map[0 := VotedFor(0, a, hash)]);
            && OneLabel(s.txs)
            && FillAll(s.txs, DepSizes(s), Options(1, 0)).block == [b]
            && Enough(BeforeBackers(s.peers, a, b), s.quorum)
            && !FairPrefix(s.peers, s.quorum, s.txs, 1)
  {
    var s := State(1, [b, a], map[0 := VotedFor(0, a, hash)]);
    VotedForPrefers(0, a, b, hash);
    assert BeforeBackers(s.peers, a, b) == {0};
    assert BeforeBackers(s.peers, b, a) == {};
    ReachesSelf(BlockEdges(s.peers, s.quorum, s.txs), 0);
    var deps := DepsOf(s.peers, s.quorum, s.txs, 0);
    assert 0 in deps;
    SubsetCount({0}, deps);
    assert DepSizes(s)[0] == |deps|;
    BlockLengthIff(s.txs, DepSizes(s), Options(1, 0));
    PrefixFairIff(s.peers, s.quorum, s.txs, 1);
    assert s.txs[0] == b && s.txs[1] == a;
  }

  /**
   With MaxBlockSize the lists are charged one after the other: the pending list
   [a, b] fits, the only peer reports a before b, and the block is cut to [a].
   */
  lemma FittingBlockCut(a: Tx, b: Tx, hash: Vote -> Hash)
    requires a.lbl == b.lbl && a.hash != b.hash && |a.bytes| > 0
    ensures var s, o := Play(OneVote(a, a, b, hash)), Options(0, |a.bytes| + |b.bytes|);
            && OrderlyRun(OneVote(a, a, b, hash)) && s.txs == [a, b] && OneLabel(s.txs)
            && Bytes(s.txs) <= o.maxBlockSize
            && FillAll(s.txs, DepSizes(s), o).block == [a]
  {
    OneVotePlays(a, a, b, hash);
    BlockIsCut(a, b, hash);
  }

  lemma BlockIsCut(a: Tx, b: Tx, hash: Vote -> Hash)
    requires a.lbl == b.lbl && a.hash != b.hash && |a.bytes| > 0
    ensures var s, o := State(1, [a, b], map[0 := VotedFor(0, a, hash)]), Options(0, |a.bytes| + |b.bytes|);
            OneLabel(s.txs) && Bytes(s.txs) <= o.maxBlockSize && FillAll(s.txs, DepSizes(s), o).block == [a]
  {
    OneVoteSizes(a, b, hash);
    ChargedTwice(a, b);
  }

  lemma OneVoteSizes(a: Tx, b: Tx, hash: Vote -> Hash)
    requires a.lbl == b.lbl && a.hash != b.hash
    ensures DepSizes(State(1, [a, b], map[0 := VotedFor(0, a, hash)])) == [1, 2]
  {
    var s := State(1, [a, b], map[0 := VotedFor(0, a, hash)]);
    VotedForPrefers(0, a, b, hash);
    assert BeforeBackers(s.peers, a, b) == {0};
    assert BeforeBackers(s.peers, b, a) == {};
    var e := BlockEdges(s.peers, s.quorum, s.txs);
    assert s.txs[0] == a && s.txs[1] == b;
    assert (0, 1) !in e && (1, 0) in e;
    ReachesSelf(e, 0);
    ReachesSelf(e, 1);
    ReachesByEdge(e, 1, 0);
    PrefixFairIff(s.peers, s.quorum, s.txs, 1);
    var deps0, deps1 := DepsOf(s.peers, s.quorum, s.txs, 0), DepsOf(s.peers, s.quorum, s.txs, 1);
    assert FairPrefix(s.peers, s.quorum, s.txs, 1);
    assert deps0 <= Below(1);
    assert deps0 == {0};
    assert deps1 == {0, 1};
    assert |deps0| == 1 && |deps1| == 2;
  }

  /** After a block, every known peer puts its transactions before every other transaction. */
  lemma CommittedGoFirst(s: State, block: seq<Tx>, k: nat, other: Tx)
    requires k < |block| && block[k].lbl == other.lbl
    ensures var s' := Step(s, AddBlock(block));
            && BeforeBackers(s'.peers, block[k], other) == s'.peers.Keys == s.peers.Keys
            && (1 <= s.quorum <= |s.peers| ==> !BlockedBy(s'.peers, s'.quorum, block[k], other))
  {
    var s' := Step(s, AddBlock(block));
    forall id | id in s.peers ensures Prefers(s'.peers[id], block[k], other) {
      CommittedAdds(s.peers[id], block, other.lbl);
    }
    assert |s.peers| == |s.peers.Keys|;
  }

  /** Some call added the transaction and no block since then had it. */
  predicate AddedNotTaken(es: seq<Event>, h: Hash) {
    exists i :: 0 <= i < |es| && es[i].AddTx? && es[i].tx.hash == h &&
      (forall j :: i < j < |es| && es[j].AddBlock? ==> h !in HashesOf(es[j].block))
  }

  lemma AddedNotTakenSnoc(es: seq<Event>, e: Event, h: Hash)
    ensures AddedNotTaken(es + [e], h) <==>
            || (e.AddTx? && e.tx.hash == h)
            || (AddedNotTaken(es, h) && !(e.AddBlock? && h in HashesOf(e.block)))
  {
    var n, all := |es|, es + [e];
    assert all[n] == e && forall i :: 0 <= i < n ==> all[i] == es[i];
    if AddedNotTaken(es, h) {
      var i :| 0 <= i < n && es[i].AddTx? && es[i].tx.hash == h &&
        (forall j :: i < j < n && es[j].AddBlock? ==> h !in HashesOf(es[j].block));
      assert all[i] == es[i];
    }
    if e.AddTx? && e.tx.hash == h {
      assert all[n].AddTx?;
    }
  }

  /**
   In every state of every run, pending are exactly the transactions that were
   added and have not been in a block since.
   */
  lemma {:induction false} PendingIff(es: seq<Event>, h: Hash)
    ensures Contains(Play(es).txs, h) <==> AddedNotTaken(es, h)
    ensures Distinct(Play(es).txs)
  {
    if es == [] {
    } else {
      var n := |es| - 1;
      var s, e := Play(es[..n]), es[n];
      PendingIff(es[..n], h);
      assert es == es[..n] + [e];
      AddedNotTakenSnoc(es[..n], e, h);
      match e
      case AddTx(tx) => PushedContains(s.txs, tx, h);
      case AddVote(_) =>
      case AddBlock(block) =>
        WithoutContains(s.txs, HashesOf(block), h);
        WithoutKeepsDistinct(s.txs, HashesOf(block));
      case UpdateValidatorSet(_) =>
    }
  }

  /** So no block, whatever its limits, holds a transaction again that was in a block and not added since. */
  lemma BlockHoldsPending(es: seq<Event>, sizes: seq<nat>, o: Options, h: Hash)
    requires Fits(sizes, |Play(es).txs|)
    requires Contains(FillAll(Play(es).txs, sizes, o).block, h)
    ensures AddedNotTaken(es, h)
  {
    PendingIff(es, h);
    var txs, block := Play(es).txs, FillAll(Play(es).txs, sizes, o).block;
    BlockWithinLimits(txs, sizes, o);
    var i :| 0 <= i < |block| && block[i].hash == h;
    assert txs[i] == block[i];
  }
}
