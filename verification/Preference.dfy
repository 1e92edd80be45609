/**
 What a bucket says about two transactions: which one its peer reported first
 (`Before`), whether it has seen one (`Seen`), and exactly when those
 answers hold up while more votes arrive.
 */
module Preference {
  import opened Types
  import opened Buckets
  import opened Delivery

  /** Position of the first vote for a transaction, or the length of the list. */
  function FirstFor(vs: seq<Vote>, h: Hash): (k: nat)
    ensures k <= |vs|
    ensures k < |vs| ==> vs[k].txHash == h
    ensures forall j :: 0 <= j < k ==> vs[j].txHash != h
  {
    if vs == [] || vs[0].txHash == h then 0 else 1 + FirstFor(vs[1..], h)
  }

  predicate SeenIn(vs: seq<Vote>, last: nat, h: Hash) {
    FirstFor(vs, h) < |vs| && vs[FirstFor(vs, h)].seqNo <= last
  }

  predicate Seen(b: Bucket, h: Hash) {
    SeenIn(b.votes, b.lastSeqSeen, h)
  }

  /** Committed comes before voted, voted before unvoted, and two votes compare by sequence number. */
  predicate Before(b: Bucket, h1: Hash, h2: Hash) {
    if h1 in b.committed then true
    else if h2 in b.committed then false
    else Leads(b.votes, h1, h2)
  }

  predicate Leads(vs: seq<Vote>, h1: Hash, h2: Hash) {
    var i, j := FirstFor(vs, h1), FirstFor(vs, h2);
    i < |vs| && (j == |vs| || vs[i].seqNo < vs[j].seqNo)
  }

  /** A bucket never prefers both ways, unless it has both transactions committed. */
  lemma BeforeOneWay(b: Bucket, h1: Hash, h2: Hash)
    ensures Before(b, h1, h2) && Before(b, h2, h1) ==> h1 in b.committed && h2 in b.committed
  {
  }

  /** The reports of one bucket are a transitive relation. */
  lemma BeforeTransitive(b: Bucket, h1: Hash, h2: Hash, h3: Hash)
    requires Before(b, h1, h2) && Before(b, h2, h3)
    ensures Before(b, h1, h3)
  {
  }

  /** In a sorted list any two transactions are ordered, once one of them is voted for or committed. */
  lemma BeforeTotal(b: Bucket, h1: Hash, h2: Hash)
    requires Increasing(b.votes) && h1 != h2
    ensures Before(b, h1, h2) || Before(b, h2, h1) <==>
            h1 in b.committed || h2 in b.committed ||
            FirstFor(b.votes, h1) < |b.votes| || FirstFor(b.votes, h2) < |b.votes|
  {
    var i, j := FirstFor(b.votes, h1), FirstFor(b.votes, h2);
    if i < |b.votes| && j < |b.votes| {
      assert i < j || j < i;
    }
  }

  lemma {:induction false} SomeHashOutside(hs: set<Hash>) returns (h: Hash)
    ensures h !in hs && forall x :: x in hs ==> x < h
  {
    if hs == {} {
      h := 0;
    } else {
      var x :| x in hs;
      var above := SomeHashOutside(hs - {x});
      h := if x < above then above else x + 1;
      assert hs == (hs - {x}) + {x};
    }
  }

  /**
   "If tx1 and/or tx2 are not seen, Before returns false": true of a bucket
   exactly while it holds no votes and nothing is committed.
   */
  lemma BeforeNeedsSeenIff(b: Bucket)
    ensures (forall h1, h2 :: Before(b, h1, h2) ==> Seen(b, h1) && Seen(b, h2)) <==> b.votes == [] && b.committed == {}
  {
    var voted := set i | 0 <= i < |b.votes| :: b.votes[i].txHash;
    var h2 := SomeHashOutside(voted + b.committed);
    assert FirstFor(b.votes, h2) == |b.votes|;
    assert !Seen(b, h2);
    if h1 :| h1 in b.committed {
      assert Before(b, h1, h2);
    } else if b.votes != [] {
      assert FirstFor(b.votes, b.votes[0].txHash) == 0;
      assert Before(b, b.votes[0].txHash, h2);
    }
  }

  // ---------- one more vote ----------

  lemma {:induction false} FirstForInserted(vs: seq<Vote>, k: nat, v: Vote, h: Hash)
    requires k < |vs|
    ensures var i := FirstFor(vs, h);
            FirstFor(InsertAfter(vs, k, v), h) ==
            if i <= k then i else if v.txHash == h then k + 1 else i + 1
  {
    var i, vs' := FirstFor(vs, h), InsertAfter(vs, k, v);
    if i <= k {
      FirstForUnique(vs', h, i);
    } else if v.txHash == h {
      FirstForUnique(vs', h, k + 1);
    } else {
      forall j | 0 <= j < i + 1 ensures vs'[j].txHash != h {
        assert vs'[j] == if j <= k then vs[j] else if j == k + 1 then v else vs[j - 1];
      }
      FirstForUnique(vs', h, i + 1);
    }
  }

  lemma FirstForAppended(vs: seq<Vote>, v: Vote, h: Hash)
    ensures var i := FirstFor(vs, h);
            FirstFor(vs + [v], h) == if i < |vs| || v.txHash == h then i else |vs| + 1
  {
    var i := FirstFor(vs, h);
    FirstForUnique(vs + [v], h, if i < |vs| || v.txHash == h then i else |vs| + 1);
  }

  lemma FirstForUnique(vs: seq<Vote>, h: Hash, k: nat)
    requires k <= |vs| && (k < |vs| ==> vs[k].txHash == h)
    requires forall j :: 0 <= j < k ==> vs[j].txHash != h
    ensures FirstFor(vs, h) == k
  {
  }

  lemma CounterNeverFalls(b: Bucket, v: Vote)
    ensures Receive(b, v).bucket.lastSeqSeen >= b.lastSeqSeen
  {
    var r := Receive(b, v);
    if r.reply == Added {
      var k := LastAtMost(b.votes, v.seqNo);
      AdvanceMeets(r.bucket.votes, if k < 0 then |b.votes| else k + 1, b.lastSeqSeen);
    }
  }

  /** Seen never reverts, in any bucket, sorted or not: an earlier vote can only sit lower. */
  lemma SeenSurvives(b: Bucket, v: Vote, h: Hash)
    requires Seen(b, h)
    ensures Seen(Receive(b, v).bucket, h)
  {
    CounterNeverFalls(b, v);
    ReceiveCases(b, v);
    var k := LastAtMost(b.votes, v.seqNo);
    if k < 0 {
      SeenWhenAppended(b.votes, b.lastSeqSeen, v, h);
    } else {
      SeenWhenInserted(b.votes, b.lastSeqSeen, k, v, h);
    }
  }

  lemma SeenWhenAppended(vs: seq<Vote>, last: nat, v: Vote, h: Hash)
    requires SeenIn(vs, last, h)
    ensures SeenIn(vs + [v], last, h)
  {
    FirstForAppended(vs, v, h);
  }

  lemma SeenWhenInserted(vs: seq<Vote>, last: nat, k: nat, v: Vote, h: Hash)
    requires SeenIn(vs, last, h) && k < |vs| && forall j :: k < j < |vs| ==> vs[j].seqNo > v.seqNo
    ensures SeenIn(InsertAfter(vs, k, v), last, h)
  {
    FirstForInserted(vs, k, v, h);
  }

  lemma {:induction false} SeenForGood(b: Bucket, ws: seq<Vote>, h: Hash)
    requires Seen(b, h)
    ensures Seen(Run(b, ws), h)
  {
    if ws == [] {
    } else {
      SeenForGood(b, ws[..|ws| - 1], h);
      SeenSurvives(Run(b, ws[..|ws| - 1]), ws[|ws| - 1], h);
    }
  }

  // ---------- exactly when a report can be overtaken ----------

  /** From position m on, every number from the one at m up to s is held. */
  predicate Covers(vs: seq<Vote>, m: nat, s: nat)
    requires m < |vs|
  {
    forall n :: vs[m].seqNo <= n <= s ==> MeetsFrom(vs, m, n)
  }

  /**
   The last run of the list starts at m. Nothing is ever stored at or before m,
   and nothing lower is appended once vote 0 is held.
   */
  predicate SettledIn(vs: seq<Vote>, m: nat, h1: Hash, h2: Hash) {
    var i, j := FirstFor(vs, h1), FirstFor(vs, h2);
    && LastRunAt(vs, m) && i < |vs|
    && (j <= m || (Covers(vs, m, vs[i].seqNo) && (vs[m].seqNo == 0 || j < |vs|)))
  }

  /** The report h1-before-h2 can no longer be overtaken. */
  ghost predicate Settled(b: Bucket, h1: Hash, h2: Hash) {
    Before(b, h1, h2) && (h1 in b.committed || exists m: nat :: SettledIn(b.votes, m, h1, h2))
  }

  lemma {:induction false} AppendKeepsSettled(vs: seq<Vote>, m: nat, v: Vote, h1: Hash, h2: Hash)
    requires Leads(vs, h1, h2) && SettledIn(vs, m, h1, h2) && v.seqNo < vs[m].seqNo
    ensures Leads(vs + [v], h1, h2) && SettledIn(vs + [v], |vs|, h1, h2)
  {
    FirstForAppended(vs, v, h1);
    FirstForAppended(vs, v, h2);
    forall j | 0 <= j < |vs| ensures vs[j].seqNo > v.seqNo {
      LastRunIsFloor(vs, m, j);
    }
  }

  /** v belongs right behind position k of the last run, which starts at m. */
  predicate InLastRun(vs: seq<Vote>, m: nat, k: nat, v: Vote) {
    LastRunAt(vs, m) && m <= k && Slot(vs, 0, k, v)
  }

  lemma {:induction false} InsertKeepsLeads(vs: seq<Vote>, m: nat, k: nat, v: Vote, h1: Hash, h2: Hash)
    requires Leads(vs, h1, h2) && SettledIn(vs, m, h1, h2) && InLastRun(vs, m, k, v)
    ensures Leads(InsertAfter(vs, k, v), h1, h2)
  {
    if FirstFor(vs, h2) > m {
      CoveredIsNotInserted(vs, m, k, v, vs[FirstFor(vs, h1)].seqNo);
    }
    HigherVoteKeepsLeads(vs, k, v, h1, h2);
  }

  /** A vote above the one for h1, or behind the one for h2, does not turn the report. */
  lemma {:induction false} HigherVoteKeepsLeads(vs: seq<Vote>, k: nat, v: Vote, h1: Hash, h2: Hash)
    requires Leads(vs, h1, h2) && k < |vs| && forall j :: k < j < |vs| ==> vs[j].seqNo > v.seqNo
    requires FirstFor(vs, h2) <= k || v.seqNo > vs[FirstFor(vs, h1)].seqNo
    ensures Leads(InsertAfter(vs, k, v), h1, h2)
  {
    FirstForInserted(vs, k, v, h1);
    FirstForInserted(vs, k, v, h2);
  }

  /** Where every number up to s is held, only higher votes are still inserted. */
  lemma {:induction false} CoveredIsNotInserted(vs: seq<Vote>, m: nat, k: nat, v: Vote, s: nat)
    requires InLastRun(vs, m, k, v) && Covers(vs, m, s)
    ensures v.seqNo > s
  {
    if v.seqNo <= s {
      LastRunIsFloor(vs, m, k);
      assert MeetsFrom(vs, m, v.seqNo);
      var l :| m <= l < |vs| && vs[l].seqNo == v.seqNo;
      LastRunSorted(vs, m, l, k);
    }
  }

  lemma LastRunSorted(vs: seq<Vote>, m: nat, i: nat, j: nat)
    requires LastRunAt(vs, m) && m <= i < |vs| && m <= j < |vs|
    ensures vs[i].seqNo < vs[j].seqNo <==> i < j
  {
    assert vs[m..][i - m] == vs[i] && vs[m..][j - m] == vs[j];
  }

  lemma InsertKeepsCovers(vs: seq<Vote>, m: nat, k: nat, v: Vote, s: nat)
    requires m <= k < |vs| && Covers(vs, m, s)
    ensures Covers(InsertAfter(vs, k, v), m, s)
  {
    var vs' := InsertAfter(vs, k, v);
    forall n | vs[m].seqNo <= n <= s ensures MeetsFrom(vs', m, n) {
      assert MeetsFrom(vs, m, n);
      var l :| m <= l < |vs| && vs[l].seqNo == n;
      assert vs'[if l <= k then l else l + 1] == vs[l];
    }
  }

  lemma {:induction false} InsertKeepsSettled(vs: seq<Vote>, m: nat, k: nat, v: Vote, h1: Hash, h2: Hash)
    requires Leads(vs, h1, h2) && SettledIn(vs, m, h1, h2) && InLastRun(vs, m, k, v)
    ensures Leads(InsertAfter(vs, k, v), h1, h2) && SettledIn(InsertAfter(vs, k, v), m, h1, h2)
  {
    var vs' := InsertAfter(vs, k, v);
    InsertKeepsLeads(vs, m, k, v, h1, h2);
    InsertIntoLastRun(vs, m, k, v);
    FirstForInserted(vs, k, v, h1);
    FirstForInserted(vs, k, v, h2);
    var i, i' := FirstFor(vs, h1), FirstFor(vs', h1);
    assert vs'[i'].seqNo <= vs[i].seqNo;
    if Covers(vs, m, vs[i].seqNo) {
      InsertKeepsCovers(vs, m, k, v, vs[i].seqNo);
    }
  }

  /** A vote that is not lower than the last run is stored in it. */
  lemma StoredInLastRun(vs: seq<Vote>, m: nat, v: Vote)
    requires LastRunAt(vs, m)
    ensures var k := LastAtMost(vs, v.seqNo);
            && (v.seqNo < vs[m].seqNo <==> k < 0)
            && (k >= 0 && vs[k].seqNo < v.seqNo ==> InLastRun(vs, m, k, v))
  {
    var k := LastAtMost(vs, v.seqNo);
    if k >= 0 {
      LastRunIsFloor(vs, m, k);
    }
  }

  lemma SettledSurvives(b: Bucket, v: Vote, h1: Hash, h2: Hash)
    requires Settled(b, h1, h2)
    ensures Settled(Receive(b, v).bucket, h1, h2)
  {
    var b' := Receive(b, v).bucket;
    ReceiveStores(b, v);
    if h1 !in b.committed {
      var m: nat :| SettledIn(b.votes, m, h1, h2);
      var k := LastAtMost(b.votes, v.seqNo);
      ReceiveCases(b, v);
      StoredInLastRun(b.votes, m, v);
      if b'.votes == b.votes {
      } else if k < 0 {
        AppendKeepsSettled(b.votes, m, v, h1, h2);
      } else {
        InsertKeepsSettled(b.votes, m, k, v, h1, h2);
      }
    }
  }

  lemma {:induction false} SettledForGood(b: Bucket, ws: seq<Vote>, h1: Hash, h2: Hash)
    requires Settled(b, h1, h2)
    ensures Settled(Run(b, ws), h1, h2)
  {
    if ws == [] {
    } else {
      SettledForGood(b, ws[..|ws| - 1], h1, h2);
      SettledSurvives(Run(b, ws[..|ws| - 1]), ws[|ws| - 1], h1, h2);
    }
  }

  /** The vote number n of peer id for h, linked to the vote it will follow. */
  function LateVote(vs: seq<Vote>, id: ID, l: Label, n: nat, h: Hash, hash: Vote -> Hash): Vote {
    var k := LastAtMost(vs, n);
    MakeVote(hash, id, l, n, h, if k < 0 then 0 else vs[k].digest)
  }

  /** Late votes are never rejected: where their number is missing from the last run, they are stored. */
  lemma {:induction false} LateVoteIsStored(b: Bucket, m: nat, id: ID, l: Label, n: nat, h: Hash, hash: Vote -> Hash)
    requires LastRunAt(b.votes, m) && !MeetsFrom(b.votes, m, n)
    ensures var v, k := LateVote(b.votes, id, l, n, h, hash), LastAtMost(b.votes, n);
            if n < b.votes[m].seqNo then Receive(b, v).bucket.votes == b.votes + [v]
            else InLastRun(b.votes, m, k, v) && Receive(b, v).bucket.votes == InsertAfter(b.votes, k, v)
  {
    var v, k := LateVote(b.votes, id, l, n, h, hash), LastAtMost(b.votes, n);
    StoredInLastRun(b.votes, m, v);
    if k >= 0 {
      LastRunIsFloor(b.votes, m, k);
      assert m <= k;
      assert b.votes[k].seqNo != n;
    }
  }

  lemma {:induction false} InsertedOvertakes(vs: seq<Vote>, m: nat, k: nat, v: Vote, h1: Hash, h2: Hash)
    requires Leads(vs, h1, h2) && InLastRun(vs, m, k, v) && v.txHash == h2
    requires m < FirstFor(vs, h2) && v.seqNo <= vs[FirstFor(vs, h1)].seqNo
    ensures !Leads(InsertAfter(vs, k, v), h1, h2)
  {
    FirstForInserted(vs, k, v, h1);
    FirstForInserted(vs, k, v, h2);
    var j := FirstFor(vs, h2);
    if j <= k {
      LastRunSorted(vs, m, k, j);
    }
  }

  /** While vote 0 is missing, a transaction without votes can still get it. */
  lemma {:induction false} VoteZeroOvertakes(b: Bucket, m: nat, id: ID, l: Label, h1: Hash, h2: Hash, hash: Vote -> Hash)
    requires LastRunAt(b.votes, m) && b.votes[m].seqNo > 0 && Leads(b.votes, h1, h2)
    requires FirstFor(b.votes, h2) == |b.votes|
    ensures !Leads(Receive(b, LateVote(b.votes, id, l, 0, h2, hash)).bucket.votes, h1, h2)
  {
    var v := LateVote(b.votes, id, l, 0, h2, hash);
    forall j | m <= j < |b.votes| ensures b.votes[j].seqNo > 0 {
      LastRunIsFloor(b.votes, m, j);
    }
    LateVoteIsStored(b, m, id, l, 0, h2, hash);
    FirstForAppended(b.votes, v, h2);
  }

  lemma {:induction false} MissingVoteOvertakes(b: Bucket, m: nat, id: ID, l: Label, n: nat, h1: Hash, h2: Hash, hash: Vote -> Hash)
    requires LastRunAt(b.votes, m) && Leads(b.votes, h1, h2) && m < FirstFor(b.votes, h2)
    requires b.votes[m].seqNo <= n <= b.votes[FirstFor(b.votes, h1)].seqNo && !MeetsFrom(b.votes, m, n)
    ensures !Leads(Receive(b, LateVote(b.votes, id, l, n, h2, hash)).bucket.votes, h1, h2)
  {
    var v := LateVote(b.votes, id, l, n, h2, hash);
    LateVoteIsStored(b, m, id, l, n, h2, hash);
    InsertedOvertakes(b.votes, m, LastAtMost(b.votes, n), v, h1, h2);
  }

  /** A report that is not settled is overtaken by one late vote for the other transaction. */
  lemma LateVoteOvertakes(b: Bucket, id: ID, l: Label, h1: Hash, h2: Hash, hash: Vote -> Hash) returns (n: nat)
    requires FallingRuns(b.votes) && Before(b, h1, h2) && !Settled(b, h1, h2)
    ensures !Before(Receive(b, LateVote(b.votes, id, l, n, h2, hash)).bucket, h1, h2)
  {
    var m: nat :| LastRunAt(b.votes, m) && FallingRuns(b.votes[..m]);
    n := OvertakingNumber(b.votes, m, h1, h2);
    if b.votes[m].seqNo > 0 && FirstFor(b.votes, h2) == |b.votes| {
      VoteZeroOvertakes(b, m, id, l, h1, h2, hash);
    } else {
      MissingVoteOvertakes(b, m, id, l, n, h1, h2, hash);
    }
    ReceiveStores(b, LateVote(b.votes, id, l, n, h2, hash));
  }

  lemma OvertakingNumber(vs: seq<Vote>, m: nat, h1: Hash, h2: Hash) returns (n: nat)
    requires LastRunAt(vs, m) && Leads(vs, h1, h2) && !SettledIn(vs, m, h1, h2)
    ensures m < FirstFor(vs, h2)
    ensures if vs[m].seqNo > 0 && FirstFor(vs, h2) == |vs| then n == 0
            else vs[m].seqNo <= n <= vs[FirstFor(vs, h1)].seqNo && !MeetsFrom(vs, m, n)
  {
    if vs[m].seqNo > 0 && FirstFor(vs, h2) == |vs| {
      n := 0;
    } else {
      n :| vs[m].seqNo <= n <= vs[FirstFor(vs, h1)].seqNo && !MeetsFrom(vs, m, n);
    }
  }

  /** Votes that one peer can cast under one label, with this hash function. */
  predicate CastBy(id: ID, l: Label, hash: Vote -> Hash, ws: seq<Vote>) {
    AllHashed(hash, ws) && forall i :: 0 <= i < |ws| ==> ws[i].pubkey == id && ws[i].lbl == l
  }

  /** The report holds whatever votes the peer casts under the label from now on. */
  ghost predicate BeforeForGood(b: Bucket, h1: Hash, h2: Hash, id: ID, l: Label, hash: Vote -> Hash) {
    forall ws :: CastBy(id, l, hash, ws) ==> Before(Run(b, ws), h1, h2)
  }

  /**
   The promise that a report is monotone holds, in every reachable bucket and
   with every hash function, exactly when it is settled.
   */
  lemma {:induction false} BeforeForGoodIff(b: Bucket, h1: Hash, h2: Hash, id: ID, l: Label, hash: Vote -> Hash)
    requires FallingRuns(b.votes) && Before(b, h1, h2)
    ensures BeforeForGood(b, h1, h2, id, l, hash) <==> Settled(b, h1, h2)
  {
    if Settled(b, h1, h2) {
      forall ws | CastBy(id, l, hash, ws) ensures Before(Run(b, ws), h1, h2) {
        SettledForGood(b, ws, h1, h2);
      }
    } else {
      var n := LateVoteOvertakes(b, id, l, h1, h2, hash);
      OneVoteEnds(b, h1, h2, LateVote(b.votes, id, l, n, h2, hash), hash);
    }
  }

  lemma {:induction false} OneVoteEnds(b: Bucket, h1: Hash, h2: Hash, v: Vote, hash: Vote -> Hash)
    requires Hashed(hash, v) && !Before(Receive(b, v).bucket, h1, h2)
    ensures !BeforeForGood(b, h1, h2, v.pubkey, v.lbl, hash)
  {
    var ws := [v];
    assert ws == [] + [v];
    RunSnoc(b, [], v);
    assert CastBy(v.pubkey, v.lbl, hash, ws);
  }

  /** The transaction is voted for and every lower sequence number is held. */
  ghost predicate VotedWithoutGap(b: Bucket, h: Hash) {
    var k := FirstFor(b.votes, h);
    k < |b.votes| && forall n :: 0 <= n < b.votes[k].seqNo ==> MeetsFrom(b.votes, 0, n)
  }

  /** In a bucket that began with vote 0, stalled or not, that means: committed, or voted for with no gap. */
  lemma SettledIffNoGap(b: Bucket, h1: Hash, h2: Hash)
    requires ZeroBased(b) && Before(b, h1, h2)
    ensures Settled(b, h1, h2) <==> h1 in b.committed || VotedWithoutGap(b, h1)
  {
    var vs, i := b.votes, FirstFor(b.votes, h1);
    assert vs[0..] == vs && LastRunAt(vs, 0);
    if h1 !in b.committed {
      assert MeetsFrom(vs, 0, vs[i].seqNo);
      if VotedWithoutGap(b, h1) {
        assert SettledIn(vs, 0, h1, h2);
      }
      if m: nat :| SettledIn(vs, m, h1, h2) {
        LastRunIsFloor(vs, m, 0);
        assert m == 0;
        assert Covers(vs, 0, vs[i].seqNo);
      }
    }
  }

  lemma SeenHasNoGap(b: Bucket, h: Hash)
    requires ZeroBased(b) && Seen(b, h)
    ensures VotedWithoutGap(b, h)
  {
    forall n | 0 <= n < b.votes[FirstFor(b.votes, h)].seqNo ensures MeetsFrom(b.votes, 0, n) {
      assert b.votes[n].seqNo == n;
    }
  }

  /** A report of a transaction that is seen, in such a bucket, is settled. */
  lemma SeenIsSettled(b: Bucket, h1: Hash, h2: Hash)
    requires ZeroBased(b) && Seen(b, h1) && Before(b, h1, h2)
    ensures Settled(b, h1, h2)
  {
    SeenHasNoGap(b, h1);
    SettledIffNoGap(b, h1, h2);
  }

  /** For every run that begins with vote 0. */
  lemma {:induction false} BeforeForGoodInRunsIff(ws: seq<Vote>, h1: Hash, h2: Hash, id: ID, l: Label, hash: Vote -> Hash)
    requires ws != [] && ws[0].seqNo == 0
    requires Before(Run(EMPTY, ws), h1, h2)
    ensures BeforeForGood(Run(EMPTY, ws), h1, h2, id, l, hash) <==> VotedWithoutGap(Run(EMPTY, ws), h1)
  {
    var b := Run(EMPTY, ws);
    EveryRunZeroBased(ws);
    EveryRunFallingRuns(ws);
    RunKeepsVotes(EMPTY, ws);
    BeforeForGoodIff(b, h1, h2, id, l, hash);
    SettledIffNoGap(b, h1, h2);
  }

  // ---------- seen means voted for with no gap before the vote ----------

  ghost predicate SeenIsExact(b: Bucket) {
    forall h :: Seen(b, h) <==> VotedWithoutGap(b, h)
  }

  lemma SeenIffNoGap(b: Bucket, h: Hash)
    requires ZeroBased(b) && Maximal(b)
    ensures Seen(b, h) <==> VotedWithoutGap(b, h)
  {
    var k, last := FirstFor(b.votes, h), b.lastSeqSeen;
    if Seen(b, h) {
      SeenHasNoGap(b, h);
    } else if k < |b.votes| {
      assert b.votes[k].seqNo > last + 1;
      assert !MeetsFrom(b.votes, 0, last + 1);
    }
  }

  /** No two votes of the list are for the same transaction. */
  predicate OncePerTx(vs: seq<Vote>) {
    forall i, j :: 0 <= i < j < |vs| ==> vs[i].txHash != vs[j].txHash
  }

  /** A stalled counter hides the awaited vote, which is in the list with no gap before it. */
  lemma StalledHides(b: Bucket) returns (h: Hash)
    requires ZeroBased(b) && !Maximal(b) && OncePerTx(b.votes)
    ensures VotedWithoutGap(b, h) && !Seen(b, h)
  {
    var vs, last := b.votes, b.lastSeqSeen;
    var j :| 0 <= j < |vs| && vs[j].seqNo == last + 1;
    h := vs[j].txHash;
    FirstForUnique(vs, h, j);
    forall n | 0 <= n < vs[j].seqNo ensures MeetsFrom(vs, 0, n) {
      assert vs[n].seqNo == n;
    }
  }

  /** In runs that begin with vote 0 and vote once per transaction, Seen is what its name promises unless a receipt stalled. */
  lemma SeenExactInRunsIff(ws: seq<Vote>)
    requires ws != [] && ws[0].seqNo == 0 && OncePerTx(Run(EMPTY, ws).votes)
    ensures SeenIsExact(Run(EMPTY, ws)) <==> NeverStalls(ws)
  {
    var b := Run(EMPTY, ws);
    CounterIsExact(ws);
    if Maximal(b) {
      forall h ensures Seen(b, h) <==> VotedWithoutGap(b, h) {
        SeenIffNoGap(b, h);
      }
    } else {
      var h := StalledHides(b);
    }
  }

  /** A bucket that begins with vote 1 takes it as seen without a vote 0. */
  lemma SeenDespiteGap(w: Vote)
    requires w.seqNo == 1
    ensures var b := Run(EMPTY, [w]); Seen(b, w.txHash) && !VotedWithoutGap(b, w.txHash)
  {
    FirstVote(w);
    FirstForUnique([w], w.txHash, 0);
    assert !MeetsFrom([w], 0, 0);
  }

  /** The deliveries d, 0, 1, .., k - 1. */
  function LateStart(d: nat, k: nat): (ds: seq<nat>)
    ensures |ds| == k + 1 && forall i :: 0 <= i <= k ==> ds[i] == if i == 0 then d else i - 1
  {
    [d] + seq(k, i => i)
  }

  /**
   The counter left behind: vote d came before the votes 0..d-1, and when those
   are all there it is not counted. With d = 2 the list is [2, 0, 1], and the
   counter says 1.
   */
  lemma {:induction false} CounterLeftBehind(c: seq<Vote>, d: nat, k: nat)
    requires Chain(c) && 2 <= d < |c| && k <= d
    ensures Run(EMPTY, Pick(c, LateStart(d, k))) == Bucket([c[d]] + c[..k], if k == 0 then 0 else k - 1, {})
  {
    if k == 0 {
      assert Pick(c, LateStart(d, 0)) == [c[d]];
      FirstVote(c[d]);
      assert [c[d]] + c[..0] == [c[d]];
    } else {
      CounterLeftBehind(c, d, k - 1);
      LateStartSnoc(c, d, k);
      RunSnoc(EMPTY, Pick(c, LateStart(d, k - 1)), c[k - 1]);
      LateStartStep(c, d, k);
    }
  }

  lemma LateStartSnoc(c: seq<Vote>, d: nat, k: nat)
    requires d < |c| && 0 < k <= d
    ensures Pick(c, LateStart(d, k)) == Pick(c, LateStart(d, k - 1)) + [c[k - 1]]
  {
  }

  lemma LateStartStep(c: seq<Vote>, d: nat, k: nat)
    requires Chain(c) && 2 <= d < |c| && 0 < k <= d
    ensures Receive(Bucket([c[d]] + c[..k - 1], if k == 1 then 0 else k - 2, {}), c[k - 1]).bucket ==
            Bucket([c[d]] + c[..k], k - 1, {})
  {
    var vs := [c[d]] + c[..k - 1];
    assert vs + [c[k - 1]] == [c[d]] + c[..k];
    assert vs[|vs| - 1] == if k == 1 then c[d] else c[k - 2];
    NextInLine(Bucket(vs, if k == 1 then 0 else k - 2, {}), c[k - 1]);
  }

  /** A vote that follows the last vote of the list, or is lower than the only one. */
  lemma NextInLine(b: Bucket, v: Vote)
    requires b.votes != []
    requires var w := b.votes[|b.votes| - 1];
             (|b.votes| == 1 && w.seqNo > v.seqNo) || (w.seqNo < v.seqNo && Linked(w, v))
    ensures Receive(b, v).reply == Added
    ensures Receive(b, v).bucket ==
            b.(votes := b.votes + [v], lastSeqSeen := b.lastSeqSeen + if v.seqNo == b.lastSeqSeen + 1 then 1 else 0)
  {
    var vs, n := b.votes + [v], |b.votes|;
    if b.votes[n - 1].seqNo < v.seqNo {
      assert LastAtMost(b.votes, v.seqNo) == n - 1;
      assert InsertAfter(b.votes, n - 1, v) == vs;
    }
    assert Advance(vs, n + 1, b.lastSeqSeen) == b.lastSeqSeen;
    assert Advance(vs, n + 1, b.lastSeqSeen + 1) == b.lastSeqSeen + 1;
  }

  /** Then vote d's transaction has no gap before its vote and is not seen. */
  lemma UnseenWithoutGap(c: seq<Vote>, d: nat)
    requires Chain(c) && 2 <= d < |c|
    ensures var b := Run(EMPTY, Pick(c, LateStart(d, d)));
            VotedWithoutGap(b, c[d].txHash) && !Seen(b, c[d].txHash)
  {
    CounterLeftBehind(c, d, d);
    var vs := [c[d]] + c[..d];
    FirstForUnique(vs, c[d].txHash, 0);
    forall n | 0 <= n < d ensures MeetsFrom(vs, 0, n) {
      assert vs[n + 1].seqNo == n;
    }
  }

  /** Over all deliveries of a chain that begin with vote d, Seen is what its name promises exactly when d is 0. */
  lemma SeenExactIff(c: seq<Vote>, d: nat)
    requires Chain(c) && d < |c|
    ensures (forall ds: seq<nat> :: ds != [] && ds[0] == d && Deliverable(c, ds) ==>
               SeenIsExact(Run(EMPTY, Pick(c, ds)))) <==> d == 0
  {
    if d == 0 {
      forall ds: seq<nat> | ds != [] && ds[0] == 0 && Deliverable(c, ds)
        ensures SeenIsExact(Run(EMPTY, Pick(c, ds)))
      {
        SeenExactFromZero(c, ds);
      }
    } else if d == 1 {
      assert Deliverable(c, [1]) && Pick(c, [1]) == [c[1]];
      SeenDespiteGap(c[1]);
    } else {
      assert Deliverable(c, LateStart(d, d));
      UnseenWithoutGap(c, d);
    }
  }

  lemma SeenExactFromZero(c: seq<Vote>, ds: seq<nat>)
    requires Chain(c) && Deliverable(c, ds) && ds != [] && ds[0] == 0
    ensures SeenIsExact(Run(EMPTY, Pick(c, ds)))
  {
    var b := Run(EMPTY, Pick(c, ds));
    CounterIsExact(Pick(c, ds));
    DeliveryNeverStalls(c, ds);
    forall h ensures Seen(b, h) <==> VotedWithoutGap(b, h) {
      SeenIffNoGap(b, h);
    }
  }
}
