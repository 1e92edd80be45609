/**
 What a receipt answers and how far it moves the counter, said of the votes
 that are held: in every list that a run can leave.
 */
module Replies {
  import opened Types
  import opened Buckets
  import opened Delivery
  import opened Preference

  /** The last vote no higher than v is the one before it, and v does not link to it. */
  predicate FailsPrevLink(b: Bucket, v: Vote) {
    var k := LastAtMost(b.votes, v.seqNo);
    k >= 0 && b.votes[k].seqNo + 1 == v.seqNo && b.votes[k].digest != v.prevHash
  }

  /** Such a vote is refused with an error, and no other vote is refused without being kept. */
  lemma RefusedIffFailsPrevLink(b: Bucket, v: Vote)
    ensures Receive(b, v).reply == Mismatch(false) <==> FailsPrevLink(b, v)
    ensures FailsPrevLink(b, v) ==> Receive(b, v).bucket == b
  {
  }

  // ---------- the reply by the votes held ----------

  /** The vote before v is held and v does not link to it. */
  predicate ClashesBefore(vs: seq<Vote>, v: Vote) {
    exists i :: 0 <= i < |vs| && vs[i].seqNo + 1 == v.seqNo && vs[i].digest != v.prevHash
  }

  /** The vote after v is held and does not link to v. */
  predicate ClashesAfter(vs: seq<Vote>, v: Vote) {
    exists i :: 0 <= i < |vs| && vs[i].seqNo == v.seqNo + 1 && vs[i].prevHash != v.digest
  }

  predicate HasLower(vs: seq<Vote>, n: nat) {
    exists i :: 0 <= i < |vs| && vs[i].seqNo < n
  }

  /** The answer to v over the votes vs: the link to the vote after it is only checked when a lower vote is held. */
  function ReplyOver(vs: seq<Vote>, v: Vote): Reply {
    if MeetsFrom(vs, 0, v.seqNo) then AlreadyHeld
    else if ClashesBefore(vs, v) then Mismatch(false)
    else if HasLower(vs, v.seqNo) && ClashesAfter(vs, v) then Mismatch(true)
    else Added
  }

  /** A vote lower than everything held. */
  lemma LowestReply(vs: seq<Vote>, v: Vote)
    requires forall i :: 0 <= i < |vs| ==> vs[i].seqNo > v.seqNo
    ensures ReplyOver(vs, v) == Added
  {
  }

  /** In a sorted list, with k the last vote no higher than v. */
  lemma SortedReply(vs: seq<Vote>, k: nat, v: Vote)
    requires Increasing(vs) && k < |vs| && vs[k].seqNo <= v.seqNo
    requires forall j :: k < j < |vs| ==> vs[j].seqNo > v.seqNo
    ensures MeetsFrom(vs, 0, v.seqNo) <==> vs[k].seqNo == v.seqNo
    ensures vs[k].seqNo < v.seqNo ==> HasLower(vs, v.seqNo)
    ensures vs[k].seqNo < v.seqNo ==> (ClashesBefore(vs, v) <==> !Linked(vs[k], v))
    ensures vs[k].seqNo < v.seqNo ==> (ClashesAfter(vs, v) <==> k + 1 < |vs| && !Linked(v, vs[k + 1]))
  {
  }

  /**
   In every list that a run can leave, a receipt is answered by the votes of the
   last run of the list, which starts at m; earlier runs play no part.
   */
  lemma ReplyByLastRun(b: Bucket, m: nat, v: Vote)
    requires LastRunAt(b.votes, m)
    ensures Receive(b, v).reply == ReplyOver(b.votes[m..], v)
  {
    var k, run := LastAtMost(b.votes, v.seqNo), b.votes[m..];
    StoredInLastRun(b.votes, m, v);
    if k < 0 {
      LowestReply(run, v);
    } else {
      LastRunIsFloor(b.votes, m, k);
      assert m <= k && run[k - m] == b.votes[k];
      assert forall j :: k - m < j < |run| ==> run[j] == b.votes[m + j];
      SortedReply(run, k - m, v);
    }
  }

  /** In a sorted list, and so in every run that begins with its lowest vote, by all votes held. */
  lemma ReplyBySortedList(b: Bucket, v: Vote)
    requires Increasing(b.votes)
    ensures Receive(b, v).reply == ReplyOver(b.votes, v)
  {
    if b.votes == [] {
      LowestReply(b.votes, v);
    } else {
      assert b.votes[0..] == b.votes && LastRunAt(b.votes, 0);
      ReplyByLastRun(b, 0, v);
    }
  }

  /** Vote 1 with a wrong link to vote 0 is refused with an error, not taken for a vote already held. */
  lemma WrongLinkIsRefused(w0: Vote, w1: Vote)
    requires w0.seqNo == 0 && w1.seqNo == 1 && w1.prevHash != w0.digest
    ensures Receive(Run(EMPTY, [w0]), w1) == Receipt(Run(EMPTY, [w0]), Mismatch(false))
  {
    FirstVote(w0);
    assert LastAtMost([w0], 1) == 0;
    RefusedIffFailsPrevLink(Run(EMPTY, [w0]), w1);
  }

  // ---------- the counter ----------

  /** Sorted from position i on. */
  predicate SortedFrom(vs: seq<Vote>, i: nat) {
    forall j, l :: i <= j < l < |vs| ==> vs[j].seqNo < vs[l].seqNo
  }

  /** On a sorted tail the walk passes exactly the numbers that follow the counter without a gap. */
  lemma {:induction false} WalkEnds(vs: seq<Vote>, i: nat, last: nat)
    requires i <= |vs| && SortedFrom(vs, i)
    ensures !MeetsFrom(vs, i, Advance(vs, i, last) + 1)
    decreases |vs| - i
  {
    if i == |vs| {
    } else if vs[i].seqNo == last + 1 {
      WalkEnds(vs, i + 1, last + 1);
      AdvanceMeets(vs, i + 1, last + 1);
    } else {
      WalkEnds(vs, i + 1, last);
      AdvanceMeets(vs, i + 1, last);
      NothingNext(vs, i, last, Advance(vs, i + 1, last));
    }
  }

  /** A vote that is not the next one is not where the walk ends either. */
  lemma NothingNext(vs: seq<Vote>, i: nat, last: nat, r: nat)
    requires i < |vs| && SortedFrom(vs, i) && vs[i].seqNo != last + 1 && last <= r
    requires r > last ==> MeetsFrom(vs, i + 1, last + 1)
    ensures vs[i].seqNo != r + 1
  {
  }

  /** The counter has gone from last to r over the votes from position p on: all of last+1..r are there, r+1 is not. */
  predicate WalkedTo(vs: seq<Vote>, p: nat, last: nat, r: nat) {
    && last <= r && !MeetsFrom(vs, p, r + 1)
    && forall n :: last < n <= r ==> MeetsFrom(vs, p, n)
  }

  /** The position at which a vote is placed. */
  function PlaceOf(vs: seq<Vote>, v: Vote): (p: nat)
    ensures p <= |vs|
  {
    var k := LastAtMost(vs, v.seqNo);
    if k < 0 then |vs| else k + 1
  }

  lemma PlacedThere(vs: seq<Vote>, v: Vote)
    ensures var p := PlaceOf(vs, v); Placed(vs, v) == vs[..p] + [v] + vs[p..]
  {
  }

  /**
   In every list that a run can leave: a vote answered with Added is placed at
   some position p, and the counter goes on over the numbers found without a gap
   from there; after any other answer the counter stays.
   */
  lemma CounterAfter(b: Bucket, v: Vote)
    requires FallingRuns(b.votes)
    ensures var r, p := Receive(b, v), PlaceOf(b.votes, v);
            if r.reply == Added then
              && r.bucket.votes == b.votes[..p] + [v] + b.votes[p..]
              && WalkedTo(r.bucket.votes, p, b.lastSeqSeen, r.bucket.lastSeqSeen)
            else r.bucket.lastSeqSeen == b.lastSeqSeen
  {
    if Receive(b, v).reply == Added {
      PlacedThere(b.votes, v);
      SortedBehind(b.votes, v);
      WalkFrom(Placed(b.votes, v), PlaceOf(b.votes, v), b.lastSeqSeen);
    }
  }

  lemma WalkFrom(vs: seq<Vote>, p: nat, last: nat)
    requires p <= |vs| && SortedFrom(vs, p)
    ensures WalkedTo(vs, p, last, Advance(vs, p, last))
  {
    AdvanceMeets(vs, p, last);
    WalkEnds(vs, p, last);
  }

  /** From the stored vote on the list is sorted. */
  lemma SortedBehind(vs: seq<Vote>, v: Vote)
    requires FallingRuns(vs) && (LastAtMost(vs, v.seqNo) >= 0 ==> vs[LastAtMost(vs, v.seqNo)].seqNo < v.seqNo)
    ensures SortedFrom(Placed(vs, v), PlaceOf(vs, v))
  {
    var k := LastAtMost(vs, v.seqNo);
    if k >= 0 {
      var m: nat :| LastRunAt(vs, m) && FallingRuns(vs[..m]);
      LastRunIsFloor(vs, m, k);
      SortedInRun(vs, m, k, v);
    }
  }

  lemma SortedInRun(vs: seq<Vote>, m: nat, k: nat, v: Vote)
    requires LastRunAt(vs, m) && m <= k < |vs| && vs[k].seqNo < v.seqNo
    requires forall j :: k < j < |vs| ==> vs[j].seqNo > v.seqNo
    ensures SortedFrom(InsertAfter(vs, k, v), k + 1)
  {
    var vs' := InsertAfter(vs, k, v);
    forall j, l | k + 1 <= j < l < |vs'| ensures vs'[j].seqNo < vs'[l].seqNo {
      if j > k + 1 {
        LastRunSorted(vs, m, j - 1, l - 1);
      }
    }
  }
}
