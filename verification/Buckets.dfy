/**
 The vote list that a node keeps for one peer and one label, and what
 receiving a vote does to it. `Receive` is the specification of the class
 method `Peer.AddVote`; this module proves the shape of the list in every run.
 */
module Buckets {
  import opened Types

  datatype Bucket = Bucket(votes: seq<Vote>, lastSeqSeen: nat, committed: set<Hash>)

  const EMPTY := Bucket([], 0, {})

  /** `Mismatch` is ErrVoteHashesDontMatch; `kept` says whether the vote stayed in the list. */
  datatype Reply = Added | AlreadyHeld | Mismatch(kept: bool)

  datatype Receipt = Receipt(bucket: Bucket, reply: Reply)

  /** Contiguous votes must be hash-linked; votes with a gap between them are not compared. */
  predicate Linked(prev: Vote, next: Vote) {
    prev.seqNo + 1 == next.seqNo ==> prev.digest == next.prevHash
  }

  /** Position of the last vote with a sequence number of at most s, or -1. */
  function LastAtMost(vs: seq<Vote>, s: nat): (k: int)
    ensures -1 <= k < |vs|
    ensures k >= 0 ==> vs[k].seqNo <= s
    ensures forall j :: k < j < |vs| ==> vs[j].seqNo > s
  {
    if vs == [] then -1
    else if vs[|vs| - 1].seqNo <= s then |vs| - 1
    else LastAtMost(vs[..|vs| - 1], s)
  }

  /** The counter after walking the list from position i to its end. */
  function Advance(vs: seq<Vote>, i: nat, last: nat): nat
    requires i <= |vs|
    decreases |vs| - i
  {
    if i == |vs| then last
    else Advance(vs, i + 1, if vs[i].seqNo == last + 1 then last + 1 else last)
  }

  function InsertAfter(vs: seq<Vote>, k: nat, v: Vote): (r: seq<Vote>)
    requires k < |vs|
    ensures |r| == |vs| + 1
    ensures forall j :: 0 <= j <= k ==> r[j] == vs[j]
    ensures r[k + 1] == v
    ensures forall j :: k + 1 < j < |r| ==> r[j] == vs[j - 1]
  {
    vs[..k + 1] + [v] + vs[k + 1..]
  }

  lemma InsertAdds(vs: seq<Vote>, k: nat, v: Vote)
    requires k < |vs|
    ensures multiset(InsertAfter(vs, k, v)) == multiset(vs) + multiset{v}
  {
    assert vs == vs[..k + 1] + vs[k + 1..];
  }

  function Receive(b: Bucket, v: Vote): Receipt {
    var k := LastAtMost(b.votes, v.seqNo);
    if k < 0 then
      var vs := b.votes + [v];
      Receipt(b.(votes := vs, lastSeqSeen := Advance(vs, |b.votes|, b.lastSeqSeen)), Added)
    else if b.votes[k].seqNo == v.seqNo then
      Receipt(b, AlreadyHeld)
    else if !Linked(b.votes[k], v) then
      Receipt(b, Mismatch(false))
    else
      var vs := InsertAfter(b.votes, k, v);
      if k + 2 < |vs| && !Linked(v, vs[k + 2]) then
        Receipt(b.(votes := vs), Mismatch(true))
      else
        Receipt(b.(votes := vs, lastSeqSeen := Advance(vs, k + 1, b.lastSeqSeen)), Added)
  }

  /** The bucket after the votes ws have been received in order, whatever the replies. */
  function Run(b: Bucket, ws: seq<Vote>): Bucket {
    if ws == [] then b
    else Receive(Run(b, ws[..|ws| - 1]), ws[|ws| - 1]).bucket
  }

  lemma RunSnoc(b: Bucket, ws: seq<Vote>, w: Vote)
    ensures Run(b, ws + [w]) == Receive(Run(b, ws), w).bucket
  {
  }

  // ---------- what one receipt does ----------

  predicate Stored(r: Reply) {
    r == Added || r == Mismatch(true)
  }

  /** The list with the vote in its place: behind the last vote no higher, or at the end. */
  function Placed(vs: seq<Vote>, v: Vote): seq<Vote> {
    var k := LastAtMost(vs, v.seqNo);
    if k < 0 then vs + [v] else InsertAfter(vs, k, v)
  }

  lemma PlacedAdds(vs: seq<Vote>, v: Vote)
    ensures multiset(Placed(vs, v)) == multiset(vs) + multiset{v}
    ensures |Placed(vs, v)| == |vs| + 1
    ensures vs != [] ==> Placed(vs, v)[0] == vs[0]
  {
    var k := LastAtMost(vs, v.seqNo);
    if k >= 0 {
      InsertAdds(vs, k, v);
    }
  }

  lemma ReceivePlaces(b: Bucket, v: Vote)
    ensures var r := Receive(b, v);
            && r.bucket.votes == (if Stored(r.reply) then Placed(b.votes, v) else b.votes)
            && r.bucket.committed == b.committed
            && (!Stored(r.reply) ==> r.bucket == b)
  {
  }

  /** A receipt stores the vote or leaves the list alone; nothing is ever dropped or moved to the front. */
  lemma ReceiveStores(b: Bucket, v: Vote)
    ensures var r := Receive(b, v);
            && multiset(r.bucket.votes) ==
               multiset(b.votes) + (if Stored(r.reply) then multiset{v} else multiset{})
            && r.bucket.committed == b.committed
            && (!Stored(r.reply) ==> r.bucket == b)
            && (b.votes != [] ==> r.bucket.votes != [] && r.bucket.votes[0] == b.votes[0])
            && |r.bucket.votes| == |b.votes| + if Stored(r.reply) then 1 else 0
  {
    PlacedAdds(b.votes, v);
    ReceivePlaces(b, v);
  }

  lemma ReceiveKeepsVotes(b: Bucket, v: Vote)
    ensures forall x :: x in b.votes ==> x in Receive(b, v).bucket.votes
    ensures forall x :: x in Receive(b, v).bucket.votes ==> x in b.votes || x == v
    ensures Receive(b, v).reply == Added ==> v in Receive(b, v).bucket.votes
  {
    ReceiveStores(b, v);
    var vs := Receive(b, v).bucket.votes;
    forall x ensures x in vs <==> x in multiset(vs) {}
    forall x ensures x in b.votes <==> x in multiset(b.votes) {}
  }

  lemma {:induction false} RunKeepsVotes(b: Bucket, ws: seq<Vote>)
    ensures forall x :: x in b.votes ==> x in Run(b, ws).votes
    ensures Run(b, ws).committed == b.committed
  {
    if ws == [] {
    } else {
      var n := |ws| - 1;
      RunKeepsVotes(b, ws[..n]);
      ReceiveKeepsVotes(Run(b, ws[..n]), ws[n]);
      ReceiveStores(Run(b, ws[..n]), ws[n]);
    }
  }

  /** Some vote from position i on has sequence number n. */
  predicate MeetsFrom(vs: seq<Vote>, i: nat, n: nat) {
    exists j :: i <= j < |vs| && vs[j].seqNo == n
  }

  /** The walk never lowers the counter and passes only numbers it meets. */
  lemma {:induction false} AdvanceMeets(vs: seq<Vote>, i: nat, last: nat)
    requires i <= |vs|
    ensures Advance(vs, i, last) >= last
    ensures forall n :: last < n <= Advance(vs, i, last) ==> MeetsFrom(vs, i, n)
    decreases |vs| - i
  {
    if i == |vs| {
    } else {
      var last' := if vs[i].seqNo == last + 1 then last + 1 else last;
      AdvanceMeets(vs, i + 1, last');
      forall n | last < n <= Advance(vs, i, last) ensures MeetsFrom(vs, i, n) {
        if n == last' {
          assert vs[i].seqNo == n;
        } else {
          assert MeetsFrom(vs, i + 1, n);
        }
      }
    }
  }

  /** On a sorted tail above the counter the walk stops exactly at the first gap. */
  lemma {:induction false} AdvanceStopsAtGap(vs: seq<Vote>, i: nat, last: nat)
    requires i <= |vs|
    requires forall j, l :: i <= j < l < |vs| ==> vs[j].seqNo < vs[l].seqNo
    requires forall j :: i <= j < |vs| ==> vs[j].seqNo > last
    ensures forall j :: i <= j < |vs| ==> vs[j].seqNo != Advance(vs, i, last) + 1
    decreases |vs| - i
  {
    AdvanceMeets(vs, i, last);
    if i == |vs| {
    } else {
      if vs[i].seqNo == last + 1 {
        AdvanceStopsAtGap(vs, i + 1, last + 1);
        AdvanceMeets(vs, i + 1, last + 1);
      } else {
        assert !MeetsFrom(vs, i, last + 1);
      }
    }
  }

  // ---------- the shape of the list in every run ----------

  predicate Increasing(vs: seq<Vote>) {
    forall i, j :: 0 <= i < j < |vs| ==> vs[i].seqNo < vs[j].seqNo
  }

  /** Position m starts the last run: sorted from m on, and below everything before it. */
  predicate LastRunAt(vs: seq<Vote>, m: nat) {
    && m < |vs|
    && Increasing(vs[m..])
    && forall j :: 0 <= j < m ==> vs[j].seqNo > vs[m].seqNo
  }

  /** A concatenation of strictly increasing runs whose heads strictly decrease. */
  ghost predicate FallingRuns(vs: seq<Vote>)
    decreases |vs|
  {
    vs == [] || exists m: nat :: LastRunAt(vs, m) && FallingRuns(vs[..m])
  }

  lemma LastRunIsFloor(vs: seq<Vote>, m: nat, j: nat)
    requires LastRunAt(vs, m) && j < |vs|
    ensures vs[j].seqNo >= vs[m].seqNo
  {
  }

  /** The three lists a receipt can leave. */
  lemma ReceiveCases(b: Bucket, v: Vote)
    ensures var vs := Receive(b, v).bucket.votes;
            var k := LastAtMost(b.votes, v.seqNo);
            || vs == b.votes
            || (k < 0 && vs == b.votes + [v])
            || (k >= 0 && b.votes[k].seqNo < v.seqNo && vs == InsertAfter(b.votes, k, v))
  {
  }

  lemma {:induction false} ReceiveKeepsFallingRuns(b: Bucket, v: Vote)
    requires FallingRuns(b.votes)
    ensures FallingRuns(Receive(b, v).bucket.votes)
  {
    ReceiveCases(b, v);
    var k := LastAtMost(b.votes, v.seqNo);
    if k < 0 {
      AppendKeepsFallingRuns(b.votes, v);
    } else if b.votes[k].seqNo < v.seqNo {
      InsertKeepsFallingRuns(b.votes, k, v);
    }
  }

  lemma {:induction false} AppendKeepsFallingRuns(vs: seq<Vote>, v: Vote)
    requires FallingRuns(vs)
    requires forall j :: 0 <= j < |vs| ==> vs[j].seqNo > v.seqNo
    ensures FallingRuns(vs + [v])
  {
    var m := |vs|;
    assert LastRunAt(vs + [v], m) && (vs + [v])[..m] == vs;
  }

  lemma {:induction false} InsertKeepsFallingRuns(vs: seq<Vote>, k: nat, v: Vote)
    requires FallingRuns(vs) && k < |vs|
    requires vs[k].seqNo < v.seqNo
    requires forall j :: k < j < |vs| ==> vs[j].seqNo > v.seqNo
    ensures FallingRuns(InsertAfter(vs, k, v))
  {
    var m: nat :| LastRunAt(vs, m) && FallingRuns(vs[..m]);
    LastRunIsFloor(vs, m, k);
    assert m <= k;
    InsertIntoLastRun(vs, m, k, v);
    assert InsertAfter(vs, k, v)[..m] == vs[..m];
  }

  lemma InsertIntoLastRun(vs: seq<Vote>, m: nat, k: nat, v: Vote)
    requires LastRunAt(vs, m) && m <= k < |vs|
    requires vs[k].seqNo < v.seqNo
    requires forall j :: k < j < |vs| ==> vs[j].seqNo > v.seqNo
    ensures LastRunAt(InsertAfter(vs, k, v), m)
  {
  }

  /** In every run, rejected votes included, the list is a concatenation of falling runs. */
  lemma {:induction false} EveryRunFallingRuns(ws: seq<Vote>)
    ensures FallingRuns(Run(EMPTY, ws).votes)
  {
    if ws == [] {
    } else {
      EveryRunFallingRuns(ws[..|ws| - 1]);
      ReceiveKeepsFallingRuns(Run(EMPTY, ws[..|ws| - 1]), ws[|ws| - 1]);
    }
  }

  predicate Within(vs: seq<Vote>, floor: nat, n: nat) {
    forall j :: 0 <= j < |vs| ==> floor <= vs[j].seqNo < n
  }

  /**
   How long such a list can get: with the numbers floor..n-1, a run that begins
   with low has at most n - low votes, and the heads differ.
   */
  lemma {:induction false} FallingRunsBound(vs: seq<Vote>, floor: nat, n: nat)
    requires FallingRuns(vs) && floor <= n && Within(vs, floor, n)
    ensures 2 * |vs| <= (n - floor) * (n - floor + 1)
    decreases |vs|
  {
    if vs == [] {
    } else {
      var m: nat :| LastRunAt(vs, m) && FallingRuns(vs[..m]);
      RunsBeforeBound(vs, m, floor, n);
      FallingRunsBound(vs[..m], vs[m].seqNo + 1, n);
      LastRunBound(vs, m, n);
      OneMoreRun(|vs[..m]|, |vs[m..]|, vs[m].seqNo, floor, n);
    }
  }

  lemma RunsBeforeBound(vs: seq<Vote>, m: nat, floor: nat, n: nat)
    requires LastRunAt(vs, m) && Within(vs, floor, n)
    ensures Within(vs[..m], vs[m].seqNo + 1, n)
  {
  }

  lemma LastRunBound(vs: seq<Vote>, m: nat, n: nat)
    requires LastRunAt(vs, m)
    requires forall j :: 0 <= j < |vs| ==> vs[j].seqNo < n
    ensures |vs[m..]| <= n - vs[m].seqNo
  {
    IncreasingBound(vs[m..], vs[m].seqNo, n);
  }

  lemma OneMoreRun(a: nat, b: nat, low: nat, floor: nat, n: nat)
    requires floor <= low < n && b <= n - low && 2 * a <= (n - (low + 1)) * (n - (low + 1) + 1)
    ensures 2 * (a + b) <= (n - floor) * (n - floor + 1)
  {
    var x, y := n - low, n - floor;
    assert 2 * (a + b) <= (x - 1) * x + 2 * x == x * (x + 1);
    ProductMonotone(x, y);
  }

  lemma ProductMonotone(x: nat, y: nat)
    requires x <= y
    ensures x * (x + 1) <= y * (y + 1)
  {
    assert y * (y + 1) - x * (x + 1) == (y - x) * (y + x + 1);
  }

  lemma {:induction false} IncreasingBound(vs: seq<Vote>, low: nat, n: nat)
    requires Increasing(vs) && low <= n && Within(vs, low, n)
    ensures |vs| <= n - low
  {
    if vs == [] {
    } else {
      IncreasingBound(vs[..|vs| - 1], low, vs[|vs| - 1].seqNo);
    }
  }

  // ---------- sorted exactly when nothing lower than the first vote came ----------

  lemma {:induction false} HeadStays(ws: seq<Vote>)
    requires ws != []
    ensures var vs := Run(EMPTY, ws).votes; vs != [] && vs[0] == ws[0]
  {
    var n := |ws| - 1;
    if n > 0 {
      HeadStays(ws[..n]);
      ReceiveStores(Run(EMPTY, ws[..n]), ws[n]);
    } else {
      assert ws[..0] == [];
    }
  }

  lemma LowerBoundReceived(b: Bucket, v: Vote)
    ensures HasAtMost(Receive(b, v).bucket.votes, v.seqNo)
  {
  }

  predicate HasAtMost(vs: seq<Vote>, n: nat) {
    exists j :: 0 <= j < |vs| && vs[j].seqNo <= n
  }

  lemma HasAtMostStays(b: Bucket, v: Vote, n: nat)
    requires HasAtMost(b.votes, n)
    ensures HasAtMost(Receive(b, v).bucket.votes, n)
  {
  }

  /** Every vote received leaves a vote that is no higher in the list. */
  lemma {:induction false} LowerBoundHeld(ws: seq<Vote>, i: nat)
    requires i < |ws|
    ensures HasAtMost(Run(EMPTY, ws).votes, ws[i].seqNo)
  {
    var n := |ws| - 1;
    var b := Run(EMPTY, ws[..n]);
    if i < n {
      LowerBoundHeld(ws[..n], i);
      assert ws[..n][i] == ws[i];
      HasAtMostStays(b, ws[n], ws[i].seqNo);
    } else {
      LowerBoundReceived(b, ws[n]);
    }
  }

  lemma ReceiveKeepsIncreasing(b: Bucket, v: Vote)
    requires Increasing(b.votes) && b.votes != [] && b.votes[0].seqNo <= v.seqNo
    ensures Increasing(Receive(b, v).bucket.votes)
  {
    var k := LastAtMost(b.votes, v.seqNo);
    if Stored(Receive(b, v).reply) {
      assert b.votes[0..] == b.votes;
      InsertIntoLastRun(b.votes, 0, k, v);
      var vs := InsertAfter(b.votes, k, v);
      assert vs[0..] == vs;
    }
  }

  lemma {:induction false} SortedWhenFirstIsLowest(ws: seq<Vote>)
    requires forall i :: 0 <= i < |ws| ==> ws[0].seqNo <= ws[i].seqNo
    ensures Increasing(Run(EMPTY, ws).votes)
  {
    if |ws| > 1 {
      var n := |ws| - 1;
      SortedWhenFirstIsLowest(ws[..n]);
      HeadStays(ws[..n]);
      ReceiveKeepsIncreasing(Run(EMPTY, ws[..n]), ws[n]);
    } else if |ws| == 1 {
      assert ws[..0] == [];
    }
  }

  /** The list is sorted exactly when no vote lower than the first one was ever received. */
  lemma SortedIffFirstIsLowest(ws: seq<Vote>)
    requires ws != []
    ensures Increasing(Run(EMPTY, ws).votes) <==> forall i :: 0 <= i < |ws| ==> ws[0].seqNo <= ws[i].seqNo
  {
    if forall i :: 0 <= i < |ws| ==> ws[0].seqNo <= ws[i].seqNo {
      SortedWhenFirstIsLowest(ws);
    } else {
      var i :| 0 <= i < |ws| && ws[i].seqNo < ws[0].seqNo;
      HeadStays(ws);
      LowerBoundHeld(ws, i);
      var vs := Run(EMPTY, ws).votes;
      var j :| 0 <= j < |vs| && vs[j].seqNo <= ws[i].seqNo;
      assert vs[0].seqNo > vs[j].seqNo;
    }
  }
}
