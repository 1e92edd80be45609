/**
 What a bucket knows after any deliveries: which sequence numbers are behind
 `lastSeqSeen`, when it is the highest such number, and why the order in which
 a hash-linked chain of votes arrives does not matter once vote 0 came first.
 */
module Delivery {
  import opened Types
  import opened Buckets

  // ---------- buckets whose first vote has sequence number 0 ----------

  /** Sorted, and the votes 0..last sit at positions 0..last. */
  predicate Solid(vs: seq<Vote>, last: nat) {
    Increasing(vs) && last < |vs| && forall i :: 0 <= i <= last ==> vs[i].seqNo == i
  }

  predicate ZeroBased(b: Bucket) {
    Solid(b.votes, b.lastSeqSeen)
  }

  /** The counter is as high as it can be: the next vote is missing. */
  predicate Maximal(b: Bucket) {
    !MeetsFrom(b.votes, 0, b.lastSeqSeen + 1)
  }

  /**
   The one receipt that leaves the counter behind: the awaited vote links to
   the last counted one, but the vote after it is held and does not link to it.
   */
  predicate Stalls(b: Bucket, v: Vote) {
    var n := b.lastSeqSeen;
    && n + 1 < |b.votes| && b.votes[n + 1].seqNo == n + 2
    && v.seqNo == n + 1 && v.prevHash == b.votes[n].digest && v.digest != b.votes[n + 1].prevHash
  }

  /** A vote that will be stored although the vote after it does not link to it. */
  predicate FailsNextLink(b: Bucket, v: Vote) {
    var k := LastAtMost(b.votes, v.seqNo);
    && 0 <= k && k + 1 < |b.votes|
    && b.votes[k].seqNo < v.seqNo && Linked(b.votes[k], v) && !Linked(v, b.votes[k + 1])
  }

  /** The guard and the reply agree. */
  lemma KeptIffFailsNextLink(b: Bucket, v: Vote)
    ensures Receive(b, v).reply == Mismatch(true) <==> FailsNextLink(b, v)
  {
  }

  lemma {:induction false} FillsPositions(vs: seq<Vote>, n: nat)
    requires Increasing(vs)
    requires vs != [] && vs[0].seqNo == 0
    requires forall m :: 0 < m <= n ==> MeetsFrom(vs, 0, m)
    ensures Solid(vs, n)
  {
    if n == 0 {
    } else {
      FillsPositions(vs, n - 1);
      assert MeetsFrom(vs, 0, n);
      var j :| 0 <= j < |vs| && vs[j].seqNo == n;
      assert j >= n;
      assert vs[n].seqNo > vs[n - 1].seqNo;
    }
  }

  // ---------- lists: inserting above the counter and walking on ----------

  /** v belongs right behind position k, at or above the counter. */
  predicate Slot(vs: seq<Vote>, last: nat, k: nat, v: Vote) {
    && last <= k < |vs| && vs[k].seqNo < v.seqNo
    && forall j :: k < j < |vs| ==> vs[j].seqNo > v.seqNo
  }

  lemma InsertIncreasing(vs: seq<Vote>, last: nat, k: nat, v: Vote)
    requires Increasing(vs) && Slot(vs, last, k, v)
    ensures Increasing(InsertAfter(vs, k, v))
  {
  }

  lemma WalkStaysSolid(vs: seq<Vote>, last: nat, k: nat, v: Vote)
    requires Solid(vs, last) && Slot(vs, last, k, v)
    ensures var vs' := InsertAfter(vs, k, v); Solid(vs', last) && Solid(vs', Advance(vs', k + 1, last))
  {
    var vs' := InsertAfter(vs, k, v);
    InsertIncreasing(vs, last, k, v);
    AdvanceMeets(vs', k + 1, last);
    forall m | 0 < m <= Advance(vs', k + 1, last) ensures MeetsFrom(vs', 0, m) {
      if m <= last {
        assert vs'[m].seqNo == m;
      } else {
        assert MeetsFrom(vs', k + 1, m);
      }
    }
    assert vs'[0] == vs[0];
    FillsPositions(vs', Advance(vs', k + 1, last));
  }

  /** The walk ends at a gap of the whole list. */
  lemma WalkEndsAtGap(vs: seq<Vote>, last: nat, k: nat, v: Vote)
    requires Solid(vs, last) && Slot(vs, last, k, v) && !MeetsFrom(vs, 0, last + 1)
    ensures var vs' := InsertAfter(vs, k, v); !MeetsFrom(vs', 0, Advance(vs', k + 1, last) + 1)
  {
    var vs' := InsertAfter(vs, k, v);
    var last' := Advance(vs', k + 1, last);
    InsertIncreasing(vs, last, k, v);
    SlotAbove(vs, last, k, v);
    AdvanceStopsAtGap(vs', k + 1, last);
    AdvanceMeets(vs', k + 1, last);
    forall j | 0 <= j <= k ensures vs'[j].seqNo != last' + 1 {
      assert vs'[j] == vs[j];
      if last' > last {
        assert MeetsFrom(vs', k + 1, last');
        var i :| k + 1 <= i < |vs'| && vs'[i].seqNo == last';
      }
    }
  }

  lemma SlotAbove(vs: seq<Vote>, last: nat, k: nat, v: Vote)
    requires Solid(vs, last) && Slot(vs, last, k, v)
    ensures v.seqNo > last
    ensures var vs' := InsertAfter(vs, k, v); forall j :: k + 1 <= j < |vs'| ==> vs'[j].seqNo > last
  {
    assert vs[last].seqNo == last;
    assert last < k ==> vs[last].seqNo < vs[k].seqNo;
  }

  /** If the number after the counter is in the list already, the walk does not move. */
  lemma WalkStuck(vs: seq<Vote>, last: nat, k: nat, v: Vote)
    requires Solid(vs, last) && Slot(vs, last, k, v) && MeetsFrom(vs, 0, last + 1)
    ensures var vs' := InsertAfter(vs, k, v);
            (v.seqNo != last + 1 ==> Advance(vs', k + 1, last) == last) && MeetsFrom(vs', 0, last + 1)
  {
    var vs' := InsertAfter(vs, k, v);
    var j :| 0 <= j < |vs| && vs[j].seqNo == last + 1;
    SlotAbove(vs, last, k, v);
    assert vs'[if j <= k then j else j + 1] == vs[j];
    if v.seqNo != last + 1 {
      assert j <= k;
      assert forall i :: k < i < |vs| ==> vs[i].seqNo > vs[j].seqNo;
      AdvanceMeets(vs', k + 1, last);
      assert !MeetsFrom(vs', k + 1, last + 1) by {
        assert forall i :: k + 1 < i < |vs'| ==> vs'[i] == vs[i - 1];
      }
    }
  }

  // ---------- one receipt ----------

  /** Where a vote that gets stored goes, and what the bucket becomes. */
  lemma StoredAbove(b: Bucket, v: Vote) returns (k: nat)
    requires ZeroBased(b) && Stored(Receive(b, v).reply)
    ensures Slot(b.votes, b.lastSeqSeen, k, v) && k == LastAtMost(b.votes, v.seqNo)
    ensures var vs := InsertAfter(b.votes, k, v);
            var last := if Receive(b, v).reply == Added then Advance(vs, k + 1, b.lastSeqSeen) else b.lastSeqSeen;
            Receive(b, v).bucket == Bucket(vs, last, b.committed)
  {
    var n := LastAtMost(b.votes, v.seqNo);
    assert b.votes[0].seqNo == 0;
    k := n;
    var t := if k < b.lastSeqSeen then k + 1 else b.lastSeqSeen;
    assert b.votes[t].seqNo == t;
  }

  lemma ReceiveKeepsZeroBased(b: Bucket, v: Vote)
    requires ZeroBased(b)
    ensures ZeroBased(Receive(b, v).bucket)
    ensures b.lastSeqSeen <= Receive(b, v).bucket.lastSeqSeen
  {
    if Stored(Receive(b, v).reply) {
      var k := StoredAbove(b, v);
      WalkStaysSolid(b.votes, b.lastSeqSeen, k, v);
      AdvanceMeets(InsertAfter(b.votes, k, v), k + 1, b.lastSeqSeen);
    } else {
      ReceiveStores(b, v);
    }
  }

  lemma {:induction false} StallLeavesGapFilled(b: Bucket, v: Vote)
    requires ZeroBased(b) && Maximal(b)
    ensures Maximal(Receive(b, v).bucket) <==> !Stalls(b, v)
  {
    if Stalls(b, v) {
      StallIsStored(b, v);
    }
    match Receive(b, v).reply
    case Added => CountingStaysMaximal(b, v);
    case AlreadyHeld => ReceiveStores(b, v);
    case Mismatch(kept) =>
      if kept {
        KeptLeavesGapFilled(b, v);
      } else {
        ReceiveStores(b, v);
      }
  }

  lemma CountingStaysMaximal(b: Bucket, v: Vote)
    requires ZeroBased(b) && Maximal(b) && Receive(b, v).reply == Added
    ensures Maximal(Receive(b, v).bucket)
  {
    var k := StoredAbove(b, v);
    WalkEndsAtGap(b.votes, b.lastSeqSeen, k, v);
  }

  lemma KeptLeavesGapFilled(b: Bucket, v: Vote)
    requires ZeroBased(b) && Maximal(b) && Receive(b, v).reply == Mismatch(true)
    ensures Maximal(Receive(b, v).bucket) <==> !Stalls(b, v)
  {
    var k := StoredAbove(b, v);
    KeptIffFailsNextLink(b, v);
    InsertMeets(b.votes, k, v, b.lastSeqSeen + 1);
    StallSlot(b, v, k);
  }

  lemma StallSlot(b: Bucket, v: Vote, k: nat)
    requires ZeroBased(b) && Maximal(b) && Slot(b.votes, b.lastSeqSeen, k, v) && k == LastAtMost(b.votes, v.seqNo)
    requires FailsNextLink(b, v)
    ensures Stalls(b, v) <==> v.seqNo == b.lastSeqSeen + 1
  {
    var n := b.lastSeqSeen;
    assert b.votes[n].seqNo == n;
    assert n < k ==> b.votes[n].seqNo < b.votes[k].seqNo;
  }

  lemma StallIsStored(b: Bucket, v: Vote)
    requires ZeroBased(b) && Stalls(b, v)
    ensures Receive(b, v).reply == Mismatch(true)
  {
    var n := b.lastSeqSeen;
    assert b.votes[n].seqNo == n;
    assert LastAtMost(b.votes, v.seqNo) == n;
  }

  lemma InsertMeets(vs: seq<Vote>, k: nat, v: Vote, n: nat)
    requires k < |vs|
    ensures MeetsFrom(InsertAfter(vs, k, v), 0, n) <==> MeetsFrom(vs, 0, n) || v.seqNo == n
  {
    var vs' := InsertAfter(vs, k, v);
    if i :| 0 <= i < |vs| && vs[i].seqNo == n {
      assert vs'[if i <= k then i else i + 1] == vs[i];
    }
    assert vs'[k + 1] == v;
  }

  /** Once the awaited vote is in the list without being counted, the counter is stuck for good. */
  lemma StuckStaysStuck(b: Bucket, v: Vote)
    requires ZeroBased(b) && !Maximal(b)
    ensures Receive(b, v).bucket.lastSeqSeen == b.lastSeqSeen
    ensures !Maximal(Receive(b, v).bucket)
  {
    if Stored(Receive(b, v).reply) {
      var k := StoredAbove(b, v);
      HeldIsNotStored(b, v, k);
      WalkStuck(b.votes, b.lastSeqSeen, k, v);
    } else {
      ReceiveStores(b, v);
    }
  }

  lemma HeldIsNotStored(b: Bucket, v: Vote, k: nat)
    requires Increasing(b.votes) && Slot(b.votes, b.lastSeqSeen, k, v)
    ensures !MeetsFrom(b.votes, 0, v.seqNo)
  {
  }

  // ---------- every run that begins with vote 0 ----------

  /** No receipt of the run stalled. */
  predicate NeverStalls(ws: seq<Vote>) {
    ws == [] ||
    (NeverStalls(ws[..|ws| - 1]) && !Stalls(Run(EMPTY, ws[..|ws| - 1]), ws[|ws| - 1]))
  }

  /**
   In every run that starts with a vote 0, whatever follows, all of
   0..lastSeqSeen are held; and the counter is maximal exactly when no receipt
   stalled.
   */
  lemma {:induction false} CounterIsExact(ws: seq<Vote>)
    requires ws != [] && ws[0].seqNo == 0
    ensures ZeroBased(Run(EMPTY, ws))
    ensures Maximal(Run(EMPTY, ws)) <==> NeverStalls(ws)
  {
    var n := |ws| - 1;
    if n == 0 {
      assert ws[..0] == [] && ws == [ws[0]];
      FirstVote(ws[0]);
    } else {
      CounterIsExact(ws[..n]);
      var b := Run(EMPTY, ws[..n]);
      ReceiveKeepsZeroBased(b, ws[n]);
      if Maximal(b) {
        StallLeavesGapFilled(b, ws[n]);
      } else {
        StuckStaysStuck(b, ws[n]);
      }
    }
  }

  lemma EveryRunZeroBased(ws: seq<Vote>)
    requires ws != [] && ws[0].seqNo == 0
    ensures ZeroBased(Run(EMPTY, ws))
  {
    CounterIsExact(ws);
  }

  lemma FirstVote(w: Vote)
    ensures Run(EMPTY, [w]) == Bucket([w], if w.seqNo == 1 then 1 else 0, {})
    ensures Receive(EMPTY, w).reply == Added
  {
    assert [w][..0] == [] && [] + [w] == [w];
    assert Run(EMPTY, [w]) == Receive(EMPTY, w).bucket;
    assert Advance([w], 1, 1) == 1 && Advance([w], 1, 0) == 0;
  }

  lemma GapThenBadLink(w0: Vote, w1: Vote, w2: Vote)
    requires w0.seqNo == 0 && w1.seqNo == 1 && w2.seqNo == 2
    requires Linked(w0, w1) && !Linked(w1, w2)
    ensures Receive(Bucket([w0], 0, {}), w2).bucket == Bucket([w0, w2], 0, {})
    ensures Receive(Bucket([w0, w2], 0, {}), w1).bucket == Bucket([w0, w1, w2], 0, {})
  {
    assert InsertAfter([w0], 0, w2) == [w0, w2];
    assert Advance([w0, w2], 2, 0) == 0;
    assert LastAtMost([w0, w2], 1) == 0;
    assert InsertAfter([w0, w2], 0, w1) == [w0, w1, w2];
  }

  /**
   A stall: with 0 and 2 held, vote 1 links to 0 but not to 2. It is kept and
   not counted, and the counter stays at 0 whatever comes later.
   */
  lemma StallExample(w0: Vote, w1: Vote, w2: Vote, ws: seq<Vote>)
    requires w0.seqNo == 0 && w1.seqNo == 1 && w2.seqNo == 2
    requires Linked(w0, w1) && !Linked(w1, w2)
    ensures var b := Receive(Receive(Bucket([w0], 0, {}), w2).bucket, w1).bucket;
            b.votes == [w0, w1, w2] && Run(b, ws).lastSeqSeen == 0
  {
    GapThenBadLink(w0, w1, w2);
    var b := Bucket([w0, w1, w2], 0, {});
    assert b.votes[1].seqNo == 1;
    StuckForGood(b, ws);
  }

  lemma {:induction false} StuckForGood(b: Bucket, ws: seq<Vote>)
    requires ZeroBased(b) && !Maximal(b)
    ensures Run(b, ws).lastSeqSeen == b.lastSeqSeen
    ensures ZeroBased(Run(b, ws)) && !Maximal(Run(b, ws))
  {
    if ws == [] {
    } else {
      StuckForGood(b, ws[..|ws| - 1]);
      StuckStaysStuck(Run(b, ws[..|ws| - 1]), ws[|ws| - 1]);
      ReceiveKeepsZeroBased(Run(b, ws[..|ws| - 1]), ws[|ws| - 1]);
    }
  }

  // ---------- hash links ----------

  /** The vote with number n is followed by a contiguous one that does not link to it. */
  predicate BrokenAt(vs: seq<Vote>, n: nat) {
    exists i, j :: 0 <= i && j == i + 1 < |vs| && vs[i].seqNo == n && !Linked(vs[i], vs[j])
  }

  lemma InsertKeepsBreaks(vs: seq<Vote>, k: nat, v: Vote, n: nat)
    requires k < |vs| && Linked(vs[k], v)
    requires vs[k].seqNo < v.seqNo && forall j :: k < j < |vs| ==> vs[j].seqNo > v.seqNo
    requires BrokenAt(vs, n) || (n == v.seqNo && k + 1 < |vs| && !Linked(v, vs[k + 1]))
    ensures BrokenAt(InsertAfter(vs, k, v), n)
  {
    var vs' := InsertAfter(vs, k, v);
    if i, j :| 0 <= i && j == i + 1 < |vs| && vs[i].seqNo == n && !Linked(vs[i], vs[j]) {
      assert i != k;
      assert vs'[if i <= k then i else i + 1] == vs[i] && vs'[if j <= k then j else j + 1] == vs[j];
    } else {
      assert vs'[k + 1] == v && vs'[k + 2] == vs[k + 1];
    }
  }

  lemma InsertBreaksOnly(vs: seq<Vote>, k: nat, v: Vote, n: nat)
    requires k < |vs| && Linked(vs[k], v) && BrokenAt(InsertAfter(vs, k, v), n)
    ensures BrokenAt(vs, n) || (n == v.seqNo && k + 1 < |vs| && !Linked(v, vs[k + 1]))
  {
    var vs' := InsertAfter(vs, k, v);
    var i, j :| 0 <= i && j == i + 1 < |vs'| && vs'[i].seqNo == n && !Linked(vs'[i], vs'[j]);
    assert i != k;
    assert i != k + 1 ==> vs'[i] == vs[if i <= k then i else i - 1] && vs'[j] == vs[if j <= k then j else j - 1];
  }

  lemma InsertBreaks(vs: seq<Vote>, k: nat, v: Vote, n: nat)
    requires k < |vs| && vs[k].seqNo < v.seqNo && Linked(vs[k], v)
    requires forall j :: k < j < |vs| ==> vs[j].seqNo > v.seqNo
    ensures BrokenAt(InsertAfter(vs, k, v), n) <==>
            BrokenAt(vs, n) || (n == v.seqNo && k + 1 < |vs| && !Linked(v, vs[k + 1]))
  {
    if BrokenAt(InsertAfter(vs, k, v), n) {
      InsertBreaksOnly(vs, k, v, n);
    } else if BrokenAt(vs, n) || (n == v.seqNo && k + 1 < |vs| && !Linked(v, vs[k + 1])) {
      InsertKeepsBreaks(vs, k, v, n);
    }
  }

  lemma AppendBreaks(vs: seq<Vote>, v: Vote, n: nat)
    requires forall j :: 0 <= j < |vs| ==> vs[j].seqNo > v.seqNo
    ensures BrokenAt(vs + [v], n) <==> BrokenAt(vs, n)
  {
    var vs' := vs + [v];
    assert forall i :: 0 <= i < |vs| ==> vs'[i] == vs[i];
    if i, j :| 0 <= i && j == i + 1 < |vs'| && vs'[i].seqNo == n && !Linked(vs'[i], vs'[j]) {
      assert j < |vs|;
    }
  }

  /** One receipt breaks a link exactly when it stores a vote that fails its next link. */
  lemma ReceiveBreaks(b: Bucket, v: Vote, n: nat)
    ensures BrokenAt(Receive(b, v).bucket.votes, n) <==> BrokenAt(b.votes, n) || (FailsNextLink(b, v) && n == v.seqNo)
  {
    var k := LastAtMost(b.votes, v.seqNo);
    if k < 0 {
      AppendBreaks(b.votes, v, n);
    } else if b.votes[k].seqNo < v.seqNo && Linked(b.votes[k], v) {
      InsertBreaks(b.votes, k, v, n);
    }
  }

  /** The numbers of the votes that were stored although they failed their next link. */
  function KeptUnlinked(ws: seq<Vote>): set<nat> {
    if ws == [] then {}
    else
      var n := |ws| - 1;
      KeptUnlinked(ws[..n]) + if FailsNextLink(Run(EMPTY, ws[..n]), ws[n]) then {ws[n].seqNo} else {}
  }

  /** In every run at all, a link is broken exactly where a vote was stored that failed its next link. */
  lemma {:induction false} BrokenWhereKept(ws: seq<Vote>, n: nat)
    ensures BrokenAt(Run(EMPTY, ws).votes, n) <==> n in KeptUnlinked(ws)
  {
    if ws == [] {
    } else {
      BrokenWhereKept(ws[..|ws| - 1], n);
      ReceiveBreaks(Run(EMPTY, ws[..|ws| - 1]), ws[|ws| - 1], n);
    }
  }

  predicate ChainedUpTo(vs: seq<Vote>, last: nat) {
    last < |vs| && Chain(vs[..last + 1])
  }

  predicate NoneBelow(ns: set<nat>, last: nat) {
    forall n :: n in ns ==> n >= last
  }

  /**
   What the counter counts is one hash-linked chain from vote 0 exactly when no
   vote below the counter was stored although it failed its next link.
   */
  lemma {:induction false} CountedVotesAreChainedIff(ws: seq<Vote>)
    requires ws != [] && ws[0].seqNo == 0
    ensures var b := Run(EMPTY, ws);
            ChainedUpTo(b.votes, b.lastSeqSeen) <==> NoneBelow(KeptUnlinked(ws), b.lastSeqSeen)
  {
    var b := Run(EMPTY, ws);
    EveryRunZeroBased(ws);
    BrokenExactlyWhereKept(ws);
    ChainedIff(b.votes, b.lastSeqSeen, KeptUnlinked(ws));
  }

  lemma BrokenExactlyWhereKept(ws: seq<Vote>)
    ensures forall n: nat :: BrokenAt(Run(EMPTY, ws).votes, n) <==> n in KeptUnlinked(ws)
  {
    forall n: nat ensures BrokenAt(Run(EMPTY, ws).votes, n) <==> n in KeptUnlinked(ws) {
      BrokenWhereKept(ws, n);
    }
  }

  lemma ChainedIff(vs: seq<Vote>, last: nat, broken: set<nat>)
    requires Solid(vs, last)
    requires forall n: nat :: BrokenAt(vs, n) <==> n in broken
    ensures ChainedUpTo(vs, last) <==> NoneBelow(broken, last)
  {
    SolidIsChainIff(vs, last);
  }

  lemma BrokenAtPosition(vs: seq<Vote>, last: nat, n: nat)
    requires Solid(vs, last) && n < last
    ensures BrokenAt(vs, n) <==> vs[n].digest != vs[n + 1].prevHash
  {
    if i, j :| 0 <= i && j == i + 1 < |vs| && vs[i].seqNo == n && !Linked(vs[i], vs[j]) {
      assert vs[n].seqNo == n;
      assert i == n;
    }
    assert Linked(vs[n], vs[n + 1]) <==> vs[n].digest == vs[n + 1].prevHash;
  }

  lemma ChainIsUnbroken(vs: seq<Vote>, last: nat, n: nat)
    requires Solid(vs, last) && n < last && Chain(vs[..last + 1])
    ensures !BrokenAt(vs, n)
  {
    var c := vs[..last + 1];
    assert c[n] == vs[n] && c[n + 1] == vs[n + 1];
    BrokenAtPosition(vs, last, n);
  }

  lemma UnbrokenIsChain(vs: seq<Vote>, last: nat)
    requires Solid(vs, last) && forall n: nat :: n < last ==> !BrokenAt(vs, n)
    ensures Chain(vs[..last + 1])
  {
    var c := vs[..last + 1];
    forall i, j | 0 <= i < |c| && j == i + 1 < |c| ensures c[i].digest == c[j].prevHash {
      BrokenAtPosition(vs, last, i);
      assert !BrokenAt(vs, i);
    }
  }

  lemma SolidIsChainIff(vs: seq<Vote>, last: nat)
    requires Solid(vs, last)
    ensures Chain(vs[..last + 1]) <==> forall n: nat :: BrokenAt(vs, n) ==> n >= last
  {
    if Chain(vs[..last + 1]) {
      forall n: nat | n < last ensures !BrokenAt(vs, n) {
        ChainIsUnbroken(vs, last, n);
      }
    } else if forall n: nat :: n < last ==> !BrokenAt(vs, n) {
      UnbrokenIsChain(vs, last);
    }
  }

  lemma BadLinkThenGapFilled(w0: Vote, w1: Vote, w2: Vote, w3: Vote)
    requires w0.seqNo == 0 && w1.seqNo == 1 && w2.seqNo == 2 && w3.seqNo == 3
    requires Linked(w0, w1) && Linked(w1, w2) && !Linked(w2, w3)
    ensures Receive(Bucket([w0, w3], 0, {}), w2) == Receipt(Bucket([w0, w2, w3], 0, {}), Mismatch(true))
    ensures Receive(Bucket([w0, w2, w3], 0, {}), w1).bucket.lastSeqSeen == 3
  {
    assert LastAtMost([w0, w3], 2) == 0;
    assert InsertAfter([w0, w3], 0, w2) == [w0, w2, w3];
    var b := Bucket([w0, w2, w3], 0, {});
    assert LastAtMost(b.votes, 1) == 0;
    var vs := [w0, w1, w2, w3];
    assert InsertAfter(b.votes, 0, w1) == vs;
    assert Advance(vs, 4, 3) == 3 && Advance(vs, 3, 2) == 3 && Advance(vs, 2, 1) == 3;
    assert Advance(vs, 1, 0) == 3;
  }

  // ---------- the counter against the number of votes ----------

  /** The votes 1..lastSeqSeen are held. */
  predicate Backed(b: Bucket) {
    forall n :: 0 < n <= b.lastSeqSeen ==> MeetsFrom(b.votes, 0, n)
  }

  lemma NoVotesNoCount(b: Bucket)
    requires Backed(b) && b.votes == []
    ensures b.lastSeqSeen == 0
  {
    assert b.lastSeqSeen > 0 ==> MeetsFrom(b.votes, 0, b.lastSeqSeen);
  }

  lemma MeetsStays(b: Bucket, v: Vote, n: nat)
    requires MeetsFrom(b.votes, 0, n)
    ensures MeetsFrom(Receive(b, v).bucket.votes, 0, n)
  {
    var j :| 0 <= j < |b.votes| && b.votes[j].seqNo == n;
    ReceiveKeepsVotes(b, v);
    assert b.votes[j] in Receive(b, v).bucket.votes;
  }

  /** The numbers a receipt adds to the counter are held afterwards. */
  lemma CountedIsMet(b: Bucket, v: Vote, n: nat)
    requires b.lastSeqSeen < n <= Receive(b, v).bucket.lastSeqSeen
    ensures MeetsFrom(Receive(b, v).bucket.votes, 0, n)
  {
    var vs, k := Receive(b, v).bucket.votes, LastAtMost(b.votes, v.seqNo);
    var from := if k < 0 then |b.votes| else k + 1;
    AdvanceMeets(vs, from, b.lastSeqSeen);
    assert MeetsFrom(vs, from, n);
  }

  lemma ReceiveKeepsBacked(b: Bucket, v: Vote)
    requires Backed(b)
    ensures Backed(Receive(b, v).bucket)
  {
    var b' := Receive(b, v).bucket;
    forall n | 0 < n <= b'.lastSeqSeen ensures MeetsFrom(b'.votes, 0, n) {
      if n <= b.lastSeqSeen {
        MeetsStays(b, v, n);
      } else {
        CountedIsMet(b, v, n);
      }
    }
  }

  lemma {:induction false} EveryRunBacked(ws: seq<Vote>)
    ensures Backed(Run(EMPTY, ws))
  {
    if ws == [] {
    } else {
      EveryRunBacked(ws[..|ws| - 1]);
      ReceiveKeepsBacked(Run(EMPTY, ws[..|ws| - 1]), ws[|ws| - 1]);
    }
  }

  lemma {:induction false} MeetsCount(vs: seq<Vote>, n: nat)
    requires forall m :: 0 < m <= n ==> MeetsFrom(vs, 0, m)
    ensures n <= |vs|
  {
    if n == 0 {
    } else {
      assert MeetsFrom(vs, 0, n);
      var j :| 0 <= j < |vs| && vs[j].seqNo == n;
      var rest := vs[..j] + vs[j + 1..];
      forall m | 0 < m <= n - 1 ensures MeetsFrom(rest, 0, m) {
        assert MeetsFrom(vs, 0, m);
        var l :| 0 <= l < |vs| && vs[l].seqNo == m;
        assert rest[if l < j then l else l - 1] == vs[l];
      }
      MeetsCount(rest, n - 1);
    }
  }

  /**
   In every run at all, the counter is at most the number of votes held. It is
   a uint64: it could only wrap around in a bucket holding 2^64 - 1 votes.
   */
  lemma CounterBelowVoteCount(ws: seq<Vote>)
    ensures Run(EMPTY, ws).lastSeqSeen <= |Run(EMPTY, ws).votes|
  {
    EveryRunBacked(ws);
    MeetsCount(Run(EMPTY, ws).votes, Run(EMPTY, ws).lastSeqSeen);
  }

  // ---------- one author's hash-linked chain ----------

  predicate Chain(c: seq<Vote>) {
    && (forall i :: 0 <= i < |c| ==> c[i].seqNo == i)
    && (forall i, j :: 0 <= i < |c| && j == i + 1 < |c| ==> c[i].digest == c[j].prevHash)
  }

  predicate FromChain(v: Vote, c: seq<Vote>) {
    v.seqNo < |c| && v == c[v.seqNo]
  }

  predicate AllFromChain(b: Bucket, c: seq<Vote>) {
    forall x :: x in b.votes ==> FromChain(x, c)
  }

  /** Votes of one chain never clash, in whatever order and however often they come. */
  lemma ChainNeverClashes(b: Bucket, c: seq<Vote>, v: Vote)
    requires Chain(c) && AllFromChain(b, c) && FromChain(v, c)
    ensures var r := Receive(b, v);
            && (r.reply == Added || (r.reply == AlreadyHeld && v in b.votes))
            && AllFromChain(r.bucket, c)
            && v in r.bucket.votes
  {
    var k := LastAtMost(b.votes, v.seqNo);
    if k >= 0 {
      assert b.votes[k] in b.votes;
      assert FromChain(b.votes[k], c);
      if k + 1 < |b.votes| {
        assert b.votes[k + 1] in b.votes;
        assert FromChain(b.votes[k + 1], c);
      }
    }
    ReceiveKeepsVotes(b, v);
  }

  /** The votes c[ds[0]], c[ds[1]], ... */
  function Pick(c: seq<Vote>, ds: seq<nat>): (r: seq<Vote>)
    requires forall i :: 0 <= i < |ds| ==> ds[i] < |c|
    ensures |r| == |ds| && forall i :: 0 <= i < |ds| ==> r[i] == c[ds[i]]
  {
    seq(|ds|, i requires 0 <= i < |ds| => c[ds[i]])
  }

  lemma PickSnoc(c: seq<Vote>, ds: seq<nat>)
    requires ds != [] && forall i :: 0 <= i < |ds| ==> ds[i] < |c|
    ensures Pick(c, ds)[..|ds| - 1] == Pick(c, ds[..|ds| - 1])
  {
  }

  /** The bucket holds exactly the chain votes with these numbers. */
  ghost predicate HoldsExactly(b: Bucket, c: seq<Vote>, ds: seq<nat>) {
    && AllFromChain(b, c) && b.committed == {}
    && forall i :: 0 <= i < |c| ==> (c[i] in b.votes <==> i in ds)
  }

  lemma HoldsOneMore(b: Bucket, c: seq<Vote>, ds: seq<nat>, d: nat)
    requires Chain(c) && HoldsExactly(b, c, ds) && d < |c|
    ensures HoldsExactly(Receive(b, c[d]).bucket, c, ds + [d])
  {
    ChainNeverClashes(b, c, c[d]);
    ReceiveKeepsVotes(b, c[d]);
    ReceiveStores(b, c[d]);
  }

  /** Invariant of every delivery order: held are exactly the chain votes delivered. */
  lemma {:induction false} HoldsWhatWasDelivered(c: seq<Vote>, ds: seq<nat>)
    requires Chain(c) && forall i :: 0 <= i < |ds| ==> ds[i] < |c|
    ensures HoldsExactly(Run(EMPTY, Pick(c, ds)), c, ds)
  {
    if ds == [] {
    } else {
      var n := |ds| - 1;
      HoldsWhatWasDelivered(c, ds[..n]);
      PickSnoc(c, ds);
      assert ds == ds[..n] + [ds[n]];
      HoldsOneMore(Run(EMPTY, Pick(c, ds[..n])), c, ds[..n], ds[n]);
    }
  }

  /** Each delivery succeeds, and reports a new vote exactly the first time it is delivered. */
  lemma DeliveryReplies(c: seq<Vote>, ds: seq<nat>, i: nat)
    requires Chain(c) && forall i :: 0 <= i < |ds| ==> ds[i] < |c|
    requires ds != [] && ds[0] == 0 && i < |ds|
    ensures Receive(Run(EMPTY, Pick(c, ds[..i])), c[ds[i]]).reply ==
            if ds[i] in ds[..i] then AlreadyHeld else Added
  {
    var b, v := Run(EMPTY, Pick(c, ds[..i])), c[ds[i]];
    HoldsWhatWasDelivered(c, ds[..i]);
    ChainNeverClashes(b, c, v);
    if ds[i] in ds[..i] {
      CounterIsExact(Pick(c, ds[..i]));
      var j :| 0 <= j < |b.votes| && b.votes[j] == v;
      assert LastAtMost(b.votes, v.seqNo) == j;
    }
  }

  predicate Deliverable(c: seq<Vote>, ds: seq<nat>) {
    forall i :: 0 <= i < |ds| ==> ds[i] < |c|
  }

  /** The i-th delivery is answered with Added if it is the first of its vote, else with AlreadyHeld. */
  predicate AnswerRight(c: seq<Vote>, ds: seq<nat>, i: nat)
    requires Deliverable(c, ds) && i < |ds|
  {
    Receive(Run(EMPTY, Pick(c, ds[..i])), c[ds[i]]).reply == if ds[i] in ds[..i] then AlreadyHeld else Added
  }

  ghost predicate AnswersRight(c: seq<Vote>, ds: seq<nat>)
    requires Deliverable(c, ds)
  {
    forall i :: 0 <= i < |ds| ==> AnswerRight(c, ds, i)
  }

  /** All deliveries of the chain that begin with vote d are answered right. */
  ghost predicate AllAnswerRight(c: seq<Vote>, d: nat) {
    forall ds: seq<nat> :: ds != [] && ds[0] == d && Deliverable(c, ds) ==> AnswersRight(c, ds)
  }

  /** A vote that was held is accepted again once vote 0 came after it. */
  lemma AcceptedTwice(x: Vote, v0: Vote)
    requires v0.seqNo == 0 < x.seqNo && Linked(v0, x)
    ensures var b := Receive(Run(EMPTY, [x]), v0).bucket;
            b.votes == [x, v0] && Receive(b, x).reply == Added && Receive(b, x).bucket.votes == [x, v0, x]
  {
    FirstVote(x);
    assert [x] + [v0] == [x, v0];
    assert LastAtMost([x, v0], x.seqNo) == 1;
    assert InsertAfter([x, v0], 1, x) == [x, v0, x];
  }

  /** The deliveries x, 0, x. */
  predicate AroundZero(c: seq<Vote>, ds: seq<nat>) {
    |ds| == 3 && ds[1] == 0 && ds[2] == ds[0] && 0 < ds[0] < |c|
  }

  lemma {:induction false} AcceptedAfterZero(c: seq<Vote>, ds: seq<nat>)
    requires Chain(c) && Deliverable(c, ds) && AroundZero(c, ds)
    ensures Receive(Run(EMPTY, Pick(c, ds[..2])), c[ds[2]]).reply == Added
  {
    var x := c[ds[0]];
    assert Pick(c, ds[..2]) == [x] + [c[0]];
    RunSnoc(EMPTY, [x], c[0]);
    AcceptedTwice(x, c[0]);
  }

  lemma {:induction false} RepeatAfterZero(c: seq<Vote>, ds: seq<nat>)
    requires Chain(c) && Deliverable(c, ds) && AroundZero(c, ds)
    ensures !AnswersRight(c, ds)
  {
    AcceptedAfterZero(c, ds);
    RepeatIsHeld(ds);
    assert !AnswerRight(c, ds, 2);
  }

  lemma RepeatIsHeld(ds: seq<nat>)
    requires |ds| == 3 && ds[2] == ds[0]
    ensures ds[2] in ds[..2]
  {
    assert ds[..2][0] == ds[0];
  }

  lemma {:induction false} FromZeroAnswersRight(c: seq<Vote>, ds: seq<nat>)
    requires Chain(c) && Deliverable(c, ds) && ds != [] && ds[0] == 0
    ensures AnswersRight(c, ds)
  {
    forall i | 0 <= i < |ds| ensures AnswerRight(c, ds, i) {
      DeliveryReplies(c, ds, i);
    }
  }

  /**
   "True if the vote hasn't been added before": for the deliveries of a chain
   that begin with vote d this holds in all of them exactly when d is 0.
   */
  lemma {:induction false} AnswersRightIff(c: seq<Vote>, d: nat)
    requires Chain(c) && d < |c|
    ensures AllAnswerRight(c, d) <==> d == 0
  {
    if d == 0 {
      forall ds: seq<nat> | ds != [] && ds[0] == 0 && Deliverable(c, ds) ensures AnswersRight(c, ds) {
        FromZeroAnswersRight(c, ds);
      }
    } else {
      RepeatAfterZero(c, [d, 0, d]);
    }
  }

  /**
   Convergence: for one chain, any delivery order with any repetition that
   begins with vote 0 leaves the delivered votes, sorted, and the counter at
   the last sequence number before the first gap.
   */
  lemma Convergence(c: seq<Vote>, ds: seq<nat>)
    requires Chain(c) && forall i :: 0 <= i < |ds| ==> ds[i] < |c|
    requires ds != [] && ds[0] == 0
    ensures var b := Run(EMPTY, Pick(c, ds));
            && Increasing(b.votes)
            && AllFromChain(b, c)
            && (forall i :: 0 <= i < |c| ==> (c[i] in b.votes <==> i in ds))
            && (forall i :: 0 <= i <= b.lastSeqSeen ==> i in ds)
            && b.lastSeqSeen + 1 !in ds
  {
    HoldsWhatWasDelivered(c, ds);
    CounterIsExact(Pick(c, ds));
    DeliveryNeverStalls(c, ds);
    FirstGap(c, ds, Run(EMPTY, Pick(c, ds)));
  }

  lemma {:induction false} DeliveryNeverStalls(c: seq<Vote>, ds: seq<nat>)
    requires Chain(c) && forall i :: 0 <= i < |ds| ==> ds[i] < |c|
    requires ds != [] ==> ds[0] == 0
    ensures NeverStalls(Pick(c, ds))
  {
    if ds == [] {
    } else {
      var n := |ds| - 1;
      DeliveryNeverStalls(c, ds[..n]);
      PickSnoc(c, ds);
      HoldsWhatWasDelivered(c, ds[..n]);
      if n == 0 {
        assert Run(EMPTY, Pick(c, ds[..n])).votes == [];
      } else {
        CounterIsExact(Pick(c, ds[..n]));
        ChainVoteNeverStalls(Run(EMPTY, Pick(c, ds[..n])), c, c[ds[n]]);
      }
    }
  }

  lemma ChainVoteNeverStalls(b: Bucket, c: seq<Vote>, v: Vote)
    requires Chain(c) && AllFromChain(b, c) && FromChain(v, c) && ZeroBased(b)
    ensures !Stalls(b, v)
  {
    ChainNeverClashes(b, c, v);
    if Stalls(b, v) {
      StallIsStored(b, v);
    }
  }

  lemma FirstGap(c: seq<Vote>, ds: seq<nat>, b: Bucket)
    requires Chain(c) && forall i :: 0 <= i < |ds| ==> ds[i] < |c|
    requires ZeroBased(b) && Maximal(b) && AllFromChain(b, c)
    requires forall i :: 0 <= i < |c| ==> (c[i] in b.votes <==> i in ds)
    ensures forall i :: 0 <= i <= b.lastSeqSeen ==> i in ds
    ensures b.lastSeqSeen + 1 !in ds
  {
    forall i | 0 <= i <= b.lastSeqSeen ensures i in ds {
      assert b.votes[i] in b.votes;
      assert FromChain(b.votes[i], c);
    }
    assert forall i :: i in ds ==> c[i] in b.votes && c[i].seqNo == i;
  }

  lemma {:induction false} SameVotesSameList(xs: seq<Vote>, ys: seq<Vote>)
    requires Increasing(xs) && Increasing(ys)
    requires forall v :: v in xs <==> v in ys
    ensures xs == ys
  {
    assert xs == [] || xs[0] in xs;
    assert ys == [] || ys[0] in ys;
    if xs == [] {
    } else {
      assert xs[0] in ys;
      assert ys[0] in xs;
      assert xs[0] == ys[0];
      forall v ensures v in xs[1..] <==> v in ys[1..] {
        TailMembers(xs, v);
        TailMembers(ys, v);
      }
      SameVotesSameList(xs[1..], ys[1..]);
      assert xs == [xs[0]] + xs[1..] && ys == [ys[0]] + ys[1..];
    }
  }

  lemma TailMembers(xs: seq<Vote>, v: Vote)
    requires Increasing(xs) && xs != []
    ensures v in xs[1..] <==> v in xs && v != xs[0]
  {
  }

  /** Two deliveries of the same votes, both beginning with vote 0, end in the same bucket. */
  lemma DeliveryOrderIrrelevant(c: seq<Vote>, ds: seq<nat>, es: seq<nat>)
    requires Chain(c)
    requires forall i :: 0 <= i < |ds| ==> ds[i] < |c|
    requires forall i :: 0 <= i < |es| ==> es[i] < |c|
    requires ds != [] && ds[0] == 0 && es != [] && es[0] == 0
    requires forall i :: i in ds <==> i in es
    ensures Run(EMPTY, Pick(c, ds)) == Run(EMPTY, Pick(c, es))
  {
    var b, b' := Run(EMPTY, Pick(c, ds)), Run(EMPTY, Pick(c, es));
    Convergence(c, ds);
    Convergence(c, es);
    HoldsWhatWasDelivered(c, ds);
    HoldsWhatWasDelivered(c, es);
    forall v ensures v in b.votes <==> v in b'.votes {
      if v in b.votes { assert FromChain(v, c); }
      if v in b'.votes { assert FromChain(v, c); }
    }
    SameVotesSameList(b.votes, b'.votes);
    assert b.lastSeqSeen < b'.lastSeqSeen ==> b.lastSeqSeen + 1 in es;
    assert b'.lastSeqSeen < b.lastSeqSeen ==> b'.lastSeqSeen + 1 in ds;
  }

  /** If vote 0 is among the deliveries, the list ends sorted exactly when it was delivered first. */
  lemma SortedIffZeroFirst(c: seq<Vote>, ds: seq<nat>)
    requires Chain(c) && forall i :: 0 <= i < |ds| ==> ds[i] < |c|
    requires 0 in ds
    ensures Increasing(Run(EMPTY, Pick(c, ds)).votes) <==> ds[0] == 0
  {
    var ws := Pick(c, ds);
    SortedIffFirstIsLowest(ws);
    var z :| 0 <= z < |ds| && ds[z] == 0;
    assert ws[z].seqNo == 0;
  }
}
