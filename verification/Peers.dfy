/** A peer as its own node sees it: one bucket per label, changed in place. */
module Peers {
  import opened Types
  import opened Buckets
  import opened Preference

  type View = map<Label, Bucket>

  /** A bucket that was never used reads as an empty one. */
  function At(view: View, l: Label): Bucket {
    if l in view then view[l] else EMPTY
  }

  function WithVote(view: View, v: Vote): View {
    view[v.lbl := Receive(At(view, v.lbl), v).bucket]
  }

  function WithCommitted(view: View, txs: seq<Tx>): View {
    if txs == [] then view
    else
      var n := |txs| - 1;
      var before := WithCommitted(view, txs[..n]);
      var b := At(before, txs[n].lbl);
      before[txs[n].lbl := b.(committed := b.committed + {txs[n].hash})]
  }

  predicate Prefers(view: View, tx1: Tx, tx2: Tx)
    requires tx1.lbl == tx2.lbl
  {
    Before(At(view, tx1.lbl), tx1.hash, tx2.hash)
  }

  predicate HasSeen(view: View, tx: Tx) {
    Seen(At(view, tx.lbl), tx.hash)
  }

  /** Committing adds exactly the committed hashes and leaves votes and counters alone. */
  lemma {:induction false} CommittedAdds(view: View, txs: seq<Tx>, l: Label)
    ensures var b, b' := At(view, l), At(WithCommitted(view, txs), l);
            && b'.votes == b.votes && b'.lastSeqSeen == b.lastSeqSeen
            && (forall h :: h in b'.committed <==>
                  h in b.committed || exists i :: 0 <= i < |txs| && txs[i].hash == h && txs[i].lbl == l)
  {
    if txs == [] {
    } else {
      var n := |txs| - 1;
      CommittedAdds(view, txs[..n], l);
      assert forall i :: 0 <= i < n ==> txs[..n][i] == txs[i];
    }
  }

  /** The search from the tail for a vote that is no higher than s. */
  method FindBackward(vs: seq<Vote>, s: nat) returns (k: int)
    ensures k == LastAtMost(vs, s)
  {
    k := |vs| - 1;
    while k >= 0 && vs[k].seqNo > s
      invariant -1 <= k < |vs|
      invariant forall j :: k < j < |vs| ==> vs[j].seqNo > s
    {
      k := k - 1;
    }
  }

  /** The walk from a newly stored vote to the tail. */
  method CountOn(vs: seq<Vote>, from: nat, last: nat) returns (r: nat)
    requires from <= |vs|
    ensures r == Advance(vs, from, last)
  {
    var e := from;
    r := last;
    while e < |vs|
      invariant e <= |vs|
      invariant Advance(vs, e, r) == Advance(vs, from, last)
    {
      if vs[e].seqNo == r + 1 {
        r := r + 1;
      }
      e := e + 1;
    }
  }

  class Peer {
    const pub: ID
    var buckets: View

    constructor (pub: ID)
      ensures this.pub == pub && buckets == map[]
    {
      this.pub := pub;
      buckets := map[];
    }

    method AddVote(v: Vote) returns (isNew: bool, err: bool)
      modifies this
      ensures buckets == WithVote(old(buckets), v)
      ensures var reply := Receive(At(old(buckets), v.lbl), v).reply;
              isNew == (reply == Added) && err == reply.Mismatch?
    {
      var b := At(buckets, v.lbl);
      var i := FindBackward(b.votes, v.seqNo);
      var votes, item;
      if i >= 0 {
        var prev := b.votes[i];
        if prev.seqNo == v.seqNo {
          buckets := buckets[v.lbl := b];
          return false, false;
        }
        if !Linked(prev, v) {
          buckets := buckets[v.lbl := b];
          return false, true;
        }
        votes, item := InsertAfter(b.votes, i, v), i + 1;
        if item + 1 < |votes| && !Linked(v, votes[item + 1]) {
          buckets := buckets[v.lbl := b.(votes := votes)];
          return false, true;
        }
      } else {
        votes, item := b.votes + [v], |b.votes|;
      }
      var last := CountOn(votes, item, b.lastSeqSeen);
      buckets := buckets[v.lbl := b.(votes := votes, lastSeqSeen := last)];
      return true, false;
    }

    /** Marks the transactions of a block as committed, each under its own label. */
    method UpdateTxSet(txs: seq<Tx>)
      modifies this
      ensures buckets == WithCommitted(old(buckets), txs)
    {
      for i := 0 to |txs|
        invariant buckets == WithCommitted(old(buckets), txs[..i])
      {
        assert txs[..i + 1][..i] == txs[..i];
        var b := At(buckets, txs[i].lbl);
        buckets := buckets[txs[i].lbl := b.(committed := b.committed + {txs[i].hash})];
      }
      assert txs[..|txs|] == txs;
    }
  }
}
