/** The insertion-ordered set of pending transactions with its hash index. */
module PendingTxs {
  import opened Types

  predicate Distinct(list: seq<Tx>) {
    forall i, j :: 0 <= i < j < |list| ==> list[i].hash != list[j].hash
  }

  predicate Contains(list: seq<Tx>, h: Hash) {
    exists i :: 0 <= i < |list| && list[i].hash == h
  }

  function Pushed(list: seq<Tx>, tx: Tx): seq<Tx> {
    if Contains(list, tx.hash) then list else list + [tx]
  }

  /** Pushing keeps the list free of duplicates and adds exactly the one transaction. */
  lemma PushedContains(list: seq<Tx>, tx: Tx, h: Hash)
    ensures Distinct(list) ==> Distinct(Pushed(list, tx))
    ensures Contains(Pushed(list, tx), h) <==> Contains(list, h) || h == tx.hash
  {
    if !Contains(list, tx.hash) {
      ContainsSnoc(list, tx, h);
    }
  }

  /** The transactions whose hash is not in hs, in their old order. */
  function Without(list: seq<Tx>, hs: set<Hash>): seq<Tx> {
    if list == [] then []
    else
      var n := |list| - 1;
      if list[n].hash in hs then Without(list[..n], hs) else Without(list[..n], hs) + [list[n]]
  }

  lemma WithoutSnoc(list: seq<Tx>, tx: Tx, hs: set<Hash>)
    ensures Without(list + [tx], hs) == if tx.hash in hs then Without(list, hs) else Without(list, hs) + [tx]
  {
  }

  lemma {:induction false} WithoutStrangers(list: seq<Tx>, hs: set<Hash>)
    requires forall i :: 0 <= i < |list| ==> list[i].hash !in hs
    ensures Without(list, hs) == list
  {
    if list == [] {
    } else {
      WithoutStrangers(list[..|list| - 1], hs);
      assert list == list[..|list| - 1] + [list[|list| - 1]];
    }
  }

  lemma {:induction false} WithoutTwice(list: seq<Tx>, hs: set<Hash>, more: set<Hash>)
    ensures Without(Without(list, hs), more) == Without(list, hs + more)
  {
    if list == [] {
    } else {
      var n := |list| - 1;
      WithoutTwice(list[..n], hs, more);
      if list[n].hash !in hs {
        WithoutSnoc(Without(list[..n], hs), list[n], more);
      }
    }
  }

  /** Taking out one of several distinct transactions closes the gap it leaves. */
  lemma {:induction false} WithoutOne(list: seq<Tx>, pos: nat)
    requires Distinct(list) && pos < |list|
    ensures Without(list, {list[pos].hash}) == list[..pos] + list[pos + 1..]
  {
    var n := |list| - 1;
    if pos == n {
      WithoutStrangers(list[..n], {list[n].hash});
    } else {
      WithoutOne(list[..n], pos);
    }
  }

  lemma ContainsSnoc(list: seq<Tx>, tx: Tx, h: Hash)
    ensures Contains(list + [tx], h) <==> Contains(list, h) || h == tx.hash
  {
    assert (list + [tx])[|list|] == tx;
    assert forall i :: 0 <= i < |list| ==> (list + [tx])[i] == list[i];
  }

  /** What is left of the pending transactions: neither more nor less than the others. */
  lemma {:induction false} WithoutContains(list: seq<Tx>, hs: set<Hash>, h: Hash)
    ensures Contains(Without(list, hs), h) <==> Contains(list, h) && h !in hs
  {
    if list == [] {
    } else {
      var n := |list| - 1;
      WithoutContains(list[..n], hs, h);
      assert list == list[..n] + [list[n]];
      ContainsSnoc(list[..n], list[n], h);
      ContainsSnoc(Without(list[..n], hs), list[n], h);
    }
  }

  lemma {:induction false} WithoutKeepsDistinct(list: seq<Tx>, hs: set<Hash>)
    requires Distinct(list)
    ensures Distinct(Without(list, hs))
  {
    if list == [] {
    } else {
      var n := |list| - 1;
      WithoutKeepsDistinct(list[..n], hs);
      WithoutContains(list[..n], hs, list[n].hash);
      assert !Contains(list[..n], list[n].hash);
    }
  }

  /** The index and the list agree: byHash[h] = i exactly when list[i] has hash h. */
  ghost predicate Indexed(list: seq<Tx>, byHash: map<Hash, nat>) {
    && (forall h :: h in byHash ==> byHash[h] < |list| && list[byHash[h]].hash == h)
    && (forall i :: 0 <= i < |list| ==> list[i].hash in byHash && byHash[list[i].hash] == i)
  }

  lemma RemovalKeepsIndex(list: seq<Tx>, byHash: map<Hash, nat>, moved: map<Hash, nat>, pos: nat)
    requires Indexed(list, byHash) && pos < |list| && moved.Keys == byHash.Keys
    requires forall i :: 0 <= i < |list| ==> moved[list[i].hash] == if i > pos then i - 1 else i
    ensures Indexed(list[..pos] + list[pos + 1..], moved - {list[pos].hash})
  {
  }

  /** The transactions behind the removed one move up by one position. */
  method MoveUp(list: seq<Tx>, byHash: map<Hash, nat>, pos: nat) returns (moved: map<Hash, nat>)
    requires Indexed(list, byHash) && pos < |list|
    ensures moved.Keys == byHash.Keys
    ensures forall i :: 0 <= i < |list| ==> moved[list[i].hash] == if i > pos then i - 1 else i
  {
    moved := byHash;
    for k := pos + 1 to |list|
      invariant moved.Keys == byHash.Keys
      invariant forall i :: 0 <= i < |list| ==> moved[list[i].hash] == if pos < i < k then i - 1 else i
    {
      moved := moved[list[k].hash := moved[list[k].hash] - 1];
    }
  }

  class Txs {
    var list: seq<Tx>
    var byHash: map<Hash, nat>

    ghost predicate Valid()
      reads this
    {
      Indexed(list, byHash)
    }

    constructor ()
      ensures Valid() && list == []
    {
      list, byHash := [], map[];
    }

    method Push(tx: Tx) returns (isNew: bool)
      requires Valid()
      modifies this
      ensures Valid()
      ensures list == Pushed(old(list), tx)
      ensures isNew == !Contains(old(list), tx.hash)
    {
      if tx.hash in byHash {
        return false;
      }
      list := list + [tx];
      byHash := byHash[tx.hash := |list| - 1];
      return true;
    }

    method ByHash(h: Hash) returns (r: Option<Tx>)
      requires Valid()
      ensures r.Some? <==> Contains(list, h)
      ensures r.Some? ==> r.value in list && r.value.hash == h
    {
      if h in byHash {
        return Some(list[byHash[h]]);
      }
      return None;
    }

    method RemoveByHash(h: Hash) returns (removed: bool)
      requires Valid()
      modifies this
      ensures Valid()
      ensures list == Without(old(list), {h})
      ensures removed == Contains(old(list), h)
    {
      if h !in byHash {
        WithoutStrangers(list, {h});
        return false;
      }
      var pos := byHash[h];
      WithoutOne(list, pos);
      if |list| == 1 {
        list, byHash := [], map[];
        return true;
      }
      var moved := MoveUp(list, byHash, pos);
      RemovalKeepsIndex(list, byHash, moved, pos);
      list := list[..pos] + list[pos + 1..];
      byHash := moved - {h};
      return true;
    }
  }
}
