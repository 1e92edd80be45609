/** The engine object: pending transactions and peers, updated in place. */
module Wendy {
  import opened Types
  import opened Buckets
  import opened Peers
  import opened Quorums
  import opened Closure
  import opened PendingTxs
  import opened Fairness
  import opened BlockFilling
  import opened Engine

  /** Row k says by whom list[k] is blocked. */
  ghost predicate RowFilled(matrix: array2<bool>, k: nat, views: Views, quorum: nat, list: seq<Tx>)
    requires OneLabel(list) && matrix.Length0 == matrix.Length1 == |list| && k < |list|
    reads matrix
  {
    forall l :: 0 <= l < |list| ==> matrix[k, l] == BlockedBy(views, quorum, list[k], list[l])
  }

  lemma MatrixIsBlockEdges(matrix: array2<bool>, views: Views, quorum: nat, list: seq<Tx>)
    requires OneLabel(list) && matrix.Length0 == matrix.Length1 == |list|
    requires forall k :: 0 <= k < |list| ==> RowFilled(matrix, k, views, quorum, list)
    ensures EdgesOf(matrix) == BlockEdges(views, quorum, list)
  {
    forall i: nat, j: nat | i < |list| && j < |list|
      ensures matrix[i, j] == BlockedBy(views, quorum, list[i], list[j])
    {
      assert RowFilled(matrix, i, views, quorum, list);
    }
  }

  ghost predicate OwnObjects(peers: map<ID, Peer>) {
    forall i, j :: i in peers && j in peers && peers[i] == peers[j] ==> i == j
  }

  /** The peers of a validator set: the known ones kept, the others made. */
  method KeepPeers(vs: seq<ID>, known: map<ID, Peer>) returns (kept: map<ID, Peer>)
    requires OwnObjects(known)
    ensures kept.Keys == IdsOf(vs) && OwnObjects(kept)
    ensures forall id :: id in kept && id in known ==> kept[id] == known[id]
    ensures forall id :: id in kept && id !in known ==> fresh(kept[id]) && kept[id].buckets == map[]
  {
    kept := map[];
    for i := 0 to |vs|
      invariant kept.Keys == IdsOf(vs[..i]) && OwnObjects(kept)
      invariant forall id :: id in kept && id in known ==> kept[id] == known[id]
      invariant forall id :: id in kept && id !in known ==> fresh(kept[id]) && kept[id].buckets == map[]
    {
      assert IdsOf(vs[..i + 1]) == IdsOf(vs[..i]) + {vs[i]};
      if vs[i] in known {
        kept := kept[vs[i] := known[vs[i]]];
      } else if vs[i] !in kept {
        var peer := new Peer(vs[i]);
        kept := kept[vs[i] := peer];
      }
    }
    assert vs[..|vs|] == vs;
  }

  class Wendy {
    var validators: seq<ID>
    var quorum: nat
    const txs: Txs
    var peers: map<ID, Peer>

    /** The index of the pending list agrees with it, and every peer has its own object. */
    ghost predicate Valid()
      reads this, txs
    {
      txs.Valid() && OwnObjects(peers)
    }

    function PeerViews(): Views
      reads this, peers.Values
    {
      map id | id in peers :: peers[id].buckets
    }

    function Current(): State
      reads this, txs, peers.Values
    {
      State(quorum, txs.list, PeerViews())
    }

    constructor ()
      ensures Valid() && Current() == FRESH && validators == [] && fresh(txs)
    {
      validators, quorum, peers := [], 0, map[];
      txs := new Txs();
    }

    /** Known validators keep their peer, new ones get an empty one, all others are dropped. */
    method UpdateValidatorSet(vs: seq<ID>)
      requires Valid()
      modifies this
      ensures Valid() && validators == vs
      ensures Current() == Step(old(Current()), Event.UpdateValidatorSet(vs))
    {
      var kept := KeepPeers(vs, peers);
      validators, quorum, peers := vs, QuorumOf(|vs|), kept;
    }

    method AddTx(tx: Tx) returns (isNew: bool)
      requires Valid()
      modifies txs
      ensures Valid()
      ensures Current() == Step(old(Current()), Event.AddTx(tx))
      ensures isNew == !Contains(old(txs.list), tx.hash)
    {
      isNew := txs.Push(tx);
    }

    method AddVote(v: Vote) returns (isNew: bool, err: bool)
      requires Valid()
      modifies this, peers.Values
      ensures Valid()
      ensures Current() == Step(old(Current()), Event.AddVote(v))
      ensures var reply := Receive(At(ViewOf(old(PeerViews()), v.pubkey), v.lbl), v).reply;
              isNew == (reply == Added) && err == reply.Mismatch?
    {
      var peer := PeerFor(v.pubkey);
      isNew, err := peer.AddVote(v);
      ghost var views := Record(old(PeerViews()), v);
      assert peers.Keys == views.Keys;
      forall id | id in peers ensures peers[id].buckets == views[id] {
        assert id != v.pubkey ==> peers[id] != peer;
      }
      assert PeerViews() == views;
    }

    /** The peer of a key, made if the key is unknown. */
    method PeerFor(id: ID) returns (peer: Peer)
      requires Valid()
      modifies this`peers
      ensures Valid() && id in peers && peers[id] == peer
      ensures id in old(peers) || fresh(peer)
      ensures peers == old(peers)[id := peer] && (id in old(peers) ==> peer == old(peers)[id])
      ensures peer.buckets == ViewOf(old(PeerViews()), id)
    {
      if id !in peers {
        peer := new Peer(id);
        peers := peers[id := peer];
      } else {
        peer := peers[id];
      }
    }

    /** tx1 is blocked by tx2 unless a quorum of peers reports tx1 before tx2. */
    method IsBlockedBy(tx1: Tx, tx2: Tx) returns (blocked: bool)
      requires tx1.lbl == tx2.lbl
      ensures blocked == BlockedBy(PeerViews(), quorum, tx1, tx2)
    {
      var fn := (view: View) => Prefers(view, tx1, tx2);
      var ok := HasQuorum(PeerViews(), quorum, fn);
      assert Supporters(PeerViews(), fn) == BeforeBackers(PeerViews(), tx1, tx2);
      return !ok;
    }

    method IsBlocked(tx: Tx) returns (blocked: bool)
      ensures blocked == Blocked(PeerViews(), quorum, tx)
    {
      var fn := (view: View) => HasSeen(view, tx);
      var ok := HasQuorum(PeerViews(), quorum, fn);
      assert Supporters(PeerViews(), fn) == SeenBackers(PeerViews(), tx);
      return !ok;
    }

    /** Takes a block's transactions out of the pending list and marks them committed at every peer. */
    method AddBlock(block: seq<Tx>)
      requires Valid()
      modifies txs, peers.Values
      ensures Valid()
      ensures Current() == Step(old(Current()), Event.AddBlock(block))
    {
      RemovePending(block);
      ghost var views := PeerViews();
      CommitAtPeers(block);
      assert PeerViews() == map id | id in peers :: WithCommitted(views[id], block);
    }

    method CommitAtPeers(block: seq<Tx>)
      requires OwnObjects(peers)
      modifies peers.Values
      ensures PeerViews() == map id | id in peers :: WithCommitted(old(PeerViews())[id], block)
    {
      var rest := peers.Keys;
      while rest != {}
        invariant rest <= peers.Keys
        invariant forall id :: id in rest ==> peers[id].buckets == old(peers[id].buckets)
        invariant forall id :: id in peers && id !in rest ==>
                    peers[id].buckets == WithCommitted(old(peers[id].buckets), block)
        decreases |rest|
      {
        var id :| id in rest;
        rest := rest - {id};
        peers[id].UpdateTxSet(block);
      }
    }

    method RemovePending(block: seq<Tx>)
      requires Valid()
      modifies txs
      ensures Valid()
      ensures txs.list == Without(old(txs.list), HashesOf(block))
    {
      WithoutStrangers(txs.list, {});
      assert HashesOf(block[..0]) == {};
      for i := 0 to |block|
        invariant Valid()
        invariant txs.list == Without(old(txs.list), HashesOf(block[..i]))
      {
        assert HashesOf(block[..i + 1]) == HashesOf(block[..i]) + {block[i].hash};
        WithoutTwice(old(txs.list), HashesOf(block[..i]), {block[i].hash});
        var removed := txs.RemoveByHash(block[i].hash);
      }
      assert block[..|block|] == block;
    }

    /** The matrix of who is blocked by whom. */
    method BlockMatrix() returns (matrix: array2<bool>)
      requires Valid() && OneLabel(txs.list)
      ensures fresh(matrix) && matrix.Length0 == matrix.Length1 == |txs.list|
      ensures EdgesOf(matrix) == BlockEdges(PeerViews(), quorum, txs.list)
    {
      var list := txs.list;
      ghost var views := PeerViews();
      matrix := new bool[|list|, |list|];
      for i := 0 to |list|
        invariant PeerViews() == views
        invariant forall k :: 0 <= k < i ==> RowFilled(matrix, k, views, quorum, list)
      {
        label before:
        FillRow(matrix, i, list);
        forall k | 0 <= k < i ensures RowFilled(matrix, k, views, quorum, list) {
          assert old@before(RowFilled(matrix, k, views, quorum, list));
        }
      }
      MatrixIsBlockEdges(matrix, views, quorum, list);
    }

    method FillRow(matrix: array2<bool>, i: nat, list: seq<Tx>)
      requires OneLabel(list) && i < |list| && matrix.Length0 == matrix.Length1 == |list|
      modifies matrix
      ensures RowFilled(matrix, i, PeerViews(), quorum, list)
      ensures forall k, l :: 0 <= k < |list| && k != i && 0 <= l < |list| ==> matrix[k, l] == old(matrix[k, l])
    {
      ghost var views := PeerViews();
      for j := 0 to |list|
        invariant PeerViews() == views
        invariant forall l :: 0 <= l < j ==> matrix[i, l] == BlockedBy(views, quorum, list[i], list[l])
        invariant forall k, l :: 0 <= k < |list| && k != i && 0 <= l < |list| ==> matrix[k, l] == old(matrix[k, l])
      {
        var blocked := IsBlockedBy(list[i], list[j]);
        matrix[i, j] := blocked;
      }
    }

    /**
     For each pending transaction its blocker list: as many of the first
     pending transactions as it has dependencies. The dependencies are
     collected and sorted, but only their positions in that sorted list are used.
     */
    method BlockingSet() returns (blockers: map<Hash, seq<Tx>>)
      requires Valid() && OneLabel(txs.list)
      ensures forall i :: 0 <= i < |txs.list| ==>
                txs.list[i].hash in blockers && blockers[txs.list[i].hash] == txs.list[..DepSizes(Current())[i]]
    {
      var list := txs.list;
      var matrix := BlockMatrix();
      ghost var sizes, edges := DepSizes(Current()), EdgesOf(matrix);
      blockers := map[];
      for i := 0 to |list|
        invariant EdgesOf(matrix) == edges
        invariant forall k :: 0 <= k < i ==> list[k].hash in blockers && blockers[list[k].hash] == list[..sizes[k]]
      {
        var deps := Dependencies(matrix, i);
        assert |deps| == sizes[i];
        var found := FirstOnes(list, |deps|);
        blockers := blockers[list[i].hash := found];
      }
    }

    method NewBlockWithOptions(o: Options) returns (block: seq<Tx>)
      requires Valid() && OneLabel(txs.list)
      ensures block == FillAll(txs.list, DepSizes(Current()), o).block
    {
      ghost var sizes := DepSizes(Current());
      var lists := BlockingSet();
      block := FillFromLists(txs.list, lists, o, sizes);
    }
  }

  /** The transactions at the first n positions. */
  method FirstOnes(list: seq<Tx>, n: nat) returns (found: seq<Tx>)
    requires n <= |list|
    ensures found == list[..n]
  {
    found := [];
    for txIndex := 0 to n
      invariant found == list[..txIndex]
    {
      found := found + [list[txIndex]];
    }
  }

  /** The outer loop: the blocker list of each pending transaction in turn. */
  method FillFromLists(list: seq<Tx>, lists: map<Hash, seq<Tx>>, o: Options, ghost sizes: seq<nat>)
    returns (block: seq<Tx>)
    requires |sizes| == |list| && Fits(sizes, |list|)
    requires forall i :: 0 <= i < |list| ==> list[i].hash in lists && lists[list[i].hash] == list[..sizes[i]]
    ensures block == FillAll(list, sizes, o).block
  {
    var chosen := new Txs();
    var size: nat := 0;
    for i := 0 to |list|
      invariant chosen.Valid()
      invariant Fill(chosen.list, size) == FillAll(list, sizes[..i], o)
    {
      FillAllSnoc(list, sizes, i, o);
      size := FillFromList(lists[list[i].hash], o, chosen, size);
    }
    assert sizes[..|list|] == sizes;
    block := chosen.list;
  }

  /** The inner loop: pushes one list's transactions until a limit breaks it off. */
  method FillFromList(list: seq<Tx>, o: Options, chosen: Txs, size0: nat) returns (size: nat)
    requires chosen.Valid()
    modifies chosen
    ensures chosen.Valid()
    ensures Fill(chosen.list, size) == FillFrom(list, 0, o, Fill(old(chosen.list), size0))
  {
    size := size0;
    var k := 0;
    ghost var goal := FillFrom(list, 0, o, Fill(chosen.list, size));
    while k < |list|
      invariant k <= |list| && chosen.Valid()
      invariant FillFrom(list, k, o, Fill(chosen.list, size)) == goal
    {
      ghost var f := Fill(chosen.list, size);
      if o.txLimit > 0 && |chosen.list| == o.txLimit {
        assert LimitReached(o, f);
        break;
      }
      if o.maxBlockSize > 0 {
        size := size + |list[k].bytes|;
        if size > o.maxBlockSize {
          assert goal == f.(size := size);
          break;
        }
      }
      assert goal == FillFrom(list, k + 1, o, Fill(Pushed(f.block, list[k]), size));
      var isNew := chosen.Push(list[k]);
      k := k + 1;
    }
  }
}
