/**
 The mempool object on its linked list, key map and cache object. Each method
 and callback is proved to take the step that the pool model takes on the
 abstract pool the object stands for.
 */
module Mempools {
  import opened Types
  import opened Pools
  import opened CLists
  import Cache = TxCache

  /** What an update asks the application to check again. */
  ghost function Requested(cfg: Config, p: Pool): seq<Request> {
    if p.list != [] && cfg.recheck then Rechecks(p.list) else []
  }

  /** The object panics exactly when the model does, and otherwise stands for the model's pool. */
  ghost predicate Outcome(r: Result, panicked: bool, p: Pool) {
    panicked == r.Panic? && (r.Done? ==> p == r.pool)
  }

  /** Every key leads to a live element that holds it. */
  ghost predicate MapLive(nodes: seq<CElement>, txsMap: map<Key, CElement>) {
    forall k :: k in txsMap ==> txsMap[k] in nodes && txsMap[k].tx == k
  }

  ghost function Ids(txsMap: map<Key, CElement>): map<Key, nat> {
    map k | k in txsMap :: txsMap[k].id
  }

  lemma MapAfterPush(nodes: seq<CElement>, e: CElement, txsMap: map<Key, CElement>)
    requires MapLive(nodes, txsMap)
    ensures MapLive(nodes + [e], txsMap[e.tx := e])
    ensures Ids(txsMap[e.tx := e]) == Ids(txsMap)[e.tx := e.id]
  {
  }

  lemma MapAfterRemoval(nodes: seq<CElement>, e: CElement, rest: seq<CElement>, txsMap: map<Key, CElement>)
    requires MapLive(nodes, txsMap) && Kept(nodes, e, rest)
    ensures MapLive(rest, txsMap - {e.tx})
    ensures Ids(txsMap - {e.tx}) == Ids(txsMap) - {e.tx}
  {
  }

  class Mempool {
    const cfg: Config
    const txs: CList
    /** null stands for the cache that does nothing. */
    const cache: Cache.MapTxCache?
    var txsMap: map<Key, CElement>
    var txsBytes: int
    var recheckCursor: CElement?
    var recheckEnd: CElement?
    var notified: bool
    /** Requests sent to the application and not answered yet. */
    var outstanding: seq<Request>
    /** The numbers of the elements that the keys lead to. */
    ghost var index: map<Key, nat>

    ghost predicate Valid()
      reads this, txs, txs.repr, cache
    {
      && txs.Valid()
      && MapLive(txs.nodes, txsMap) && index == Ids(txsMap)
      && (cache == null <==> cfg.cacheSize == 0)
      && (cache != null ==> cache.Valid() && cache.size == cfg.cacheSize)
    }

    /** The abstract pool. */
    ghost function Current(): Pool
      reads this, txs, cache
    {
      Pool(txs.list, index, txsBytes, Pointed(recheckCursor), Pointed(recheckEnd),
           if cache == null then [] else cache.order, txs.nextId, notified)
    }

    /** A recheck in progress goes over elements that are still listed. */
    ghost predicate CursorLive()
      reads this, txs
    {
      recheckCursor != null ==> recheckCursor in txs.nodes && recheckEnd in txs.nodes
    }

    constructor (cfg: Config)
      ensures Valid() && CursorLive() && fresh(txs) && fresh(txs.repr) && (cache != null ==> fresh(cache))
      ensures this.cfg == cfg && Current() == NEW && outstanding == []
    {
      this.cfg := cfg;
      txs := new CList();
      if cfg.cacheSize > 0 {
        cache := new Cache.MapTxCache(cfg.cacheSize);
      } else {
        cache := null;
      }
      txsMap, txsBytes, index := map[], 0, map[];
      recheckCursor, recheckEnd := null, null;
      notified, outstanding := false, [];
    }

    method CachePush(tx: Key) returns (isNew: bool)
      requires Valid()
      modifies cache
      ensures Valid()
      ensures Current() == old(Current()).(cache := CachePushed(cfg, old(Current()).cache, tx))
      ensures isNew <==> !(cfg.cacheSize > 0 && tx in old(Current()).cache)
    {
      isNew := true;
      if cache != null {
        isNew := cache.Push(tx);
      }
    }

    method CacheRemove(tx: Key)
      requires Valid()
      modifies cache
      ensures Valid()
      ensures Current() == old(Current()).(cache := Cache.Dropped(old(Current()).cache, tx))
    {
      if cache != null {
        cache.Remove(tx);
      }
    }

    method AddTx(tx: Key)
      requires Valid()
      modifies this`txsMap, this`txsBytes, this`index, txs, txs.repr
      ensures Valid() && (old(CursorLive()) ==> CursorLive())
      ensures fresh(txs.repr - old(txs.repr))
      ensures Current() == WithElem(old(Current()), tx)
    {
      var e := txs.PushBack(tx);
      MapAfterPush(old(txs.nodes), e, txsMap);
      txsMap, index := txsMap[tx := e], index[tx := e.id];
      txsBytes := txsBytes + |tx|;
    }

    method Unlist(e: CElement)
      requires Valid() && e in txs.nodes
      modifies this`txsMap, this`txsBytes, this`index, txs, txs.repr
      ensures Valid() && txs.repr == old(txs.repr)
      ensures Kept(old(txs.nodes), e, txs.nodes)
      ensures Current() == WithoutElem(old(Current()), e.tx, e.id, false)
      ensures e.next == old(e.next)
    {
      UnlinkNode(e);
      MapAfterRemoval(old(txs.nodes), e, txs.nodes, txsMap);
      txsMap, index := txsMap - {e.tx}, index - {e.tx};
      txsBytes := txsBytes - |e.tx|;
    }

    /** Takes the element out of the list only; its key still leads to it. */
    method UnlinkNode(e: CElement)
      requires txs.Valid() && e in txs.nodes
      modifies txs, txs.repr
      ensures txs.Valid() && txs.repr == old(txs.repr) && txs.nextId == old(txs.nextId)
      ensures Kept(old(txs.nodes), e, txs.nodes)
      ensures txs.list == Unlisted(old(txs.list), e.id)
      ensures e.next == old(e.next)
    {
      ghost var a, b := txs.Unlink(e);
      CutKeeps(a, e, b);
    }

    /** An element that was taken out still leads to its successor. */
    method RemoveTx(tx: Key, e: CElement, fromCache: bool)
      requires Valid() && e in txs.nodes && e.tx == tx
      modifies this`txsMap, this`txsBytes, this`index, txs, txs.repr, cache
      ensures Valid() && txs.repr == old(txs.repr)
      ensures Kept(old(txs.nodes), e, txs.nodes)
      ensures Current() == WithoutElem(old(Current()), tx, e.id, fromCache)
      ensures e.next == old(e.next)
    {
      Unlist(e);
      if fromCache {
        CacheRemove(tx);
      }
    }

    predicate Full(txSize: int)
      reads this, txs
    {
      txs.len >= cfg.size || txSize + txsBytes > cfg.maxTxsBytes
    }

    method NotifyTxsAvailable() returns (panicked: bool)
      requires Valid()
      modifies this`notified
      ensures Valid()
      ensures Outcome(Notify(cfg, old(Current())), panicked, Current())
    {
      if txs.len == 0 {
        return true;
      }
      if cfg.txsAvailable && !notified {
        notified := true;
      }
      return false;
    }

    method CheckTx(tx: Key, refused: bool) returns (verdict: Verdict)
      requires Valid()
      modifies cache, this`outstanding
      ensures Valid()
      ensures verdict == CheckVerdict(cfg, old(Current()), tx, refused)
      ensures Current() == Checked(cfg, old(Current()), tx, refused)
      ensures outstanding == old(outstanding) + if verdict == Accepted then [First(tx)] else []
    {
      if Full(|tx|) {
        return MempoolIsFull;
      }
      if |tx| > cfg.maxTxBytes {
        return TxTooLarge;
      }
      if refused {
        return Refused;
      }
      var isNew := CachePush(tx);
      if !isNew {
        return InCache;
      }
      outstanding := outstanding + [First(tx)];
      return Accepted;
    }

    method ResCbFirstTime(tx: Key, good: bool) returns (panicked: bool)
      requires Valid()
      modifies this`txsMap, this`txsBytes, this`index, this`notified, txs, txs.repr, cache
      ensures Valid() && (old(CursorLive()) ==> CursorLive())
      ensures fresh(txs.repr - old(txs.repr))
      ensures Outcome(OnFirst(cfg, old(Current()), tx, good), panicked, Current())
    {
      panicked := false;
      if good {
        if Full(|tx|) {
          CacheRemove(tx);
          return;
        }
        AddTx(tx);
        panicked := NotifyTxsAvailable();
      } else if !cfg.keepInvalid {
        CacheRemove(tx);
      }
    }

    /** Moves the cursor on from the element just judged, which may have been taken out. */
    method MoveCursor()
      requires Valid() && recheckCursor != null
      modifies this`recheckCursor
      ensures Valid()
      ensures recheckCursor == if old(recheckCursor) == recheckEnd then null else old(recheckCursor).next
      ensures Current() == old(Current()).(cursor := Pointed(recheckCursor))
    {
      if recheckCursor == recheckEnd {
        recheckCursor := null;
      } else {
        recheckCursor := recheckCursor.next;
      }
    }

    method TakeOut()
      requires Valid() && CursorLive() && recheckCursor != null
      modifies this`txsMap, this`txsBytes, this`index, this`recheckCursor, txs, txs.repr, cache
      ensures Valid() && CursorLive() && txs.repr == old(txs.repr)
      ensures Current() == Rejudged(cfg, old(Current()), false)
    {
      CursorLeadsOn();
      RemoveTx(recheckCursor.tx, recheckCursor, !cfg.keepInvalid);
      MoveCursor();
    }

    method PassOver()
      requires Valid() && CursorLive() && recheckCursor != null
      modifies this`recheckCursor
      ensures Valid() && CursorLive()
      ensures Current() == Rejudged(cfg, old(Current()), true)
    {
      CursorLeadsOn();
      MoveCursor();
    }

    /** Takes out the element under the cursor if its transaction is no longer good, and moves on. */
    method JudgeAndMove(good: bool)
      requires Valid() && CursorLive() && recheckCursor != null
      modifies this`txsMap, this`txsBytes, this`index, this`recheckCursor, txs, txs.repr, cache
      ensures Valid() && CursorLive() && txs.repr == old(txs.repr)
      ensures Current() == Rejudged(cfg, old(Current()), good)
    {
      if good {
        PassOver();
      } else {
        TakeOut();
      }
    }

    /** Where the cursor goes next, as an element and in the pool model. */
    lemma CursorLeadsOn()
      requires Valid() && CursorLive() && recheckCursor != null
      ensures var p := Current();
              (if p.end == p.cursor then None else NextOf(p.list, recheckCursor.id)) ==
              Pointed(if recheckCursor == recheckEnd then null else recheckCursor.next)
      ensures recheckCursor.next != null ==> recheckCursor.next in txs.nodes && recheckCursor.next != recheckCursor
    {
      txs.NextIs(recheckCursor);
      txs.SameElem(recheckCursor, recheckEnd);
    }

    method FinishRecheck() returns (panicked: bool)
      requires Valid()
      modifies this`notified
      ensures Valid() && Outcome(Finished(cfg, old(Current())), panicked, Current())
    {
      panicked := false;
      if recheckCursor == null && txs.len > 0 {
        panicked := NotifyTxsAvailable();
      }
    }

    method ResCbRecheck(tx: Key, good: bool) returns (panicked: bool)
      requires Valid() && CursorLive() && recheckCursor != null
      modifies this`txsMap, this`txsBytes, this`index, this`notified, this`recheckCursor, txs, txs.repr, cache
      ensures Valid() && CursorLive() && txs.repr == old(txs.repr)
      ensures Outcome(OnRecheck(cfg, old(Current()), tx, good), panicked, Current())
    {
      if tx != recheckCursor.tx {
        return true;
      }
      JudgeAndMove(good);
      panicked := FinishRecheck();
    }

    /** Sees every answer; only a recheck makes it act. */
    method GlobalCb(tx: Key, good: bool) returns (panicked: bool)
      requires Valid() && CursorLive()
      modifies this`txsMap, this`txsBytes, this`index, this`notified, this`recheckCursor, txs, txs.repr, cache
      ensures Valid() && CursorLive() && txs.repr == old(txs.repr)
      ensures var p := old(Current());
              Outcome(if p.cursor.Some? then OnRecheck(cfg, p, tx, good) else Done(p), panicked, Current())
    {
      panicked := false;
      if recheckCursor != null {
        panicked := ResCbRecheck(tx, good);
      }
    }

    /** The callback of a first-time request. */
    method ReqResCb(tx: Key, good: bool) returns (panicked: bool)
      requires Valid() && CursorLive()
      modifies this`txsMap, this`txsBytes, this`index, this`notified, txs, txs.repr, cache
      ensures Valid() && CursorLive() && fresh(txs.repr - old(txs.repr))
      ensures var p := old(Current());
              Outcome(if p.cursor.Some? then Panic else OnFirst(cfg, p, tx, good), panicked, Current())
    {
      if recheckCursor != null {
        return true;
      }
      panicked := ResCbFirstTime(tx, good);
    }

    /** One answer from the application: the global callback, then the request's own. */
    method OnAnswer(good: bool) returns (panicked: bool)
      requires Valid() && CursorLive() && outstanding != []
      modifies this, txs, txs.repr, cache
      ensures Valid() && CursorLive() && fresh(txs.repr - old(txs.repr))
      ensures Outcome(Answered(cfg, old(Current()), old(outstanding)[0], good), panicked, Current())
      ensures outstanding == old(outstanding)[1..]
    {
      var req := outstanding[0];
      outstanding := outstanding[1..];
      panicked := Callbacks(req, good);
    }

    method Callbacks(req: Request, good: bool) returns (panicked: bool)
      requires Valid() && CursorLive()
      modifies this`txsMap, this`txsBytes, this`index, this`notified, this`recheckCursor, txs, txs.repr, cache
      ensures Valid() && CursorLive() && fresh(txs.repr - old(txs.repr))
      ensures Outcome(Answered(cfg, old(Current()), req, good), panicked, Current())
    {
      panicked := GlobalCb(req.tx, good);
      if !panicked && req.First? {
        panicked := ReqResCb(req.tx, good);
      }
    }

    /** One committed transaction. */
    method CommitTx(tx: Key, good: bool)
      requires Valid()
      modifies this`txsMap, this`txsBytes, this`index, txs, txs.repr, cache
      ensures Valid() && txs.repr == old(txs.repr)
      ensures Current() == CommitOne(cfg, old(Current()), tx, good)
    {
      if good {
        var _ := CachePush(tx);
      } else if !cfg.keepInvalid {
        CacheRemove(tx);
      }
      if tx in txsMap {
        RemoveTx(tx, txsMap[tx], false);
      }
    }

    method CommitTxs(block: seq<Key>, goods: seq<bool>)
      requires Valid() && |block| == |goods|
      modifies this`txsMap, this`txsBytes, this`index, txs, txs.repr, cache
      ensures Valid() && txs.repr == old(txs.repr)
      ensures Current() == CommitAll(cfg, old(Current()), block, goods)
    {
      for i := 0 to |block|
        invariant Valid() && txs.repr == old(txs.repr)
        invariant Current() == CommitAll(cfg, old(Current()), block[..i], goods[..i])
      {
        assert block[..i + 1][..i] == block[..i] && goods[..i + 1][..i] == goods[..i];
        CommitTx(block[i], goods[i]);
      }
      assert block[..|block|] == block && goods[..|goods|] == goods;
    }

    /** Sends every listed transaction to the application again, walking the links from the front. */
    method SendAll()
      requires Valid()
      modifies this`outstanding
      ensures outstanding == old(outstanding) + Rechecks(txs.list)
    {
      var e := txs.head;
      ghost var i := 0;
      while e != null
        invariant i <= |txs.nodes| && e == if i < |txs.nodes| then txs.nodes[i] else null
        invariant outstanding == old(outstanding) + Rechecks(txs.list[..i])
        decreases |txs.nodes| - i
      {
        txs.NextAt(i);
        ElemsAt(txs.nodes);
        outstanding := outstanding + [Recheck(e.tx)];
        e, i := e.next, i + 1;
      }
      assert txs.list[..i] == txs.list;
    }

    method RecheckTxs() returns (panicked: bool)
      requires Valid()
      modifies this`recheckCursor, this`recheckEnd, this`outstanding
      ensures Valid() && (panicked <==> txs.list == [])
      ensures !panicked ==> CursorLive() && outstanding == old(outstanding) + Rechecks(txs.list)
      ensures !panicked ==>
                Current() == old(Current()).(cursor := Some(txs.list[0]), end := Some(txs.list[|txs.list| - 1]))
    {
      if txs.len == 0 {
        return true;
      }
      recheckCursor, recheckEnd := txs.head, txs.tail;
      ElemsAt(txs.nodes);
      SendAll();
      return false;
    }

    method Update(block: seq<Key>, goods: seq<bool>) returns (panicked: bool)
      requires Valid() && |block| == |goods|
      modifies this, txs, txs.repr, cache
      ensures Valid() && (old(recheckCursor) == null ==> CursorLive()) && txs.repr == old(txs.repr)
      ensures var r := Updated(cfg, old(Current()), block, goods);
              && Outcome(r, panicked, Current())
              && (r.Done? ==> outstanding == old(outstanding) + Requested(cfg, r.pool))
    {
      notified := false;
      CommitTxs(block, goods);
      panicked := Announce();
    }

    /** Rechecks what is left, or just says that something is. */
    method Announce() returns (panicked: bool)
      requires Valid()
      modifies this`recheckCursor, this`recheckEnd, this`outstanding, this`notified
      ensures Valid() && (old(recheckCursor) == null ==> CursorLive())
      ensures var q := old(Current());
              var r := if q.list == [] then Done(q)
                       else if cfg.recheck then Done(q.(cursor := Some(q.list[0]), end := Some(q.list[|q.list| - 1])))
                       else Notify(cfg, q);
              && Outcome(r, panicked, Current())
              && (r.Done? ==> outstanding == old(outstanding) + Requested(cfg, r.pool))
    {
      panicked := false;
      if txs.len > 0 {
        if cfg.recheck {
          panicked := RecheckTxs();
        } else {
          panicked := NotifyTxsAvailable();
        }
      }
    }

    /** Unlinks every element, walking on from elements already taken out. */
    method Clear()
      requires Valid()
      modifies txs, txs.repr
      ensures txs.Valid() && txs.nodes == [] && txs.repr == old(txs.repr) && txs.nextId == old(txs.nextId)
    {
      var e := txs.head;
      while e != null
        invariant txs.Valid() && txs.repr == old(txs.repr) && txs.nextId == old(txs.nextId)
        invariant e == txs.head
        decreases |txs.nodes|
      {
        ghost var a, b := txs.Unlink(e);
        e := e.next;
      }
    }

    method Flush()
      requires Valid()
      modifies this`txsMap, this`txsBytes, this`index, txs, txs.repr, cache
      ensures Valid() && txs.repr == old(txs.repr)
      ensures Current() == Flushed(old(Current()))
    {
      txsBytes := 0;
      if cache != null {
        cache.Reset();
      }
      Clear();
      txsMap, index := map[], map[];
    }

    method RemoveTxByKey(key: Key, fromCache: bool)
      requires Valid()
      modifies this`txsMap, this`txsBytes, this`index, txs, txs.repr, cache
      ensures Valid() && txs.repr == old(txs.repr)
      ensures Current() == RemovedByKey(old(Current()), key, fromCache)
    {
      if key in txsMap {
        RemoveTx(txsMap[key].tx, txsMap[key], fromCache);
      }
    }
  }
}
