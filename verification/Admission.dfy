/**
 Which transactions the mempool lets in: what each call, answer and commit means
 for later calls, and for how long a transaction is refused as known.
 */
module Admission {
  import opened Types
  import opened Pools
  import Cache = TxCache

  // ---------- the verdict on a call ----------

  /** Room in the pool for a transaction, by what is listed. */
  predicate HasRoom(cfg: Config, list: seq<Elem>, tx: Key) {
    |list| < cfg.size && Total(list) + |tx| <= cfg.maxTxsBytes
  }

  /** The cache knows the transaction. */
  predicate Remembered(cfg: Config, p: Pool, tx: Key) {
    cfg.cacheSize > 0 && tx in p.cache
  }

  /** Each verdict by what is listed and cached; the errors in the order in which they win. */
  lemma VerdictIs(cfg: Config, p: Pool, tx: Key, refused: bool)
    requires Books(cfg, p)
    ensures var v, room, fits := CheckVerdict(cfg, p, tx, refused), HasRoom(cfg, p.list, tx), |tx| <= cfg.maxTxBytes;
            && (v == MempoolIsFull <==> !room)
            && (v == TxTooLarge <==> room && !fits)
            && (v == Refused <==> room && fits && refused)
            && (v == InCache <==> room && fits && !refused && Remembered(cfg, p, tx))
            && (v == Accepted <==> room && fits && !refused && !Remembered(cfg, p, tx))
  {
  }

  predicate Turned(v: Verdict) {
    v == MempoolIsFull || v == TxTooLarge || v == Refused
  }

  /** A call that is turned away leaves no trace: every later call is answered as if it had not been made. */
  lemma TurnedLeavesNoTrace(cfg: Config, s: System, tx: Key, refused: bool)
    requires Turned(CheckVerdict(cfg, s.pool, tx, refused))
    ensures Take(cfg, s, CheckTx(tx, refused)) == s
  {
  }

  /** A call that is let through or found in the cache: with a cache, the same call is then found in the cache. */
  lemma LetInIsRemembered(cfg: Config, s: System, tx: Key, refused: bool)
    requires Books(cfg, s.pool) && !Turned(CheckVerdict(cfg, s.pool, tx, refused))
    ensures var s' := Take(cfg, s, CheckTx(tx, refused));
            && Remembered(cfg, s'.pool, tx) == (cfg.cacheSize > 0)
            && CheckVerdict(cfg, s'.pool, tx, false) == if cfg.cacheSize > 0 then InCache else Accepted
  {
    if cfg.cacheSize > 0 {
      assert Cache.Pushed(s.pool.cache, cfg.cacheSize, tx)[|Cache.Pushed(s.pool.cache, cfg.cacheSize, tx)| - 1] == tx;
    }
  }

  // ---------- one push, one drop ----------

  /** The oldest entry of a full cache, about to make room. */
  predicate Oldest(cache: seq<Key>, size: nat, k: Key) {
    |cache| >= size && cache != [] && k == cache[0]
  }

  /** A push remembers its key and forgets at most the oldest one, and that only for a key that is new. */
  lemma PushRemembers(cache: seq<Key>, size: nat, tx: Key, k: Key)
    requires Cache.NoRepeats(cache) && |cache| <= size && size >= 1
    ensures k in Cache.Pushed(cache, size, tx) <==>
            k == tx || (k in cache && (tx in cache || !Oldest(cache, size, k)))
  {
    if tx in cache {
      Cache.DroppedHas(cache, tx, k);
      assert k in Cache.Dropped(cache, tx) + [tx] <==> k in Cache.Dropped(cache, tx) || k == tx;
    } else if |cache| >= size {
      assert cache == [cache[0]] + cache[1..];
    }
  }

  lemma CachePushRemembers(cfg: Config, p: Pool, tx: Key, k: Key)
    requires Books(cfg, p) && cfg.cacheSize > 0
    ensures k in CachePushed(cfg, p.cache, tx) <==>
            k == tx || (k in p.cache && (tx in p.cache || !Oldest(p.cache, cfg.cacheSize, k)))
  {
    PushRemembers(p.cache, cfg.cacheSize, tx, k);
  }

  // ---------- what a commit leaves in the cache ----------

  /**
   After a commit: a valid transaction is remembered, an invalid one exactly if
   it was and invalid ones are kept; of the others a valid commit forgets at
   most the oldest, an invalid one none.
   */
  lemma CommitRemembers(cfg: Config, p: Pool, tx: Key, good: bool, k: Key)
    requires Books(cfg, p) && cfg.cacheSize > 0
    ensures k in CommitOne(cfg, p, tx, good).cache <==>
            if k == tx then good || (cfg.keepInvalid && tx in p.cache)
            else k in p.cache && (good ==> tx in p.cache || !Oldest(p.cache, cfg.cacheSize, k))
  {
    if good {
      CachePushRemembers(cfg, p, tx, k);
    } else {
      Cache.DroppedHas(p.cache, tx, k);
    }
  }

  lemma OneCommit(cfg: Config, p: Pool, tx: Key, good: bool)
    ensures CommitAll(cfg, p, [tx], [good]) == CommitOne(cfg, p, tx, good)
  {
    assert [tx][..0] == [] && [good][..0] == [];
    assert CommitAll(cfg, p, [], []) == p;
  }

  /** An update leaves list, bytes and cache as the commits leave them. */
  lemma UpdatedPool(cfg: Config, s: System, txs: seq<Key>, goods: seq<bool>)
    requires |txs| == |goods|
    ensures var p, q := Take(cfg, s, Update(txs, goods)).pool, CommitAll(cfg, s.pool.(notified := false), txs, goods);
            p.list == q.list && p.bytes == q.bytes && p.cache == q.cache
  {
  }

  /** After an update with one transaction, a call for it is found in the cache exactly then. */
  lemma CommittedIsRefused(cfg: Config, s: System, tx: Key, good: bool)
    requires Books(cfg, s.pool) && cfg.cacheSize > 0 && |tx| <= cfg.maxTxBytes
    requires HasRoom(cfg, Take(cfg, s, Update([tx], [good])).pool.list, tx)
    ensures var s' := Take(cfg, s, Update([tx], [good]));
            CheckVerdict(cfg, s'.pool, tx, false) ==
            if good || (cfg.keepInvalid && tx in s.pool.cache) then InCache else Accepted
  {
    var p := s.pool.(notified := false);
    CommitRemembers(cfg, p, tx, good, tx);
    CommitOneKeepsBooks(cfg, p, tx, good);
    UpdatedPool(cfg, s, [tx], [good]);
    OneCommit(cfg, p, tx, good);
    VerdictIs(cfg, CommitOne(cfg, p, tx, good), tx, false);
  }

  // ---------- what an answer leaves in the cache ----------

  /** An answer that drops its transaction from the cache, so that it can be sent again. */
  predicate DropsIt(cfg: Config, list: seq<Elem>, tx: Key, good: bool, first: bool) {
    if good then first && !HasRoom(cfg, list, tx) else !cfg.keepInvalid
  }

  /** A first answer drops its transaction if it is good but there is no room, or bad and invalid ones are not kept. */
  lemma FirstAnswerRemembers(cfg: Config, s: System, good: bool, k: Key)
    requires Inv(cfg, s) && Idle(s) && s.queue != []
    ensures k in Take(cfg, s, Answer(good)).pool.cache <==>
            k in s.pool.cache && !(k == s.queue[0].tx && DropsIt(cfg, s.pool.list, k, good, true))
  {
    Cache.DroppedHas(s.pool.cache, s.queue[0].tx, k);
  }

  /** A recheck answer drops its transaction if it is bad and invalid ones are not kept. */
  lemma RecheckRemembers(cfg: Config, s: System, c: nat, good: bool, k: Key)
    requires Books(cfg, s.pool) && !s.panicked && CursorAt(s, c)
    ensures k in Take(cfg, s, Answer(good)).pool.cache <==>
            k in s.pool.cache && !(k == s.pool.list[c].tx && DropsIt(cfg, s.pool.list, k, good, false))
  {
    AnswerIsRecheck(cfg, s, c, good);
    Cache.DroppedHas(s.pool.cache, s.pool.list[c].tx, k);
  }

  /** A transaction rejected on its first answer can be sent again at once, unless invalid ones are kept and it is cached. */
  lemma RejectedCanComeAgain(cfg: Config, s: System)
    requires Inv(cfg, s) && Idle(s) && s.queue != []
    requires HasRoom(cfg, s.pool.list, s.queue[0].tx) && |s.queue[0].tx| <= cfg.maxTxBytes
    ensures var s', tx := Take(cfg, s, Answer(false)), s.queue[0].tx;
            CheckVerdict(cfg, s'.pool, tx, false) == if cfg.keepInvalid && Remembered(cfg, s.pool, tx) then InCache else Accepted
  {
    var tx := s.queue[0].tx;
    FirstAnswerRemembers(cfg, s, false, tx);
    FirstAnswer(cfg, s, false);
    VerdictIs(cfg, Take(cfg, s, Answer(false)).pool, tx, false);
  }

  // ---------- Flush and RemoveTxByKey ----------

  /** After Flush nothing is listed, indexed, counted or cached, so any call that is small enough and not refused is let through. */
  lemma FlushEmpties(cfg: Config, s: System, tx: Key)
    requires Books(cfg, s.pool)
    ensures var s' := Take(cfg, s, Flush);
            && s'.pool.list == [] && s'.pool.index == map[] && s'.pool.bytes == 0 && s'.queue == s.queue
            && (HasRoom(cfg, [], tx) && |tx| <= cfg.maxTxBytes ==> CheckVerdict(cfg, s'.pool, tx, false) == Accepted)
  {
  }

  lemma WithoutElemTakesOne(p: Pool, c: nat, fromCache: bool, e: Elem)
    requires InOrder(p.list, p.nextId) && c < |p.list|
    ensures e in WithoutElem(p, p.list[c].tx, p.list[c].id, fromCache).list <==> e in p.list && e != p.list[c]
  {
    RemovedList(p, c, fromCache);
    OnlyThatElement(p.list, p.nextId, c, e);
  }

  /** RemoveTxByKey takes out the one element that the key leads to, and the key from the cache if told to; nothing else. */
  lemma RemoveByKeyTakesOne(cfg: Config, s: System, key: Key, fromCache: bool, e: Elem, k: Key)
    requires Books(cfg, s.pool)
    ensures var p, q := s.pool, Take(cfg, s, RemoveTxByKey(key, fromCache)).pool;
            && (e in q.list <==> e in p.list && !(key in p.index && e == Elem(p.index[key], key)))
            && (k in q.index <==> k in p.index && k != key)
            && (k in q.cache <==> k in p.cache && !(k == key && fromCache && key in p.index))
  {
    var p := s.pool;
    if key in p.index {
      assert Elem(p.index[key], key) in p.list;
      var c: nat :| c < |p.list| && p.list[c] == Elem(p.index[key], key);
      WithoutElemTakesOne(p, c, fromCache, e);
      Cache.DroppedHas(p.cache, key, k);
    }
  }

  lemma OnlyThatElement(list: seq<Elem>, nextId: nat, c: nat, e: Elem)
    requires InOrder(list, nextId) && c < |list|
    ensures e in list[..c] + list[c + 1..] <==> e in list && e != list[c]
  {
    assert list == list[..c] + ([list[c]] + list[c + 1..]);
    assert forall i :: 0 <= i < |list| && i != c ==> list[i].id != list[c].id;
  }
  // ---------- announcing that there are transactions ----------

  /** The answer that makes the pool announce: a transaction is listed, or a recheck ends with something left. */
  predicate Announces(cfg: Config, s: System, good: bool) {
    && s.queue != []
    && (if s.queue[0].First? then good && HasRoom(cfg, s.pool.list, s.queue[0].tx)
        else s.pool.cursor == s.pool.end && Take(cfg, s, Answer(good)).pool.list != [])
  }

  lemma FirstAnnounces(cfg: Config, s: System, good: bool)
    requires Inv(cfg, s) && Idle(s) && s.queue != []
    ensures Take(cfg, s, Answer(good)).pool.notified <==> s.pool.notified || (cfg.txsAvailable && Announces(cfg, s, good))
  {
    assert HasRoom(cfg, s.pool.list, s.queue[0].tx) <==> !IsFull(cfg, s.pool, |s.queue[0].tx|);
  }

  lemma CursorIsEnd(p: Pool, c: nat)
    requires InOrder(p.list, p.nextId) && CursorOn(p, c)
    ensures p.cursor == p.end <==> c + 1 == |p.list|
  {
  }

  lemma RecheckAnnounces(cfg: Config, s: System, c: nat, good: bool)
    requires Books(cfg, s.pool) && !s.panicked && CursorAt(s, c)
    ensures Take(cfg, s, Answer(good)).pool.notified <==> s.pool.notified || (cfg.txsAvailable && Announces(cfg, s, good))
  {
    CursorIsEnd(s.pool, c);
    AnswerIsRecheck(cfg, s, c, good);
  }

  /**
   The flag is armed again by an update, set by it if something is left that
   is not to be rechecked, and set by the answers that announce; nothing else
   touches it.
   */
  lemma FlagIff(cfg: Config, s: System, st: Step)
    requires Inv(cfg, s) && Orderly(s, st)
    ensures var s' := Take(cfg, s, st);
            s'.pool.notified <==>
            if st.Update? && |st.txs| == |st.goods| then cfg.txsAvailable && s'.pool.list != [] && !cfg.recheck
            else s.pool.notified || (st.Answer? && cfg.txsAvailable && Announces(cfg, s, st.good))
  {
    match st
    case CheckTx(tx, refused) =>
    case Answer(good) =>
      if s.queue != [] {
        if Idle(s) {
          FirstAnnounces(cfg, s, good);
        } else {
          var c: nat :| CursorAt(s, c);
          RecheckAnnounces(cfg, s, c, good);
        }
      }
    case Update(txs, goods) =>
      if |txs| == |goods| {
        CommitsKeepFlag(cfg, s.pool.(notified := false), txs, goods);
      }
    case Flush =>
    case RemoveTxByKey(key, fromCache) =>
  }

  lemma {:induction false} CommitsKeepFlag(cfg: Config, p: Pool, txs: seq<Key>, goods: seq<bool>)
    requires |txs| == |goods|
    ensures CommitAll(cfg, p, txs, goods).notified == p.notified
  {
    if txs != [] {
      CommitsKeepFlag(cfg, p, txs[..|txs| - 1], goods[..|txs| - 1]);
    }
  }

  /** Transactions that are listed and not being rechecked have been announced. */
  predicate FlagRight(cfg: Config, s: System) {
    if cfg.txsAvailable then s.pool.cursor.Some? || s.pool.list == [] || s.pool.notified else !s.pool.notified
  }

  lemma StepKeepsFlagRight(cfg: Config, s: System, st: Step)
    requires Inv(cfg, s) && Orderly(s, st) && FlagRight(cfg, s)
    ensures FlagRight(cfg, Take(cfg, s, st))
  {
    FlagIff(cfg, s, st);
    match st
    case CheckTx(tx, refused) =>
    case Answer(good) =>
      if s.queue != [] {
        if Idle(s) {
          FirstAnswer(cfg, s, good);
        } else {
          var c: nat :| CursorAt(s, c);
          CursorIsEnd(s.pool, c);
          RecheckAnswer(cfg, s, c, good);
          QueueMovesOn(s.pool.list, s.queue, c, good);
        }
      }
    case Update(txs, goods) =>
    case Flush =>
    case RemoveTxByKey(key, fromCache) =>
  }

  lemma {:induction false} EveryRunFlagRight(cfg: Config, steps: seq<Step>)
    requires OrderlyRun(cfg, steps)
    ensures FlagRight(cfg, Play(cfg, steps))
  {
    if steps != [] {
      var n := |steps| - 1;
      OrderlyPrefix(cfg, steps);
      EveryRunFlagRight(cfg, steps[..n]);
      EveryRunInv(cfg, steps[..n]);
      StepKeepsFlagRight(cfg, Play(cfg, steps[..n]), steps[n]);
    }
  }
}
