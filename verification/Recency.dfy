/**
 For how long the mempool refuses a transaction as known: the cache over whole
 runs, with what the calls and commits push and what the answers, commits and
 removals drop.
 */
module Recency {
  import opened Pools
  import opened Admission
  import opened TxCache

  // ---------- the cache under pushes and drops ----------

  /** k is cached at position i, and everything pushed more recently is one of these. */
  predicate CachedAt(cache: seq<Key>, i: nat, k: Key, since: set<Key>) {
    i < |cache| && cache[i] == k && Elements(cache[i + 1..]) <= since
  }

  ghost predicate Behind(cache: seq<Key>, k: Key, since: set<Key>) {
    exists i: nat :: CachedAt(cache, i, k, since)
  }

  /** k is at least as recent in the cache as the pushes since its last push make it. */
  ghost predicate Recent(cache: seq<Key>, size: nat, ws: seq<Key>, k: Key) {
    k in ws && |PushedSince(ws, k)| < size ==> Behind(cache, k, PushedSince(ws, k))
  }

  lemma AroundBehind(ahead: seq<Key>, k: Key, behind: seq<Key>, since: set<Key>)
    requires Elements(behind) <= since
    ensures Behind(ahead + [k] + behind, k, since)
  {
    assert (ahead + [k] + behind)[|ahead| + 1..] == behind;
    assert CachedAt(ahead + [k] + behind, |ahead|, k, since);
  }

  lemma DropKeepsBehind(cache: seq<Key>, w: Key, k: Key, since: set<Key>)
    requires Behind(cache, k, since) && w != k
    ensures Behind(Dropped(cache, w), k, since)
  {
    var i: nat :| CachedAt(cache, i, k, since);
    var ahead, behind := cache[..i], cache[i + 1..];
    assert cache == ahead + [k] + behind;
    DroppedConcat(ahead + [k], behind, w);
    assert (ahead + [k])[..i] == ahead;
    DroppedElements(behind, w);
    AroundBehind(Dropped(ahead, w), k, Dropped(behind, w), since);
  }

  lemma DroppedElements(s: seq<Key>, w: Key)
    ensures Elements(Dropped(s, w)) <= Elements(s)
  {
    DroppedMembers(s, w);
    forall x | x in Elements(Dropped(s, w)) ensures x in Elements(s) {
      assert x in Dropped(s, w);
    }
  }

  lemma MoveKeepsBehind(cache: seq<Key>, w: Key, k: Key, since: set<Key>)
    requires Behind(cache, k, since) && w != k
    ensures Behind(Dropped(cache, w) + [w], k, since + {w})
  {
    var i: nat :| CachedAt(cache, i, k, since);
    var ahead, behind := cache[..i], cache[i + 1..];
    assert cache == ahead + [k] + behind;
    DroppedAround(ahead, k, behind, w);
    ElementsDropped(behind, w);
    AroundBehind(Dropped(ahead, w), k, Dropped(behind, w) + [w], since + {w});
  }

  lemma ElementsSnoc(s: seq<Key>, w: Key)
    ensures Elements(s + [w]) == Elements(s) + {w}
  {
    assert (s + [w])[|s|] == w;
    assert forall i :: 0 <= i < |s| ==> (s + [w])[i] == s[i];
  }

  lemma ShiftKeepsBehind(cache: seq<Key>, i: nat, w: Key, k: Key, since: set<Key>)
    requires 0 < i && CachedAt(cache, i, k, since)
    ensures Behind(cache[1..] + [w], k, since + {w})
  {
    ElementsSnoc(cache[i + 1..], w);
    assert cache[1..] + [w] == cache[1..i] + [k] + (cache[i + 1..] + [w]);
    AroundBehind(cache[1..i], k, cache[i + 1..] + [w], since + {w});
  }

  lemma AppendKeepsBehind(cache: seq<Key>, w: Key, k: Key, since: set<Key>)
    requires Behind(cache, k, since)
    ensures Behind(cache + [w], k, since + {w})
  {
    var i: nat :| CachedAt(cache, i, k, since);
    ElementsSnoc(cache[i + 1..], w);
    assert cache + [w] == cache[..i] + [k] + (cache[i + 1..] + [w]);
    AroundBehind(cache[..i], k, cache[i + 1..] + [w], since + {w});
  }

  /** A new key: k goes only if it is the oldest of a full cache, and then too much was pushed since. */
  lemma NewKeepsBehind(cache: seq<Key>, size: nat, w: Key, k: Key, since: set<Key>)
    requires NoRepeats(cache) && |cache| <= size && w !in cache
    requires Behind(cache, k, since) && |since + {w}| < size
    ensures Behind(Pushed(cache, size, w), k, since + {w})
  {
    if |cache| == size {
      var i: nat :| CachedAt(cache, i, k, since);
      NotOldest(cache, size, i, w, k, since);
      ShiftKeepsBehind(cache, i, w, k, since);
    } else {
      AppendKeepsBehind(cache, w, k, since);
    }
  }

  lemma NotOldest(cache: seq<Key>, size: nat, i: nat, w: Key, k: Key, since: set<Key>)
    requires NoRepeats(cache) && |cache| == size && w !in cache
    requires CachedAt(cache, i, k, since) && |since + {w}| < size
    ensures i > 0
  {
    var behind := cache[i + 1..];
    ElementsCount(behind);
    assert w !in Elements(behind);
    assert |Elements(behind) + {w}| == |behind| + 1;
    SmallerSet(Elements(behind) + {w}, since + {w});
  }

  lemma {:induction false} SmallerSet(a: set<Key>, b: set<Key>)
    requires a <= b
    ensures |a| <= |b|
  {
    assert b == a + (b - a);
  }

  lemma PushKeepsRecent(cache: seq<Key>, size: nat, ws: seq<Key>, k: Key, w: Key)
    requires NoRepeats(cache) && |cache| <= size && size > 0
    requires Recent(cache, size, ws, k)
    ensures Recent(Pushed(cache, size, w), size, ws + [w], k)
  {
    assert (ws + [w])[..|ws|] == ws;
    if w == k {
      NewestIsLast(cache, size, k);
    } else if k in ws && |PushedSince(ws + [w], k)| < size {
      var since := PushedSince(ws, k);
      assert PushedSince(ws + [w], k) == since + {w};
      SmallerSet(since, since + {w});
      if w in cache {
        MoveKeepsBehind(cache, w, k, since);
      } else {
        NewKeepsBehind(cache, size, w, k, since);
      }
    }
  }

  lemma NewestIsLast(cache: seq<Key>, size: nat, k: Key)
    ensures Behind(Pushed(cache, size, k), k, {})
  {
    var after := Pushed(cache, size, k);
    assert after[|after|..] == [];
    assert CachedAt(after, |after| - 1, k, {});
  }

  lemma DropKeepsRecent(cache: seq<Key>, size: nat, ws: seq<Key>, k: Key, w: Key)
    requires Recent(cache, size, ws, k) && w != k
    ensures Recent(Dropped(cache, w), size, ws, k)
  {
    if k in ws && |PushedSince(ws, k)| < size {
      DropKeepsBehind(cache, w, k, PushedSince(ws, k));
    }
  }

  // ---------- what a step pushes and drops ----------

  /** The transactions judged good, in order. */
  function GoodOnes(txs: seq<Key>, goods: seq<bool>): seq<Key>
    requires |txs| == |goods|
  {
    if txs == [] then []
    else
      var n := |txs| - 1;
      GoodOnes(txs[..n], goods[..n]) + LastIfGood(txs, goods)
  }

  function LastIfGood(txs: seq<Key>, goods: seq<bool>): seq<Key>
    requires |txs| == |goods| && txs != []
  {
    if goods[|txs| - 1] then [txs[|txs| - 1]] else []
  }

  lemma Regroup(a: seq<Key>, b: seq<Key>, c: seq<Key>)
    ensures a + (b + c) == (a + b) + c
  {
  }

  lemma OneMoreGood(ws: seq<Key>, txs: seq<Key>, goods: seq<bool>)
    requires |txs| == |goods| && txs != []
    ensures var n := |txs| - 1;
            ws + GoodOnes(txs, goods) == ws + GoodOnes(txs[..n], goods[..n]) + LastIfGood(txs, goods)
  {
    Regroup(ws, GoodOnes(txs[..|txs| - 1], goods[..|txs| - 1]), LastIfGood(txs, goods));
  }

  /** The pushes of a step: a call that is not turned away, or the valid transactions of a block. */
  function PushesOf(cfg: Config, s: System, st: Step): seq<Key> {
    match st
    case CheckTx(tx, refused) => if Turned(CheckVerdict(cfg, s.pool, tx, refused)) then [] else [tx]
    case Update(txs, goods) => if |txs| == |goods| then GoodOnes(txs, goods) else []
    case _ => []
  }

  /** The block judges the transaction invalid, and invalid ones are not kept. */
  predicate BadIn(txs: seq<Key>, goods: seq<bool>, k: Key)
    requires |txs| == |goods|
  {
    exists i :: 0 <= i < |txs| && txs[i] == k && !goods[i]
  }

  /** The steps that take k out of the cache. */
  predicate Drops(cfg: Config, s: System, st: Step, k: Key) {
    match st
    case CheckTx(_, _) => false
    case Answer(good) => s.queue != [] && s.queue[0].tx == k && DropsIt(cfg, s.pool.list, k, good, s.queue[0].First?)
    case Update(txs, goods) => |txs| == |goods| && !cfg.keepInvalid && BadIn(txs, goods, k)
    case Flush => true
    case RemoveTxByKey(key, fromCache) => key == k && fromCache && key in s.pool.index
  }

  /** All pushes of a run from s, in order. */
  function Pushes(cfg: Config, s: System, steps: seq<Step>): seq<Key> {
    if steps == [] then []
    else
      var n := |steps| - 1;
      Pushes(cfg, s, steps[..n]) + PushesOf(cfg, TakeAll(cfg, s, steps[..n]), steps[n])
  }

  predicate NeverDropped(cfg: Config, s: System, steps: seq<Step>, k: Key) {
    forall i :: 0 <= i < |steps| ==> !Drops(cfg, TakeAll(cfg, s, steps[..i]), steps[i], k)
  }

  predicate OrderlyFrom(cfg: Config, s: System, steps: seq<Step>) {
    forall i :: 0 <= i < |steps| ==> Orderly(TakeAll(cfg, s, steps[..i]), steps[i])
  }

  // ---------- one step ----------

  lemma CommitKeepsRecent(cfg: Config, p: Pool, ws: seq<Key>, tx: Key, good: bool, k: Key)
    requires Books(cfg, p) && cfg.cacheSize > 0 && Recent(p.cache, cfg.cacheSize, ws, k)
    requires tx == k ==> good || cfg.keepInvalid
    ensures Recent(CommitOne(cfg, p, tx, good).cache, cfg.cacheSize, ws + (if good then [tx] else []), k)
  {
    if good {
      PushKeepsRecent(p.cache, cfg.cacheSize, ws, k, tx);
    } else {
      assert ws + [] == ws;
      if !cfg.keepInvalid {
        DropKeepsRecent(p.cache, cfg.cacheSize, ws, k, tx);
      }
    }
  }

  lemma {:induction false} CommitsKeepRecent(cfg: Config, p: Pool, ws: seq<Key>, txs: seq<Key>, goods: seq<bool>, k: Key)
    requires Books(cfg, p) && cfg.cacheSize > 0 && Recent(p.cache, cfg.cacheSize, ws, k) && |txs| == |goods|
    requires cfg.keepInvalid || !BadIn(txs, goods, k)
    ensures Recent(CommitAll(cfg, p, txs, goods).cache, cfg.cacheSize, ws + GoodOnes(txs, goods), k)
  {
    if txs == [] {
      assert ws + [] == ws;
    } else {
      var n := |txs| - 1;
      CommitsKeepRecent(cfg, p, ws, txs[..n], goods[..n], k);
      CommitAllKeepsBooks(cfg, p, txs[..n], goods[..n]);
      var before := ws + GoodOnes(txs[..n], goods[..n]);
      CommitKeepsRecent(cfg, CommitAll(cfg, p, txs[..n], goods[..n]), before, txs[n], goods[n], k);
      OneMoreGood(ws, txs, goods);
    }
  }

  lemma AnswerKeepsRecent(cfg: Config, s: System, ws: seq<Key>, good: bool, k: Key)
    requires Inv(cfg, s) && Recent(s.pool.cache, cfg.cacheSize, ws, k)
    requires s.queue != [] && !Drops(cfg, s, Answer(good), k)
    ensures Recent(Take(cfg, s, Answer(good)).pool.cache, cfg.cacheSize, ws, k)
  {
    AnswerCache(cfg, s, good);
    if s.queue[0].tx != k {
      DropKeepsRecent(s.pool.cache, cfg.cacheSize, ws, k, s.queue[0].tx);
    }
  }

  /** An answer drops the answered transaction, or nothing. */
  lemma AnswerCache(cfg: Config, s: System, good: bool)
    requires Inv(cfg, s) && s.queue != []
    ensures var tx := s.queue[0].tx;
            Take(cfg, s, Answer(good)).pool.cache ==
            if Drops(cfg, s, Answer(good), tx) then Dropped(s.pool.cache, tx) else s.pool.cache
  {
    if Idle(s) {
      FirstCache(cfg, s, good);
    } else {
      var c: nat :| CursorAt(s, c);
      QueueMovesOn(s.pool.list, s.queue, c, good);
      AnswerIsRecheck(cfg, s, c, good);
    }
  }

  lemma FirstCache(cfg: Config, s: System, good: bool)
    requires Inv(cfg, s) && Idle(s) && s.queue != []
    ensures var tx := s.queue[0].tx;
            Take(cfg, s, Answer(good)).pool.cache ==
            if DropsIt(cfg, s.pool.list, tx, good, true) then Dropped(s.pool.cache, tx) else s.pool.cache
  {
    assert HasRoom(cfg, s.pool.list, s.queue[0].tx) <==> !IsFull(cfg, s.pool, |s.queue[0].tx|);
  }

  lemma StepKeepsRecent(cfg: Config, s: System, ws: seq<Key>, st: Step, k: Key)
    requires Inv(cfg, s) && cfg.cacheSize > 0 && Recent(s.pool.cache, cfg.cacheSize, ws, k)
    requires !Drops(cfg, s, st, k)
    ensures Recent(Take(cfg, s, st).pool.cache, cfg.cacheSize, ws + PushesOf(cfg, s, st), k)
  {
    assert ws + [] == ws;
    match st
    case CheckTx(tx, refused) =>
      PushKeepsRecent(s.pool.cache, cfg.cacheSize, ws, k, tx);
    case Answer(good) =>
      if s.queue != [] {
        AnswerKeepsRecent(cfg, s, ws, good, k);
      }
    case Update(txs, goods) =>
      if |txs| == |goods| {
        CommitsKeepRecent(cfg, s.pool.(notified := false), ws, txs, goods, k);
        UpdatedPool(cfg, s, txs, goods);
      }
    case RemoveTxByKey(key, fromCache) =>
      if key != k {
        DropKeepsRecent(s.pool.cache, cfg.cacheSize, ws, k, key);
      }
  }

  // ---------- whole runs ----------

  lemma {:induction false} RunKeepsRecent(cfg: Config, s: System, steps: seq<Step>, k: Key)
    requires Inv(cfg, s) && OrderlyFrom(cfg, s, steps) && cfg.cacheSize > 0
    requires NeverDropped(cfg, s, steps, k)
    ensures var s' := TakeAll(cfg, s, steps);
            Inv(cfg, s') && Recent(s'.pool.cache, cfg.cacheSize, Pushes(cfg, s, steps), k)
  {
    if steps != [] {
      var n := |steps| - 1;
      PrefixOfRun(cfg, s, steps, k);
      RunKeepsRecent(cfg, s, steps[..n], k);
      StepKeepsInv(cfg, TakeAll(cfg, s, steps[..n]), steps[n]);
      StepKeepsRecent(cfg, TakeAll(cfg, s, steps[..n]), Pushes(cfg, s, steps[..n]), steps[n], k);
    }
  }

  lemma {:induction false} PrefixOfRun(cfg: Config, s: System, steps: seq<Step>, k: Key)
    requires OrderlyFrom(cfg, s, steps) && NeverDropped(cfg, s, steps, k) && steps != []
    ensures var n := |steps| - 1;
            && OrderlyFrom(cfg, s, steps[..n]) && NeverDropped(cfg, s, steps[..n], k)
            && Orderly(TakeAll(cfg, s, steps[..n]), steps[n]) && !Drops(cfg, TakeAll(cfg, s, steps[..n]), steps[n], k)
  {
    var before := steps[..|steps| - 1];
    forall i | 0 <= i < |before|
      ensures Orderly(TakeAll(cfg, s, before[..i]), before[i]) && !Drops(cfg, TakeAll(cfg, s, before[..i]), before[i], k)
    {
      assert before[..i] == steps[..i] && before[i] == steps[i];
    }
  }

  /**
   From any state an orderly run can reach: a transaction that a call let
   through or a block committed as valid, and that nothing has dropped, is
   refused as known as long as fewer than cacheSize distinct other ones were
   pushed after its last push.
   */
  lemma KnownIsRefused(cfg: Config, s: System, steps: seq<Step>, tx: Key)
    requires Inv(cfg, s) && OrderlyFrom(cfg, s, steps) && NeverDropped(cfg, s, steps, tx)
    requires tx in Pushes(cfg, s, steps) && |PushedSince(Pushes(cfg, s, steps), tx)| < cfg.cacheSize
    requires |tx| <= cfg.maxTxBytes && HasRoom(cfg, TakeAll(cfg, s, steps).pool.list, tx)
    ensures CheckVerdict(cfg, TakeAll(cfg, s, steps).pool, tx, false) == InCache
  {
    RunKeepsRecent(cfg, s, steps, tx);
    var s' := TakeAll(cfg, s, steps);
    var i: nat :| CachedAt(s'.pool.cache, i, tx, PushedSince(Pushes(cfg, s, steps), tx));
    VerdictIs(cfg, s'.pool, tx, false);
  }

  // ---------- runs that drop nothing ----------

  /** Nothing the run handles is dropped: no rejection, no bad commit, no removal or Flush. */
  ghost predicate DropsNothing(cfg: Config, s: System, steps: seq<Step>) {
    forall k: Key :: NeverDropped(cfg, s, steps, k)
  }

  lemma PushAllConcat(size: nat, ws: seq<Key>, k: Key)
    ensures PushAll(size, ws + [k]) == Pushed(PushAll(size, ws), size, k)
  {
    assert (ws + [k])[..|ws|] == ws;
  }

  lemma CommitPushAll(cfg: Config, p: Pool, ws: seq<Key>, tx: Key, good: bool)
    requires cfg.cacheSize > 0 && p.cache == PushAll(cfg.cacheSize, ws) && (good || cfg.keepInvalid)
    ensures CommitOne(cfg, p, tx, good).cache == PushAll(cfg.cacheSize, ws + (if good then [tx] else []))
  {
    if good {
      PushAllConcat(cfg.cacheSize, ws, tx);
    } else {
      assert ws + [] == ws;
    }
  }

  lemma {:induction false} CommitsPushAll(cfg: Config, p: Pool, ws: seq<Key>, txs: seq<Key>, goods: seq<bool>)
    requires |txs| == |goods| && cfg.cacheSize > 0 && p.cache == PushAll(cfg.cacheSize, ws)
    requires cfg.keepInvalid || forall i :: 0 <= i < |txs| ==> goods[i]
    ensures CommitAll(cfg, p, txs, goods).cache == PushAll(cfg.cacheSize, ws + GoodOnes(txs, goods))
  {
    if txs == [] {
      assert ws + [] == ws;
    } else {
      var n := |txs| - 1;
      CommitsPushAll(cfg, p, ws, txs[..n], goods[..n]);
      var before := ws + GoodOnes(txs[..n], goods[..n]);
      CommitPushAll(cfg, CommitAll(cfg, p, txs[..n], goods[..n]), before, txs[n], goods[n]);
      OneMoreGood(ws, txs, goods);
    }
  }

  lemma StepPushAll(cfg: Config, s: System, ws: seq<Key>, st: Step)
    requires Inv(cfg, s) && cfg.cacheSize > 0 && s.pool.cache == PushAll(cfg.cacheSize, ws)
    requires forall k: Key :: !Drops(cfg, s, st, k)
    ensures Take(cfg, s, st).pool.cache == PushAll(cfg.cacheSize, ws + PushesOf(cfg, s, st))
  {
    assert ws + [] == ws;
    assert !Drops(cfg, s, st, "");
    match st
    case CheckTx(tx, refused) =>
      PushAllConcat(cfg.cacheSize, ws, tx);
    case Answer(good) =>
      if s.queue != [] {
        AnswerCache(cfg, s, good);
        assert !Drops(cfg, s, st, s.queue[0].tx);
      }
    case Update(txs, goods) =>
      if |txs| == |goods| {
        assert forall i :: 0 <= i < |txs| ==> !Drops(cfg, s, st, txs[i]);
        CommitsPushAll(cfg, s.pool.(notified := false), ws, txs, goods);
        UpdatedPool(cfg, s, txs, goods);
      }
    case Flush =>
    case RemoveTxByKey(key, fromCache) =>
      assert !Drops(cfg, s, st, key);
  }

  lemma {:induction false} RunPushAll(cfg: Config, steps: seq<Step>)
    requires var s := System(NEW, [], false);
             OrderlyFrom(cfg, s, steps) && DropsNothing(cfg, s, steps) && cfg.cacheSize > 0
    ensures var s := System(NEW, [], false);
            && Inv(cfg, TakeAll(cfg, s, steps))
            && TakeAll(cfg, s, steps).pool.cache == PushAll(cfg.cacheSize, Pushes(cfg, s, steps))
  {
    if steps != [] {
      var s, n := System(NEW, [], false), |steps| - 1;
      forall k: Key ensures NeverDropped(cfg, s, steps[..n], k) && !Drops(cfg, TakeAll(cfg, s, steps[..n]), steps[n], k) {
        assert NeverDropped(cfg, s, steps, k);
        PrefixOfRun(cfg, s, steps, k);
      }
      PrefixOfRun(cfg, s, steps, "");
      RunPushAll(cfg, steps[..n]);
      StepKeepsInv(cfg, TakeAll(cfg, s, steps[..n]), steps[n]);
      StepPushAll(cfg, TakeAll(cfg, s, steps[..n]), Pushes(cfg, s, steps[..n]), steps[n]);
    }
  }

  /**
   In a run that drops nothing the bound is exact: a transaction is refused as
   known if and only if it was pushed and fewer than cacheSize distinct other
   ones were pushed after its last push.
   */
  lemma KnownIff(cfg: Config, steps: seq<Step>, tx: Key)
    requires var s := System(NEW, [], false); OrderlyFrom(cfg, s, steps) && DropsNothing(cfg, s, steps)
    requires cfg.cacheSize > 0 && |tx| <= cfg.maxTxBytes
    requires HasRoom(cfg, TakeAll(cfg, System(NEW, [], false), steps).pool.list, tx)
    ensures var s := System(NEW, [], false); var ws := Pushes(cfg, s, steps);
            CheckVerdict(cfg, TakeAll(cfg, s, steps).pool, tx, false) == InCache <==>
            tx in ws && |PushedSince(ws, tx)| < cfg.cacheSize
  {
    var s := System(NEW, [], false);
    RunPushAll(cfg, steps);
    CachedIff(cfg.cacheSize, Pushes(cfg, s, steps), tx);
    VerdictIs(cfg, TakeAll(cfg, s, steps).pool, tx, false);
  }
}
