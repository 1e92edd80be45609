/**
 The mempool as a state machine: the list of good transactions with its key
 index and byte count, the cache, and the recheck cursor; and the requests
 that the application has not answered yet, which it answers in order.
 */
module Pools {
  import opened Types
  import Cache = TxCache

  type Key = Cache.Key

  datatype Config = Config(
    size: int, maxTxsBytes: int, maxTxBytes: int, cacheSize: nat,
    recheck: bool, keepInvalid: bool, txsAvailable: bool)

  /** A list element: its identity and the transaction it holds. */
  datatype Elem = Elem(id: nat, tx: Key)

  datatype Pool = Pool(
    list: seq<Elem>, index: map<Key, nat>, bytes: int,
    cursor: Option<Elem>, end: Option<Elem>,
    cache: seq<Key>, nextId: nat, notified: bool)

  const NEW := Pool([], map[], 0, None, None, [], 0, false)

  datatype Result = Done(pool: Pool) | Panic

  // ---------- list and cache ----------

  /** Position of the element with this identity, or the length of the list. */
  function Position(list: seq<Elem>, id: nat): (c: nat)
    ensures c <= |list|
    ensures c < |list| ==> list[c].id == id
    ensures forall i :: 0 <= i < c ==> list[i].id != id
  {
    if list == [] || list[0].id == id then 0 else 1 + Position(list[1..], id)
  }

  function Unlisted(list: seq<Elem>, id: nat): seq<Elem> {
    var c := Position(list, id);
    if c < |list| then list[..c] + list[c + 1..] else list
  }

  function NextOf(list: seq<Elem>, id: nat): Option<Elem> {
    var c := Position(list, id);
    if c + 1 < |list| then Some(list[c + 1]) else None
  }

  function Total(list: seq<Elem>): nat {
    if list == [] then 0 else Total(list[..|list| - 1]) + |list[|list| - 1].tx|
  }

  /** A cache size of 0 means no cache at all. */
  function CachePushed(cfg: Config, cache: seq<Key>, tx: Key): seq<Key> {
    if cfg.cacheSize == 0 then cache else Cache.Pushed(cache, cfg.cacheSize, tx)
  }

  // ---------- the operations ----------

  predicate IsFull(cfg: Config, p: Pool, txSize: int) {
    |p.list| >= cfg.size || txSize + p.bytes > cfg.maxTxsBytes
  }

  function WithElem(p: Pool, tx: Key): Pool {
    p.(list := p.list + [Elem(p.nextId, tx)], index := p.index[tx := p.nextId],
       bytes := p.bytes + |tx|, nextId := p.nextId + 1)
  }

  function WithoutElem(p: Pool, tx: Key, id: nat, fromCache: bool): Pool {
    p.(list := Unlisted(p.list, id), index := p.index - {tx}, bytes := p.bytes - |tx|,
       cache := if fromCache then Cache.Dropped(p.cache, tx) else p.cache)
  }

  function Notify(cfg: Config, p: Pool): Result {
    if p.list == [] then Panic
    else Done(if cfg.txsAvailable then p.(notified := true) else p)
  }

  datatype Verdict = Accepted | MempoolIsFull | TxTooLarge | Refused | InCache

  /** `refused` stands for a failing pre-check, log write or application connection. */
  function CheckVerdict(cfg: Config, p: Pool, tx: Key, refused: bool): Verdict {
    if IsFull(cfg, p, |tx|) then MempoolIsFull
    else if |tx| > cfg.maxTxBytes then TxTooLarge
    else if refused then Refused
    else if cfg.cacheSize > 0 && tx in p.cache then InCache
    else Accepted
  }

  /** Only the cache changes: the transaction becomes its most recent entry. */
  function Checked(cfg: Config, p: Pool, tx: Key, refused: bool): Pool {
    if CheckVerdict(cfg, p, tx, refused) in {Accepted, InCache} then p.(cache := CachePushed(cfg, p.cache, tx)) else p
  }

  /** The first answer for a transaction: it is listed if good and if there is still room. */
  function OnFirst(cfg: Config, p: Pool, tx: Key, good: bool): Result {
    if good then
      if IsFull(cfg, p, |tx|) then Done(p.(cache := Cache.Dropped(p.cache, tx)))
      else Notify(cfg, WithElem(p, tx))
    else if cfg.keepInvalid then Done(p)
    else Done(p.(cache := Cache.Dropped(p.cache, tx)))
  }

  /** The element under the cursor goes if it is no longer good, and the cursor moves on. */
  function Rejudged(cfg: Config, p: Pool, good: bool): Pool
    requires p.cursor.Some?
  {
    var e := p.cursor.value;
    var next := if p.end == p.cursor then None else NextOf(p.list, e.id);
    (if good then p else WithoutElem(p, e.tx, e.id, !cfg.keepInvalid)).(cursor := next)
  }

  /** When the cursor is gone, what is left is announced. */
  function Finished(cfg: Config, p: Pool): Result {
    if p.cursor == None && p.list != [] then Notify(cfg, p) else Done(p)
  }

  /** An answer while rechecking: it must be for the element under the cursor. */
  function OnRecheck(cfg: Config, p: Pool, tx: Key, good: bool): Result
    requires p.cursor.Some?
  {
    if tx != p.cursor.value.tx then Panic else Finished(cfg, Rejudged(cfg, p, good))
  }

  /** One committed transaction: the cache learns it, the list forgets it. */
  function CommitOne(cfg: Config, p: Pool, tx: Key, good: bool): Pool {
    var q := p.(cache := if good then CachePushed(cfg, p.cache, tx)
                         else if cfg.keepInvalid then p.cache
                         else Cache.Dropped(p.cache, tx));
    if tx in q.index then WithoutElem(q, tx, q.index[tx], false) else q
  }

  function CommitAll(cfg: Config, p: Pool, txs: seq<Key>, good: seq<bool>): Pool
    requires |txs| == |good|
  {
    if txs == [] then p
    else
      var n := |txs| - 1;
      CommitOne(cfg, CommitAll(cfg, p, txs[..n], good[..n]), txs[n], good[n])
  }

  /** After the commits, what is left is rechecked from front to back, or just announced. */
  function Updated(cfg: Config, p: Pool, txs: seq<Key>, good: seq<bool>): Result
    requires |txs| == |good|
  {
    var q := CommitAll(cfg, p.(notified := false), txs, good);
    if q.list == [] then Done(q)
    else if cfg.recheck then Done(q.(cursor := Some(q.list[0]), end := Some(q.list[|q.list| - 1])))
    else Notify(cfg, q)
  }

  function Flushed(p: Pool): Pool {
    p.(list := [], index := map[], bytes := 0, cache := [])
  }

  function RemovedByKey(p: Pool, tx: Key, fromCache: bool): Pool {
    if tx in p.index then WithoutElem(p, tx, p.index[tx], fromCache) else p
  }

  // ---------- the pool with the application's request queue ----------

  datatype Request = First(tx: Key) | Recheck(tx: Key)

  datatype System = System(pool: Pool, queue: seq<Request>, panicked: bool)

  datatype Step =
    | CheckTx(tx: Key, refused: bool)
    | Answer(good: bool)
    | Update(txs: seq<Key>, goods: seq<bool>)
    | Flush
    | RemoveTxByKey(key: Key, fromCache: bool)

  function Rechecks(list: seq<Elem>): (r: seq<Request>)
    ensures |r| == |list|
    ensures forall i :: 0 <= i < |list| ==> r[i] == Recheck(list[i].tx)
  {
    seq(|list|, i requires 0 <= i < |list| => Recheck(list[i].tx))
  }

  /** The global callback sees every answer, then the request's own callback. */
  function Answered(cfg: Config, p: Pool, req: Request, good: bool): Result {
    var r := if p.cursor.Some? then OnRecheck(cfg, p, req.tx, good) else Done(p);
    if r == Panic || req.Recheck? then r
    else if r.pool.cursor.Some? then Panic
    else OnFirst(cfg, r.pool, req.tx, good)
  }

  function Settle(s: System, r: Result, queue: seq<Request>): System {
    if r.Done? then System(r.pool, queue, s.panicked) else s.(panicked := true)
  }

  function Take(cfg: Config, s: System, st: Step): System {
    match st
    case CheckTx(tx, refused) =>
      System(Checked(cfg, s.pool, tx, refused),
             if CheckVerdict(cfg, s.pool, tx, refused) == Accepted then s.queue + [First(tx)] else s.queue,
             s.panicked)
    case Answer(good) =>
      if s.queue == [] then s else Settle(s, Answered(cfg, s.pool, s.queue[0], good), s.queue[1..])
    case Update(txs, goods) =>
      if |txs| != |goods| then s
      else
        var r := Updated(cfg, s.pool, txs, goods);
        Settle(s, r, if r.Done? && r.pool.list != [] && cfg.recheck then s.queue + Rechecks(r.pool.list) else s.queue)
    case Flush => s.(pool := Flushed(s.pool))
    case RemoveTxByKey(key, fromCache) => s.(pool := RemovedByKey(s.pool, key, fromCache))
  }

  function Play(cfg: Config, steps: seq<Step>): System {
    if steps == [] then System(NEW, [], false)
    else Take(cfg, Play(cfg, steps[..|steps| - 1]), steps[|steps| - 1])
  }

  /** Update waits for all answers, and Flush and RemoveTxByKey stay out of a recheck. */
  predicate Orderly(s: System, st: Step) {
    match st
    case Update(_, _) => s.queue == []
    case Flush => s.pool.cursor.None?
    case RemoveTxByKey(_, _) => s.pool.cursor.None?
    case _ => true
  }

  predicate OrderlyRun(cfg: Config, steps: seq<Step>) {
    forall i :: 0 <= i < |steps| ==> Orderly(Play(cfg, steps[..i]), steps[i])
  }

  // ---------- the books: bytes, index, limits, cache ----------

  /** Elements are listed in the order they were made. */
  predicate InOrder(list: seq<Elem>, nextId: nat) {
    && (forall i, j :: 0 <= i < j < |list| ==> list[i].id < list[j].id)
    && (forall i :: 0 <= i < |list| ==> list[i].id < nextId)
  }

  /** Every index entry points to a live element of the same key. */
  ghost predicate IndexLive(list: seq<Elem>, index: map<Key, nat>) {
    forall k :: k in index ==> Elem(index[k], k) in list
  }

  ghost predicate Books(cfg: Config, p: Pool) {
    && InOrder(p.list, p.nextId)
    && p.bytes == Total(p.list)
    && IndexLive(p.list, p.index)
    && (p.list == [] || (|p.list| <= cfg.size && p.bytes <= cfg.maxTxsBytes))
    && Cache.NoRepeats(p.cache) && |p.cache| <= cfg.cacheSize
  }

  lemma {:induction false} TotalSplit(a: seq<Elem>, b: seq<Elem>)
    ensures Total(a + b) == Total(a) + Total(b)
  {
    if b == [] {
      assert a + b == a;
    } else {
      assert (a + b)[..|a + b| - 1] == a + b[..|b| - 1];
      TotalSplit(a, b[..|b| - 1]);
    }
  }

  lemma TotalWithout(list: seq<Elem>, c: nat)
    requires c < |list|
    ensures Total(list[..c] + list[c + 1..]) == Total(list) - |list[c].tx|
  {
    assert list == list[..c] + ([list[c]] + list[c + 1..]);
    TotalSplit(list[..c], [list[c]] + list[c + 1..]);
    TotalSplit([list[c]], list[c + 1..]);
    TotalSplit(list[..c], list[c + 1..]);
    assert [list[c]][..0] == [];
    assert Total([list[c]]) == |list[c].tx|;
  }

  lemma AddKeepsBooks(cfg: Config, p: Pool, tx: Key)
    requires Books(cfg, p) && !IsFull(cfg, p, |tx|)
    ensures Books(cfg, WithElem(p, tx))
  {
  }

  lemma DropKeepsBooks(cfg: Config, p: Pool, tx: Key)
    requires Books(cfg, p)
    ensures Books(cfg, p.(cache := Cache.Dropped(p.cache, tx)))
  {
    Cache.DroppedMembers(p.cache, tx);
  }

  lemma CachePushKeepsBooks(cfg: Config, p: Pool, tx: Key)
    requires Books(cfg, p)
    ensures Books(cfg, p.(cache := CachePushed(cfg, p.cache, tx)))
  {
    Cache.PushedFits(p.cache, cfg.cacheSize, tx);
  }

  lemma RestInOrder(list: seq<Elem>, nextId: nat, c: nat)
    requires InOrder(list, nextId) && c < |list|
    ensures InOrder(list[..c] + list[c + 1..], nextId)
  {
  }

  lemma RestIndexLive(list: seq<Elem>, index: map<Key, nat>, c: nat)
    requires IndexLive(list, index) && c < |list|
    ensures IndexLive(list[..c] + list[c + 1..], index - {list[c].tx})
  {
  }

  lemma RemovedList(p: Pool, c: nat, fromCache: bool)
    requires InOrder(p.list, p.nextId) && c < |p.list|
    ensures WithoutElem(p, p.list[c].tx, p.list[c].id, fromCache).list == p.list[..c] + p.list[c + 1..]
  {
  }

  /** Removing a listed element under its own key; duplicates of the key stay, unindexed. */
  lemma RemoveKeepsBooks(cfg: Config, p: Pool, c: nat, fromCache: bool)
    requires Books(cfg, p) && c < |p.list|
    ensures Books(cfg, WithoutElem(p, p.list[c].tx, p.list[c].id, fromCache))
  {
    RemovedList(p, c, fromCache);
    TotalWithout(p.list, c);
    RestInOrder(p.list, p.nextId, c);
    RestIndexLive(p.list, p.index, c);
    Cache.DroppedMembers(p.cache, p.list[c].tx);
  }

  lemma RemoveIndexedKeepsBooks(cfg: Config, p: Pool, tx: Key, fromCache: bool)
    requires Books(cfg, p) && tx in p.index
    ensures Books(cfg, WithoutElem(p, tx, p.index[tx], fromCache))
  {
    var c: nat :| c < |p.list| && p.list[c] == Elem(p.index[tx], tx);
    RemoveKeepsBooks(cfg, p, c, fromCache);
  }

  lemma CommitOneKeepsBooks(cfg: Config, p: Pool, tx: Key, good: bool)
    requires Books(cfg, p)
    ensures Books(cfg, CommitOne(cfg, p, tx, good))
    ensures CommitOne(cfg, p, tx, good).cursor == p.cursor
  {
    CachePushKeepsBooks(cfg, p, tx);
    DropKeepsBooks(cfg, p, tx);
    var q := p.(cache := if good then CachePushed(cfg, p.cache, tx)
                         else if cfg.keepInvalid then p.cache
                         else Cache.Dropped(p.cache, tx));
    if tx in q.index {
      RemoveIndexedKeepsBooks(cfg, q, tx, false);
    }
  }

  /** Every listed element with this key is the one the index points to. */
  predicate OnlyIndexed(p: Pool, tx: Key) {
    forall i :: 0 <= i < |p.list| && p.list[i].tx == tx ==> tx in p.index && p.index[tx] == p.list[i].id
  }

  predicate Listed(list: seq<Elem>, tx: Key) {
    exists i :: 0 <= i < |list| && list[i].tx == tx
  }

  lemma ClearedIff(list: seq<Elem>, c: nat)
    requires c < |list|
    ensures !Listed(list[..c] + list[c + 1..], list[c].tx) <==>
            forall i :: 0 <= i < |list| && list[i].tx == list[c].tx ==> i == c
  {
    var rest := list[..c] + list[c + 1..];
    assert forall i :: 0 <= i < |rest| ==> rest[i] == list[if i < c then i else i + 1];
    if i :| 0 <= i < |list| && list[i].tx == list[c].tx && i != c {
      assert rest[if i < c then i else i - 1] == list[i];
    }
  }

  /** Committing a transaction clears it from the list if and only if it was not listed twice or unindexed. */
  lemma CommitClearsIff(cfg: Config, p: Pool, tx: Key, good: bool)
    requires Books(cfg, p)
    ensures !Listed(CommitOne(cfg, p, tx, good).list, tx) <==> OnlyIndexed(p, tx)
  {
    if tx in p.index {
      assert Elem(p.index[tx], tx) in p.list;
      var c: nat :| c < |p.list| && p.list[c] == Elem(p.index[tx], tx);
      CommittedList(cfg, p, c, good);
      ClearedIff(p.list, c);
      OnlyIndexedIff(p, c);
    }
  }

  lemma OnlyIndexedIff(p: Pool, c: nat)
    requires InOrder(p.list, p.nextId) && c < |p.list|
    requires p.list[c].tx in p.index && p.index[p.list[c].tx] == p.list[c].id
    ensures OnlyIndexed(p, p.list[c].tx) <==> forall i :: 0 <= i < |p.list| && p.list[i].tx == p.list[c].tx ==> i == c
  {
    assert forall i :: 0 <= i < |p.list| && p.list[i].id == p.list[c].id ==> i == c;
  }

  lemma CommittedList(cfg: Config, p: Pool, c: nat, good: bool)
    requires InOrder(p.list, p.nextId) && c < |p.list|
    requires p.list[c].tx in p.index && p.index[p.list[c].tx] == p.list[c].id
    ensures CommitOne(cfg, p, p.list[c].tx, good).list == p.list[..c] + p.list[c + 1..]
  {
    RemovedList(p, c, false);
  }

  lemma {:induction false} CommitAllKeepsBooks(cfg: Config, p: Pool, txs: seq<Key>, good: seq<bool>)
    requires Books(cfg, p) && |txs| == |good|
    ensures Books(cfg, CommitAll(cfg, p, txs, good))
    ensures CommitAll(cfg, p, txs, good).cursor == p.cursor
  {
    if txs == [] {
    } else {
      var n := |txs| - 1;
      CommitAllKeepsBooks(cfg, p, txs[..n], good[..n]);
      CommitOneKeepsBooks(cfg, CommitAll(cfg, p, txs[..n], good[..n]), txs[n], good[n]);
    }
  }

  lemma FirstKeepsBooks(cfg: Config, p: Pool, tx: Key, good: bool)
    requires Books(cfg, p)
    ensures var r := OnFirst(cfg, p, tx, good); r.Done? && Books(cfg, r.pool) && r.pool.cursor == p.cursor
  {
    DropKeepsBooks(cfg, p, tx);
    if good && !IsFull(cfg, p, |tx|) {
      AddKeepsBooks(cfg, p, tx);
    }
  }

  // ---------- rechecking ----------

  /** The queue: answers due for the elements from position c on, then first-time requests. */
  predicate QueueFits(list: seq<Elem>, queue: seq<Request>, c: nat) {
    && c <= |list| && |list| - c <= |queue|
    && (forall i :: 0 <= i < |list| - c ==> queue[i] == Recheck(list[c + i].tx))
    && (forall i :: |list| - c <= i < |queue| ==> queue[i].First?)
  }

  ghost predicate CursorAt(s: System, c: nat) {
    CursorOn(s.pool, c) && QueueFits(s.pool.list, s.queue, c)
  }

  ghost predicate Idle(s: System) {
    s.pool.cursor == None && forall i :: 0 <= i < |s.queue| ==> s.queue[i].First?
  }

  ghost predicate Inv(cfg: Config, s: System) {
    && Books(cfg, s.pool) && !s.panicked
    && (Idle(s) || exists c: nat :: CursorAt(s, c))
  }

  predicate CursorOn(p: Pool, c: nat) {
    && c < |p.list|
    && p.cursor == Some(p.list[c]) && p.end == Some(p.list[|p.list| - 1])
  }

  /** The list after a verdict on the element at position c. */
  function Judged(list: seq<Elem>, c: nat, good: bool): seq<Elem>
    requires c < |list|
  {
    if good then list else list[..c] + list[c + 1..]
  }

  function JudgedPool(cfg: Config, p: Pool, c: nat, good: bool): Pool
    requires c < |p.list|
  {
    if good then p else WithoutElem(p, p.list[c].tx, p.list[c].id, !cfg.keepInvalid)
  }

  lemma JudgedKeepsBooks(cfg: Config, p: Pool, c: nat, good: bool)
    requires Books(cfg, p) && c < |p.list|
    ensures Books(cfg, JudgedPool(cfg, p, c, good))
    ensures JudgedPool(cfg, p, c, good).list == Judged(p.list, c, good)
  {
    if !good {
      RemovedList(p, c, !cfg.keepInvalid);
      RemoveKeepsBooks(cfg, p, c, !cfg.keepInvalid);
    }
  }

  lemma RecheckStep(cfg: Config, p: Pool, c: nat, good: bool)
    requires InOrder(p.list, p.nextId) && CursorOn(p, c)
    ensures var r := OnRecheck(cfg, p, p.list[c].tx, good);
            var q := JudgedPool(cfg, p, c, good);
            && r.Done?
            && r.pool == q.(cursor := if c + 1 == |p.list| then None else Some(p.list[c + 1]), notified := r.pool.notified)
  {
  }

  lemma QueueMovesOn(list: seq<Elem>, queue: seq<Request>, c: nat, good: bool)
    requires QueueFits(list, queue, c) && c < |list|
    ensures queue[0] == Recheck(list[c].tx)
    ensures QueueFits(Judged(list, c, good), queue[1..], if good then c + 1 else c)
  {
  }

  lemma CursorMovesOn(p: Pool, q: Pool, c: nat, good: bool)
    requires CursorOn(p, c) && c + 1 < |p.list|
    requires q.list == Judged(p.list, c, good) && q.end == p.end && q.cursor == Some(p.list[c + 1])
    ensures CursorOn(q, if good then c + 1 else c)
  {
  }

  /** The next answer goes to the recheck. */
  lemma AnswerIsRecheck(cfg: Config, s: System, c: nat, good: bool)
    requires InOrder(s.pool.list, s.pool.nextId) && !s.panicked && CursorAt(s, c)
    ensures var p, q := Take(cfg, s, Answer(good)).pool, JudgedPool(cfg, s.pool, c, good);
            && Take(cfg, s, Answer(good)) == System(p, s.queue[1..], false)
            && p == q.(cursor := p.cursor, notified := p.notified)
            && p.cursor == if c + 1 == |s.pool.list| then None else Some(s.pool.list[c + 1])
  {
    QueueMovesOn(s.pool.list, s.queue, c, good);
    RecheckStep(cfg, s.pool, c, good);
  }

  /** Where the cursor goes after one recheck answer, and what is left of the list. */
  lemma RecheckAnswer(cfg: Config, s: System, c: nat, good: bool)
    requires Books(cfg, s.pool) && !s.panicked && CursorAt(s, c)
    ensures var s' := Take(cfg, s, Answer(good));
            && Books(cfg, s'.pool) && !s'.panicked
            && s'.pool.list == Judged(s.pool.list, c, good)
            && (if c + 1 == |s.pool.list| then Idle(s') else CursorAt(s', if good then c + 1 else c))
  {
    var list := s.pool.list;
    QueueMovesOn(list, s.queue, c, good);
    AnswerIsRecheck(cfg, s, c, good);
    JudgedKeepsBooks(cfg, s.pool, c, good);
    if c + 1 < |list| {
      CursorMovesOn(s.pool, Take(cfg, s, Answer(good)).pool, c, good);
    }
  }

  lemma FirstAnswer(cfg: Config, s: System, good: bool)
    requires Inv(cfg, s) && Idle(s) && s.queue != []
    ensures var s', tx := Take(cfg, s, Answer(good)), s.queue[0].tx;
            && Inv(cfg, s') && Idle(s') && s'.queue == s.queue[1..]
            && s'.pool.list == s.pool.list +
               (if good && !IsFull(cfg, s.pool, |tx|) then [Elem(s.pool.nextId, tx)] else [])
  {
    var r := OnFirst(cfg, s.pool, s.queue[0].tx, good);
    FirstKeepsBooks(cfg, s.pool, s.queue[0].tx, good);
    assert Take(cfg, s, Answer(good)) == System(r.pool, s.queue[1..], false);
    assert Idle(System(r.pool, s.queue[1..], false));
  }

  lemma CheckKeepsInv(cfg: Config, s: System, tx: Key, refused: bool)
    requires Inv(cfg, s)
    ensures var s' := Take(cfg, s, CheckTx(tx, refused));
            && Inv(cfg, s') && s'.pool.list == s.pool.list
            && (Idle(s) ==> Idle(s'))
            && (forall c: nat :: CursorAt(s, c) ==> CursorAt(s', c))
  {
    CachePushKeepsBooks(cfg, s.pool, tx);
    var s' := Take(cfg, s, CheckTx(tx, refused));
    assert s.queue <= s'.queue;
    forall c: nat | CursorAt(s, c) ensures CursorAt(s', c) {
      assert QueueFits(s'.pool.list, s'.queue, c);
    }
  }

  lemma UpdateKeepsInv(cfg: Config, s: System, txs: seq<Key>, goods: seq<bool>)
    requires Inv(cfg, s) && s.queue == [] && |txs| == |goods|
    ensures Inv(cfg, Take(cfg, s, Update(txs, goods)))
  {
    assert Idle(s);
    var p := s.pool.(notified := false);
    assert Books(cfg, p);
    CommitAllKeepsBooks(cfg, p, txs, goods);
    var q := CommitAll(cfg, p, txs, goods);
    if q.list != [] && cfg.recheck {
      RecheckBegins(cfg, s, q);
    }
  }

  lemma RecheckBegins(cfg: Config, s: System, q: Pool)
    requires Books(cfg, q) && q.list != [] && !s.panicked && s.queue == []
    ensures var r := q.(cursor := Some(q.list[0]), end := Some(q.list[|q.list| - 1]));
            Inv(cfg, System(r, s.queue + Rechecks(r.list), false))
  {
    var r := q.(cursor := Some(q.list[0]), end := Some(q.list[|q.list| - 1]));
    assert CursorAt(System(r, s.queue + Rechecks(r.list), false), 0);
  }

  lemma RemoveByKeyKeepsInv(cfg: Config, s: System, key: Key, fromCache: bool)
    requires Inv(cfg, s) && s.pool.cursor.None?
    ensures Inv(cfg, Take(cfg, s, RemoveTxByKey(key, fromCache)))
  {
    if key in s.pool.index {
      RemoveIndexedKeepsBooks(cfg, s.pool, key, fromCache);
    }
  }

  lemma StepKeepsInv(cfg: Config, s: System, st: Step)
    requires Inv(cfg, s) && Orderly(s, st)
    ensures Inv(cfg, Take(cfg, s, st))
  {
    match st
    case CheckTx(tx, refused) => CheckKeepsInv(cfg, s, tx, refused);
    case Answer(good) =>
      if s.queue != [] {
        if Idle(s) {
          FirstAnswer(cfg, s, good);
        } else {
          var c: nat :| CursorAt(s, c);
          RecheckAnswer(cfg, s, c, good);
        }
      }
    case Update(txs, goods) =>
      if |txs| == |goods| {
        UpdateKeepsInv(cfg, s, txs, goods);
      }
    case Flush =>
    case RemoveTxByKey(key, fromCache) => RemoveByKeyKeepsInv(cfg, s, key, fromCache);
  }

  lemma {:induction false} OrderlyPrefix(cfg: Config, steps: seq<Step>)
    requires OrderlyRun(cfg, steps) && steps != []
    ensures OrderlyRun(cfg, steps[..|steps| - 1]) && Orderly(Play(cfg, steps[..|steps| - 1]), steps[|steps| - 1])
  {
    var before := steps[..|steps| - 1];
    forall i | 0 <= i < |before| ensures Orderly(Play(cfg, before[..i]), before[i]) {
      assert before[..i] == steps[..i] && before[i] == steps[i];
    }
  }

  /**
   In every orderly run no panic is ever reached, the byte count is the sum of
   the listed sizes, the index points to live elements of the same key, and
   list and bytes stay within the configured limits.
   */
  lemma {:induction false} EveryRunInv(cfg: Config, steps: seq<Step>)
    requires OrderlyRun(cfg, steps)
    ensures Inv(cfg, Play(cfg, steps))
  {
    if steps == [] {
    } else {
      var n := |steps| - 1;
      OrderlyPrefix(cfg, steps);
      EveryRunInv(cfg, steps[..n]);
      StepKeepsInv(cfg, Play(cfg, steps[..n]), steps[n]);
    }
  }

  /**
   Why Update has to wait: if first-time requests are outstanding when a
   recheck begins, their next answer panics, unless the pool holds nothing but
   that very transaction.
   */
  lemma EarlyUpdatePanicsIff(cfg: Config, s: System, txs: seq<Key>, goods: seq<bool>, good: bool)
    requires Inv(cfg, s) && Idle(s) && s.queue != [] && |txs| == |goods| && cfg.recheck
    requires Take(cfg, s, Update(txs, goods)).pool.list != []
    ensures var u := Take(cfg, s, Update(txs, goods));
            Take(cfg, u, Answer(good)).panicked <==> |u.pool.list| > 1 || u.pool.list[0].tx != s.queue[0].tx
  {
    var p := s.pool.(notified := false);
    CommitAllKeepsBooks(cfg, p, txs, goods);
    var q := CommitAll(cfg, p, txs, goods);
    var r := q.(cursor := Some(q.list[0]), end := Some(q.list[|q.list| - 1]));
    var u := Take(cfg, s, Update(txs, goods));
    assert u == System(r, s.queue + Rechecks(r.list), false);
    assert u.queue[0] == s.queue[0];
    FirstAnswerInRecheck(cfg, r, s.queue[0], good);
  }

  lemma FirstAnswerInRecheck(cfg: Config, p: Pool, req: Request, good: bool)
    requires InOrder(p.list, p.nextId) && CursorOn(p, 0) && req.First?
    ensures Answered(cfg, p, req, good).Panic? <==> |p.list| > 1 || p.list[0].tx != req.tx
  {
  }

  // ---------- listed twice ----------

  lemma PlaySnoc(cfg: Config, steps: seq<Step>, st: Step)
    ensures Play(cfg, steps + [st]) == Take(cfg, Play(cfg, steps), st)
  {
  }

  /** A run of calls and answers is orderly whatever they are. */
  lemma CallsAreOrderly(cfg: Config, steps: seq<Step>)
    requires forall i :: 0 <= i < |steps| ==> steps[i].CheckTx? || steps[i].Answer?
    ensures OrderlyRun(cfg, steps)
  {
  }

  /** A call for a transaction that the cache does not hold, while there is room. */
  lemma CallIsQueued(cfg: Config, steps: seq<Step>, tx: Key)
    requires var p := Play(cfg, steps).pool;
             !IsFull(cfg, p, |tx|) && |tx| <= cfg.maxTxBytes && (cfg.cacheSize > 0 ==> tx !in p.cache)
    ensures var s, s' := Play(cfg, steps), Play(cfg, steps + [CheckTx(tx, false)]);
            s' == s.(pool := s.pool.(cache := CachePushed(cfg, s.pool.cache, tx)), queue := s.queue + [First(tx)])
  {
    PlaySnoc(cfg, steps, CheckTx(tx, false));
  }

  /** A good answer to a first-time request, while there is room. */
  lemma GoodIsListed(cfg: Config, steps: seq<Step>, tx: Key)
    requires var s := Play(cfg, steps);
             s.queue != [] && s.queue[0] == First(tx) && s.pool.cursor == None && !IsFull(cfg, s.pool, |tx|)
    ensures var s, s' := Play(cfg, steps), Play(cfg, steps + [Answer(true)]);
            && s'.queue == s.queue[1..] && s'.panicked == s.panicked
            && s'.pool == WithElem(s.pool, tx).(notified := s'.pool.notified)
  {
    PlaySnoc(cfg, steps, Answer(true));
  }

  /** Two calls for a and then two good answers. */
  function CalledTwice(a: Key): seq<Step> {
    [CheckTx(a, false)] + [CheckTx(a, false)] + [Answer(true)] + [Answer(true)]
  }

  /** Without a cache, two calls before the first answer list a transaction twice; committing it leaves one behind. */
  lemma TwiceWithoutCache(cfg: Config, a: Key, good: bool)
    requires cfg.cacheSize == 0 && cfg.size >= 2 && |a| <= cfg.maxTxBytes && 2 * |a| <= cfg.maxTxsBytes
    ensures var p := Play(cfg, CalledTwice(a)).pool;
            && OrderlyRun(cfg, CalledTwice(a)) && p.list == [Elem(0, a), Elem(1, a)]
            && Listed(CommitOne(cfg, p, a, good).list, a)
  {
    var call := CheckTx(a, false);
    CallsAreOrderly(cfg, CalledTwice(a));
    assert [] + [call] == [call];
    CallIsQueued(cfg, [], a);
    CallIsQueued(cfg, [call], a);
    assert [First(a)] + ([First(a)] + []) == [] + [First(a)] + [First(a)];
    TwoGoodAnswers(cfg, [call] + [call], a, a, []);
    LeftBehind(cfg, Play(cfg, CalledTwice(a)).pool, a, good);
  }

  lemma TwoGoodAnswers(cfg: Config, steps: seq<Step>, a: Key, b: Key, rest: seq<Request>)
    requires cfg.size >= 2 && |a| + |b| <= cfg.maxTxsBytes
    requires var s := Play(cfg, steps);
             s.queue == [First(a)] + ([First(b)] + rest) && s.pool == NEW.(cache := s.pool.cache)
    ensures var s := Play(cfg, steps + [Answer(true)] + [Answer(true)]);
            && s.queue == rest && s.pool.cursor == None && s.pool.nextId == 2
            && s.pool.list == [Elem(0, a), Elem(1, b)] && s.pool.bytes == |a| + |b|
            && b in s.pool.index && s.pool.index[b] == 1
  {
    GoodIsListed(cfg, steps, a);
    GoodIsListed(cfg, steps + [Answer(true)], b);
  }

  /** A commit takes out one element; another one of the same transaction stays listed. */
  lemma LeftBehind(cfg: Config, p: Pool, a: Key, good: bool)
    requires a in p.index && |p.list| > 1 && p.list[0] == Elem(0, a) && p.index[a] != 0
    ensures Listed(CommitOne(cfg, p, a, good).list, a)
  {
    var list := CommitOne(cfg, p, a, good).list;
    assert list == Unlisted(p.list, p.index[a]);
    assert list[0] == p.list[0];
  }

  function Calls(a: Key, b: Key): seq<Step> {
    [CheckTx(a, false)] + [CheckTx(b, false)] + [CheckTx(a, false)]
  }

  /** Calls for a, b and a again, and then three good answers. */
  function CalledAround(a: Key, b: Key): seq<Step> {
    Calls(a, b) + [Answer(true)] + [Answer(true)] + [Answer(true)]
  }

  lemma ThreeCalls(cfg: Config, a: Key, b: Key)
    requires cfg.cacheSize == 1 && a != b && cfg.size >= 3
    requires |a| <= cfg.maxTxBytes && |b| <= cfg.maxTxBytes && 2 * |a| + |b| <= cfg.maxTxsBytes
    ensures var s := Play(cfg, Calls(a, b));
            s.queue == [First(a), First(b), First(a)] && s.pool == NEW.(cache := s.pool.cache)
  {
    assert [] + [CheckTx(a, false)] == [CheckTx(a, false)];
    CallIsQueued(cfg, [], a);
    CallIsQueued(cfg, [CheckTx(a, false)], b);
    CallIsQueued(cfg, [CheckTx(a, false)] + [CheckTx(b, false)], a);
  }

  /** With a cache of one entry, a call for another transaction in between is enough. */
  lemma TwiceWithSmallCache(cfg: Config, a: Key, b: Key, good: bool)
    requires cfg.cacheSize == 1 && a != b && cfg.size >= 3
    requires |a| <= cfg.maxTxBytes && |b| <= cfg.maxTxBytes && 2 * |a| + |b| <= cfg.maxTxsBytes
    ensures var p := Play(cfg, CalledAround(a, b)).pool;
            && OrderlyRun(cfg, CalledAround(a, b)) && p.list == [Elem(0, a), Elem(1, b), Elem(2, a)]
            && Listed(CommitOne(cfg, p, a, good).list, a)
  {
    CallsAreOrderly(cfg, CalledAround(a, b));
    ThreeCalls(cfg, a, b);
    ThreeGoodAnswers(cfg, Calls(a, b), a, b);
    LeftBehind(cfg, Play(cfg, CalledAround(a, b)).pool, a, good);
  }

  lemma ThreeGoodAnswers(cfg: Config, steps: seq<Step>, a: Key, b: Key)
    requires a != b && cfg.size >= 3 && 2 * |a| + |b| <= cfg.maxTxsBytes
    requires var s := Play(cfg, steps);
             s.queue == [First(a), First(b), First(a)] && s.pool == NEW.(cache := s.pool.cache)
    ensures var p := Play(cfg, steps + [Answer(true)] + [Answer(true)] + [Answer(true)]).pool;
            p.list == [Elem(0, a), Elem(1, b), Elem(2, a)] && a in p.index && p.index[a] == 2
  {
    var two := steps + [Answer(true)] + [Answer(true)];
    assert [First(a), First(b), First(a)] == [First(a)] + ([First(b)] + [First(a)]);
    TwoGoodAnswers(cfg, steps, a, b, [First(a)]);
    GoodIsListed(cfg, two, a);
    assert [Elem(0, a), Elem(1, b)] + [Elem(2, a)] == [Elem(0, a), Elem(1, b), Elem(2, a)];
  }

  // ---------- an update before the answers are in ----------

  function Overlapping(a: Key, b: Key): seq<Step> {
    [CheckTx(a, false)] + [Answer(true)] + [CheckTx(b, false)]
  }

  /** a is listed and b awaited. */
  lemma OverlappingPlays(cfg: Config, a: Key, b: Key)
    requires cfg.size >= 2 && |a| <= cfg.maxTxBytes && |b| <= cfg.maxTxBytes && |a| + |b| <= cfg.maxTxsBytes && a != b
    ensures OrderlyRun(cfg, Overlapping(a, b))
    ensures var s := Play(cfg, Overlapping(a, b));
            s.queue == [First(b)] && s.pool.list == [Elem(0, a)] && s.pool.cursor == None
  {
    CallsAreOrderly(cfg, Overlapping(a, b));
    assert [] + [CheckTx(a, false)] == [CheckTx(a, false)];
    CallIsQueued(cfg, [], a);
    GoodIsListed(cfg, [CheckTx(a, false)], a);
    CachedIsA(cfg, a);
    CallIsQueued(cfg, [CheckTx(a, false)] + [Answer(true)], b);
  }

  lemma CachedIsA(cfg: Config, a: Key)
    requires cfg.size >= 2 && |a| <= cfg.maxTxBytes && |a| <= cfg.maxTxsBytes
    ensures forall k :: k in CachePushed(cfg, [], a) ==> k == a
  {
  }

  /** After this orderly run an update without transactions starts a recheck, and the awaited answer panics. */
  lemma {:induction false} EarlyUpdatePanics(cfg: Config, a: Key, b: Key, good: bool)
    requires cfg.size >= 2 && |a| <= cfg.maxTxBytes && |b| <= cfg.maxTxBytes && |a| + |b| <= cfg.maxTxsBytes && a != b
    requires cfg.recheck
    ensures OrderlyRun(cfg, Overlapping(a, b))
    ensures Play(cfg, Overlapping(a, b) + [Update([], [])] + [Answer(good)]).panicked
  {
    var steps := Overlapping(a, b);
    OverlappingPlays(cfg, a, b);
    EveryRunInv(cfg, steps);
    PlaySnoc(cfg, steps, Update([], []));
    PlaySnoc(cfg, steps + [Update([], [])], Answer(good));
    var s := Play(cfg, steps);
    assert Take(cfg, s, Update([], [])).pool.list == s.pool.list;
    EarlyUpdatePanicsIff(cfg, s, [], [], good);
  }

  // ---------- listed once: which calls break it ----------

  /** No key is listed twice, and every listed key is indexed. */
  predicate OnceListed(list: seq<Elem>, index: map<Key, nat>) {
    && (forall i, j :: 0 <= i < j < |list| ==> list[i].tx != list[j].tx)
    && (forall i :: 0 <= i < |list| ==> list[i].tx in index)
  }

  /** No transaction is awaited twice, and none that is listed is awaited. */
  predicate OnceAwaited(list: seq<Elem>, queue: seq<Request>) {
    && (forall i, j :: 0 <= i < j < |queue| && queue[i].First? && queue[j].First? ==> queue[i].tx != queue[j].tx)
    && (forall j :: 0 <= j < |queue| && queue[j].First? ==> !Listed(list, queue[j].tx))
  }

  predicate OnceOnly(s: System) {
    OnceListed(s.pool.list, s.pool.index) && OnceAwaited(s.pool.list, s.queue)
  }

  /** Then every commit clears its transaction from the list. */
  lemma OnceOnlyClears(cfg: Config, s: System, tx: Key, good: bool)
    requires Books(cfg, s.pool) && OnceOnly(s)
    ensures !Listed(CommitOne(cfg, s.pool, tx, good).list, tx)
  {
    forall i | 0 <= i < |s.pool.list| && s.pool.list[i].tx == tx
      ensures tx in s.pool.index && s.pool.index[tx] == s.pool.list[i].id
    {
      assert Elem(s.pool.index[tx], tx) in s.pool.list;
    }
    CommitClearsIff(cfg, s.pool, tx, good);
  }

  lemma RestOnceListed(list: seq<Elem>, index: map<Key, nat>, c: nat)
    requires OnceListed(list, index) && c < |list|
    ensures OnceListed(list[..c] + list[c + 1..], index - {list[c].tx})
    ensures forall tx :: Listed(list[..c] + list[c + 1..], tx) ==> Listed(list, tx)
  {
    var rest := list[..c] + list[c + 1..];
    assert forall i :: 0 <= i < |rest| ==> rest[i] == list[if i < c then i else i + 1];
  }

  lemma RemovalKeepsOnce(p: Pool, tx: Key, fromCache: bool)
    requires InOrder(p.list, p.nextId) && IndexLive(p.list, p.index) && OnceListed(p.list, p.index) && tx in p.index
    ensures var q := WithoutElem(p, tx, p.index[tx], fromCache);
            && OnceListed(q.list, q.index) && forall k :: Listed(q.list, k) ==> Listed(p.list, k)
  {
    var c: nat :| c < |p.list| && p.list[c] == Elem(p.index[tx], tx);
    RemovedList(p, c, fromCache);
    RestOnceListed(p.list, p.index, c);
  }

  lemma {:induction false} CommitAllKeepsOnce(cfg: Config, p: Pool, txs: seq<Key>, goods: seq<bool>)
    requires Books(cfg, p) && OnceListed(p.list, p.index) && |txs| == |goods|
    ensures var q := CommitAll(cfg, p, txs, goods); OnceListed(q.list, q.index)
  {
    if txs == [] {
    } else {
      var n := |txs| - 1;
      CommitAllKeepsOnce(cfg, p, txs[..n], goods[..n]);
      CommitAllKeepsBooks(cfg, p, txs[..n], goods[..n]);
      var q := CommitAll(cfg, p, txs[..n], goods[..n]);
      if txs[n] in q.index {
        CommitOneKeepsOnce(cfg, q, txs[n], goods[n]);
      }
    }
  }

  lemma CommitOneKeepsOnce(cfg: Config, p: Pool, tx: Key, good: bool)
    requires Books(cfg, p) && OnceListed(p.list, p.index) && tx in p.index
    ensures var q := CommitOne(cfg, p, tx, good); OnceListed(q.list, q.index)
  {
    RemovalKeepsOnce(p.(cache := CommitOne(cfg, p, tx, good).cache), tx, false);
  }

  lemma UpdateKeepsOnce(cfg: Config, s: System, txs: seq<Key>, goods: seq<bool>)
    requires Inv(cfg, s) && OnceOnly(s) && s.queue == [] && |txs| == |goods|
    ensures OnceOnly(Take(cfg, s, Update(txs, goods)))
  {
    var q := CommitAll(cfg, s.pool.(notified := false), txs, goods);
    CommitAllKeepsOnce(cfg, s.pool.(notified := false), txs, goods);
    RechecksAwaitNothing(q.list);
    assert s.queue + Rechecks(q.list) == Rechecks(q.list);
  }

  lemma RechecksAwaitNothing(list: seq<Elem>)
    ensures OnceAwaited(list, Rechecks(list))
  {
  }

  lemma AwaitedRest(list: seq<Elem>, list': seq<Elem>, queue: seq<Request>)
    requires OnceAwaited(list, queue) && queue != []
    requires forall k :: Listed(list', k) ==> Listed(list, k) || queue[0] == First(k)
    ensures OnceAwaited(list', queue[1..])
  {
    var rest := queue[1..];
    assert forall i :: 0 <= i < |rest| ==> rest[i] == queue[i + 1];
  }

  lemma AddedOnceListed(list: seq<Elem>, index: map<Key, nat>, e: Elem)
    requires OnceListed(list, index) && !Listed(list, e.tx)
    ensures OnceListed(list + [e], index[e.tx := e.id])
  {
  }

  lemma FirstAnswerLists(cfg: Config, s: System, good: bool)
    requires Idle(s) && s.queue != []
    ensures var s', e := Take(cfg, s, Answer(good)), Elem(s.pool.nextId, s.queue[0].tx);
            && s'.queue == s.queue[1..]
            && ((s'.pool.list == s.pool.list && s'.pool.index == s.pool.index) ||
                (s'.pool.list == s.pool.list + [e] && s'.pool.index == s.pool.index[e.tx := e.id]))
  {
  }

  /** A first answer moves the awaited transaction to the list or drops it. */
  lemma FirstAnswerKeepsOnce(cfg: Config, s: System, good: bool)
    requires Inv(cfg, s) && Idle(s) && OnceOnly(s) && s.queue != []
    ensures OnceOnly(Take(cfg, s, Answer(good)))
  {
    var tx, s', list := s.queue[0].tx, Take(cfg, s, Answer(good)), s.pool.list;
    var e := Elem(s.pool.nextId, tx);
    FirstAnswerLists(cfg, s, good);
    AddedOnceListed(list, s.pool.index, e);
    forall k ensures Listed(list + [e], k) <==> Listed(list, k) || k == tx {
      ListedSnoc(list, e, k);
    }
    AwaitedRest(list, s'.pool.list, s.queue);
  }

  lemma ListedSnoc(list: seq<Elem>, e: Elem, k: Key)
    ensures Listed(list + [e], k) <==> Listed(list, k) || k == e.tx
  {
    assert (list + [e])[|list|] == e;
    assert forall i :: 0 <= i < |list| ==> (list + [e])[i] == list[i];
  }

  lemma JudgedKeepsOnce(cfg: Config, p: Pool, c: nat, good: bool)
    requires Books(cfg, p) && c < |p.list| && OnceListed(p.list, p.index)
    ensures var q := JudgedPool(cfg, p, c, good);
            && OnceListed(q.list, q.index) && forall k :: Listed(q.list, k) ==> Listed(p.list, k)
  {
    JudgedKeepsBooks(cfg, p, c, good);
    RestOnceListed(p.list, p.index, c);
  }

  lemma RecheckKeepsOnce(cfg: Config, s: System, c: nat, good: bool)
    requires Books(cfg, s.pool) && !s.panicked && CursorAt(s, c) && OnceOnly(s)
    ensures OnceOnly(Take(cfg, s, Answer(good)))
  {
    var q := JudgedPool(cfg, s.pool, c, good);
    QueueMovesOn(s.pool.list, s.queue, c, good);
    AnswerIsRecheck(cfg, s, c, good);
    JudgedKeepsOnce(cfg, s.pool, c, good);
    AwaitedRest(s.pool.list, q.list, s.queue);
  }

  /**
   The call meets none of the errors, so it is let through, and the transaction
   is listed or awaited already.
   */
  predicate LetInAgain(cfg: Config, s: System, tx: Key, refused: bool) {
    && !IsFull(cfg, s.pool, |tx|) && |tx| <= cfg.maxTxBytes && !refused
    && (cfg.cacheSize == 0 || tx !in s.pool.cache)
    && (Listed(s.pool.list, tx) || First(tx) in s.queue)
  }

  lemma CallKeepsOnceIff(cfg: Config, s: System, tx: Key, refused: bool)
    requires OnceOnly(s)
    ensures OnceOnly(Take(cfg, s, CheckTx(tx, refused))) <==> !LetInAgain(cfg, s, tx, refused)
  {
    var s', n := Take(cfg, s, CheckTx(tx, refused)), |s.queue|;
    if CheckVerdict(cfg, s.pool, tx, refused) == Accepted {
      assert s'.queue == s.queue + [First(tx)] && s'.queue[n] == First(tx);
      assert forall i :: 0 <= i < n ==> s'.queue[i] == s.queue[i];
      if First(tx) in s.queue {
        var i :| 0 <= i < n && s.queue[i] == First(tx);
        assert s'.queue[i] == s'.queue[n];
      }
    }
  }

  /**
   As long as nothing is listed or awaited twice, the one thing that changes
   this is a call let through for a transaction that is listed or awaited: the
   cache has forgotten it, or there is none.
   */
  lemma StepKeepsOnceIff(cfg: Config, s: System, st: Step)
    requires Inv(cfg, s) && Orderly(s, st) && OnceOnly(s)
    ensures OnceOnly(Take(cfg, s, st)) <==> !(st.CheckTx? && LetInAgain(cfg, s, st.tx, st.refused))
  {
    match st
    case CheckTx(tx, refused) => CallKeepsOnceIff(cfg, s, tx, refused);
    case Answer(good) =>
      if s.queue != [] {
        if Idle(s) {
          FirstAnswerKeepsOnce(cfg, s, good);
        } else {
          var c: nat :| CursorAt(s, c);
          RecheckKeepsOnce(cfg, s, c, good);
        }
      }
    case Update(txs, goods) =>
      if |txs| == |goods| {
        UpdateKeepsOnce(cfg, s, txs, goods);
      }
    case Flush =>
    case RemoveTxByKey(key, fromCache) =>
      if key in s.pool.index {
        RemovalKeepsOnce(s.pool, key, fromCache);
      }
  }

  /** No call of the run was let through for a transaction listed or awaited at that time. */
  predicate NeverLetInAgain(cfg: Config, steps: seq<Step>) {
    forall i :: 0 <= i < |steps| && steps[i].CheckTx? ==>
      !LetInAgain(cfg, Play(cfg, steps[..i]), steps[i].tx, steps[i].refused)
  }

  lemma {:induction false} LetInPrefix(cfg: Config, steps: seq<Step>)
    requires NeverLetInAgain(cfg, steps) && steps != []
    ensures NeverLetInAgain(cfg, steps[..|steps| - 1])
    ensures var n := |steps| - 1;
            steps[n].CheckTx? ==> !LetInAgain(cfg, Play(cfg, steps[..n]), steps[n].tx, steps[n].refused)
  {
    var before := steps[..|steps| - 1];
    forall i | 0 <= i < |before| && before[i].CheckTx?
      ensures !LetInAgain(cfg, Play(cfg, before[..i]), before[i].tx, before[i].refused)
    {
      assert before[..i] == steps[..i] && before[i] == steps[i];
    }
  }

  /** In such an orderly run every commit clears its transaction. */
  lemma {:induction false} EveryRunOnceOnly(cfg: Config, steps: seq<Step>)
    requires OrderlyRun(cfg, steps) && NeverLetInAgain(cfg, steps)
    ensures OnceOnly(Play(cfg, steps))
    ensures forall tx, good :: !Listed(CommitOne(cfg, Play(cfg, steps).pool, tx, good).list, tx)
  {
    if steps == [] {
    } else {
      var n := |steps| - 1;
      OrderlyPrefix(cfg, steps);
      LetInPrefix(cfg, steps);
      EveryRunOnceOnly(cfg, steps[..n]);
      EveryRunInv(cfg, steps[..n]);
      StepKeepsOnceIff(cfg, Play(cfg, steps[..n]), steps[n]);
    }
    EveryRunInv(cfg, steps);
    forall tx, good ensures !Listed(CommitOne(cfg, Play(cfg, steps).pool, tx, good).list, tx) {
      OnceOnlyClears(cfg, Play(cfg, steps), tx, good);
    }
  }

  // ---------- a whole recheck ----------

  /** The elements whose verdict is good, in order. */
  function Keep(list: seq<Elem>, goods: seq<bool>): seq<Elem>
    requires |list| == |goods|
  {
    if list == [] then []
    else
      var n := |list| - 1;
      if goods[n] then Keep(list[..n], goods[..n]) + [list[n]] else Keep(list[..n], goods[..n])
  }

  /** The verdicts among the steps, in order. */
  function Verdicts(steps: seq<Step>): seq<bool> {
    if steps == [] then []
    else
      var n := |steps| - 1;
      if steps[n].Answer? then Verdicts(steps[..n]) + [steps[n].good] else Verdicts(steps[..n])
  }

  function TakeAll(cfg: Config, s: System, steps: seq<Step>): System {
    if steps == [] then s else Take(cfg, TakeAll(cfg, s, steps[..|steps| - 1]), steps[|steps| - 1])
  }

  /** A recheck of `all` with some verdicts in: those judged are filtered, the rest waits. */
  ghost predicate Rechecked(cfg: Config, s: System, all: seq<Elem>, goods: seq<bool>) {
    && Inv(cfg, s) && |goods| <= |all|
    && s.pool.list == Keep(all[..|goods|], goods) + all[|goods|..]
    && (if |goods| == |all| then Idle(s) else CursorAt(s, |Keep(all[..|goods|], goods)|))
  }

  lemma RecheckGoesOn(cfg: Config, s: System, all: seq<Elem>, goods: seq<bool>, good: bool)
    requires Rechecked(cfg, s, all, goods) && |goods| < |all|
    ensures Rechecked(cfg, Take(cfg, s, Answer(good)), all, goods + [good])
  {
    var kept := Keep(all[..|goods|], goods);
    KeepOneMore(all, goods, good);
    RecheckAnswer(cfg, s, |kept|, good);
    RecheckedHolds(cfg, Take(cfg, s, Answer(good)), all, goods + [good]);
  }

  lemma RecheckedHolds(cfg: Config, s: System, all: seq<Elem>, goods: seq<bool>)
    requires Books(cfg, s.pool) && !s.panicked && |goods| <= |all|
    requires s.pool.list == Keep(all[..|goods|], goods) + all[|goods|..]
    requires if |goods| == |all| then Idle(s) else CursorAt(s, |Keep(all[..|goods|], goods)|)
    ensures Rechecked(cfg, s, all, goods)
  {
  }

  lemma KeepOneMore(all: seq<Elem>, goods: seq<bool>, good: bool)
    requires |goods| < |all|
    ensures var n := |goods|;
            var kept := Keep(all[..n], goods);
            var kept' := Keep(all[..n + 1], goods + [good]);
            && |kept'| == (if good then |kept| + 1 else |kept|)
            && Judged(kept + all[n..], |kept|, good) == kept' + all[n + 1..]
  {
    var n := |goods|;
    var kept := Keep(all[..n], goods);
    assert all[..n + 1][..n] == all[..n] && (goods + [good])[..n] == goods;
    assert (kept + all[n..])[..|kept|] == kept && (kept + all[n..])[|kept| + 1..] == all[n + 1..];
    assert kept + all[n..] == (kept + [all[n]]) + all[n + 1..];
  }

  /**
   A whole recheck, with new transactions coming in meanwhile: after one answer
   for each listed transaction the cursor is gone and the list is the
   order-preserving filter of those still good. With fewer answers, the judged
   part is filtered and the cursor stands on the next one.
   */
  lemma {:induction false} RecheckFilters(cfg: Config, s: System, steps: seq<Step>)
    requires Inv(cfg, s) && CursorAt(s, 0)
    requires forall i :: 0 <= i < |steps| ==> steps[i].Answer? || steps[i].CheckTx?
    requires |Verdicts(steps)| <= |s.pool.list|
    ensures Rechecked(cfg, TakeAll(cfg, s, steps), s.pool.list, Verdicts(steps))
  {
    if steps == [] {
      NothingJudged(cfg, s);
    } else {
      var n := |steps| - 1;
      RecheckFilters(cfg, s, steps[..n]);
      RecheckTakes(cfg, TakeAll(cfg, s, steps[..n]), s.pool.list, Verdicts(steps[..n]), steps[n]);
    }
  }

  lemma RecheckTakes(cfg: Config, s: System, all: seq<Elem>, goods: seq<bool>, st: Step)
    requires Rechecked(cfg, s, all, goods) && (st.Answer? || st.CheckTx?)
    requires st.Answer? ==> |goods| < |all|
    ensures Rechecked(cfg, Take(cfg, s, st), all, if st.Answer? then goods + [st.good] else goods)
  {
    match st
    case Answer(good) => RecheckGoesOn(cfg, s, all, goods, good);
    case CheckTx(tx, refused) => CheckKeepsRechecked(cfg, s, all, goods, tx, refused);
  }

  lemma NothingJudged(cfg: Config, s: System)
    requires Inv(cfg, s) && CursorAt(s, 0)
    ensures Rechecked(cfg, s, s.pool.list, [])
  {
  }

  lemma CheckKeepsRechecked(cfg: Config, s: System, all: seq<Elem>, goods: seq<bool>, tx: Key, refused: bool)
    requires Rechecked(cfg, s, all, goods)
    ensures Rechecked(cfg, Take(cfg, s, CheckTx(tx, refused)), all, goods)
  {
    CheckKeepsInv(cfg, s, tx, refused);
  }
}
