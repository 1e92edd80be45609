/** The bounded cache of transaction keys, least recently pushed first. */
module TxCache {

  /** A transaction's key. TxKey is taken to be injective, so the bytes stand for it. */
  type Key = string

  predicate NoRepeats(s: seq<Key>) {
    forall i, j :: 0 <= i < j < |s| ==> s[i] != s[j]
  }

  function Dropped(s: seq<Key>, k: Key): seq<Key> {
    if s == [] then []
    else
      var n := |s| - 1;
      if s[n] == k then Dropped(s[..n], k) else Dropped(s[..n], k) + [s[n]]
  }

  function Pushed(order: seq<Key>, size: nat, k: Key): seq<Key> {
    if k in order then Dropped(order, k) + [k]
    else if |order| >= size && order != [] then order[1..] + [k]
    else order + [k]
  }

  lemma {:induction false} DroppedHas(s: seq<Key>, k: Key, x: Key)
    ensures x in Dropped(s, k) <==> x in s && x != k
  {
    if s == [] {
    } else {
      DroppedHas(s[..|s| - 1], k, x);
      assert s == s[..|s| - 1] + [s[|s| - 1]];
    }
  }

  lemma {:induction false} DroppedSize(s: seq<Key>, k: Key)
    ensures |Dropped(s, k)| <= |s|
    ensures k !in s ==> Dropped(s, k) == s
    ensures k in s ==> |Dropped(s, k)| < |s|
  {
    if s == [] {
    } else {
      DroppedSize(s[..|s| - 1], k);
      assert s == s[..|s| - 1] + [s[|s| - 1]];
    }
  }

  lemma {:induction false} DroppedNoRepeats(s: seq<Key>, k: Key)
    requires NoRepeats(s)
    ensures NoRepeats(Dropped(s, k))
  {
    if s == [] {
    } else {
      var n := |s| - 1;
      DroppedNoRepeats(s[..n], k);
      DroppedHas(s[..n], k, s[n]);
      assert s[n] !in s[..n];
    }
  }

  /** Dropping takes out exactly the key and keeps the list free of repeats. */
  lemma {:induction false} DroppedMembers(s: seq<Key>, k: Key)
    ensures forall x :: x in Dropped(s, k) <==> x in s && x != k
    ensures |Dropped(s, k)| <= |s|
    ensures k !in s ==> Dropped(s, k) == s
    ensures k in s ==> |Dropped(s, k)| < |s|
    ensures NoRepeats(s) ==> NoRepeats(Dropped(s, k))
  {
    forall x ensures x in Dropped(s, k) <==> x in s && x != k {
      DroppedHas(s, k, x);
    }
    DroppedSize(s, k);
    if NoRepeats(s) {
      DroppedNoRepeats(s, k);
    }
  }

  lemma {:induction false} DroppedConcat(a: seq<Key>, b: seq<Key>, k: Key)
    ensures Dropped(a + b, k) == Dropped(a, k) + Dropped(b, k)
  {
    if b == [] {
      assert a + b == a;
    } else {
      var n := |b| - 1;
      assert (a + b)[..|a + b| - 1] == a + b[..n];
      DroppedConcat(a, b[..n], k);
    }
  }

  lemma {:induction false} DroppedOne(s: seq<Key>, k: Key)
    requires NoRepeats(s) && k in s
    ensures |Dropped(s, k)| == |s| - 1
  {
    var n := |s| - 1;
    assert s == s[..n] + [s[n]];
    if s[n] == k {
      DroppedMembers(s[..n], k);
    } else {
      DroppedOne(s[..n], k);
    }
  }

  /** A push keeps the list free of repeats and within its size. */
  lemma PushedFits(order: seq<Key>, size: nat, k: Key)
    requires NoRepeats(order) && |order| <= size
    ensures NoRepeats(Pushed(order, size, k))
    ensures size >= 1 ==> |Pushed(order, size, k)| <= size
  {
    DroppedMembers(order, k);
    if k in order {
      DroppedOne(order, k);
    }
  }

  /** Map and list agree, no key is listed twice, and the list fits. */
  ghost predicate Agree(order: seq<Key>, keys: set<Key>, size: nat) {
    NoRepeats(order) && |order| <= size && forall k :: k in keys <==> k in order
  }

  class MapTxCache {
    const size: nat
    var cacheMap: set<Key>
    var order: seq<Key>

    ghost predicate Valid()
      reads this
    {
      size >= 1 && Agree(order, cacheMap, size)
    }

    constructor (size: nat)
      requires size >= 1
      ensures Valid() && order == [] && this.size == size
    {
      this.size, cacheMap, order := size, {}, [];
    }

    method Reset()
      requires Valid()
      modifies this
      ensures Valid() && order == []
    {
      cacheMap, order := {}, [];
    }

    method Push(k: Key) returns (isNew: bool)
      requires Valid()
      modifies this
      ensures Valid()
      ensures order == Pushed(old(order), size, k)
      ensures isNew == (k !in old(order))
    {
      DroppedMembers(order, k);
      if k in cacheMap {
        order := Dropped(order, k) + [k];
        return false;
      }
      if |order| >= size {
        cacheMap := cacheMap - {order[0]};
        order := order[1..];
      }
      order := order + [k];
      cacheMap := cacheMap + {k};
      return true;
    }

    method Remove(k: Key)
      requires Valid()
      modifies this
      ensures Valid()
      ensures order == Dropped(old(order), k)
    {
      DroppedMembers(order, k);
      cacheMap := cacheMap - {k};
      order := Dropped(order, k);
    }
  }

  // ---------- what the cache remembers ----------

  /** The cache after pushes only. */
  function PushAll(size: nat, ws: seq<Key>): seq<Key> {
    if ws == [] then [] else Pushed(PushAll(size, ws[..|ws| - 1]), size, ws[|ws| - 1])
  }

  /** All keys ever pushed, by their last push. */
  function ByRecency(ws: seq<Key>): seq<Key> {
    if ws == [] then []
    else
      var n := |ws| - 1;
      Dropped(ByRecency(ws[..n]), ws[n]) + [ws[n]]
  }

  function LastOf(s: seq<Key>, n: nat): seq<Key> {
    if |s| <= n then s else s[|s| - n..]
  }

  lemma {:induction false} RecencyMembers(ws: seq<Key>)
    ensures NoRepeats(ByRecency(ws))
    ensures forall k :: k in ByRecency(ws) <==> k in ws
  {
    if ws == [] {
    } else {
      var n := |ws| - 1;
      RecencyMembers(ws[..n]);
      DroppedMembers(ByRecency(ws[..n]), ws[n]);
      assert ws == ws[..n] + [ws[n]];
    }
  }

  /** One push on the last `size` keys by recency gives the last `size` keys by recency. */
  lemma PushIsRecency(r: seq<Key>, size: nat, k: Key)
    requires NoRepeats(r) && size >= 1
    ensures Pushed(LastOf(r, size), size, k) == LastOf(Dropped(r, k) + [k], size)
  {
    var cut := if |r| <= size then 0 else |r| - size;
    var front, back := r[..cut], r[cut..];
    assert r == front + back && LastOf(r, size) == back;
    DroppedConcat(front, back, k);
    if k in back {
      MoveToBack(front, back, size, k);
    } else {
      PushNew(front, back, size, k);
    }
  }

  lemma MoveToBack(front: seq<Key>, back: seq<Key>, size: nat, k: Key)
    requires NoRepeats(front + back) && k in back && (front == [] || |back| == size) && |back| <= size
    ensures Dropped(back, k) + [k] == LastOf(Dropped(front, k) + Dropped(back, k) + [k], size)
  {
    assert forall i :: 0 <= i < |front| ==> (front + back)[i] == front[i];
    assert forall i :: 0 <= i < |back| ==> (front + back)[|front| + i] == back[i];
    DroppedOne(back, k);
    DroppedMembers(front, k);
    assert k !in front;
    var b := Dropped(back, k) + [k];
    assert front + Dropped(back, k) + [k] == front + b;
    if front != [] {
      LastOfConcat(front, b, size);
    } else {
      assert front + b == b;
    }
  }

  lemma PushNew(front: seq<Key>, back: seq<Key>, size: nat, k: Key)
    requires k !in back && (front == [] || |back| == size) && |back| <= size && size >= 1
    ensures Pushed(back, size, k) == LastOf(Dropped(front, k) + Dropped(back, k) + [k], size)
  {
    DroppedMembers(back, k);
    assert Dropped(back, k) == back;
    if |back| == size {
      ShiftOne(Dropped(front, k), back, k);
      LastOfConcat(Dropped(front, k) + back[..1], back[1..] + [k], size);
    } else {
      assert Dropped(front, k) == [];
      assert [] + back + [k] == back + [k];
    }
  }

  lemma ShiftOne(a: seq<Key>, b: seq<Key>, k: Key)
    requires b != []
    ensures a + b + [k] == (a + b[..1]) + (b[1..] + [k])
  {
    assert b == b[..1] + b[1..];
  }

  lemma LastOfConcat(a: seq<Key>, b: seq<Key>, n: nat)
    requires |b| == n
    ensures LastOf(a + b, n) == b
  {
  }

  lemma {:induction false} CacheIsRecency(size: nat, ws: seq<Key>)
    requires size >= 1
    ensures PushAll(size, ws) == LastOf(ByRecency(ws), size)
  {
    if ws == [] {
    } else {
      var n := |ws| - 1;
      CacheIsRecency(size, ws[..n]);
      RecencyMembers(ws[..n]);
      PushIsRecency(ByRecency(ws[..n]), size, ws[n]);
    }
  }

  /** The distinct other keys pushed after the last push of k. */
  function PushedSince(ws: seq<Key>, k: Key): set<Key> {
    if ws == [] || ws[|ws| - 1] == k then {}
    else PushedSince(ws[..|ws| - 1], k) + {ws[|ws| - 1]}
  }

  function Elements(s: seq<Key>): set<Key> {
    set i | 0 <= i < |s| :: s[i]
  }

  lemma {:induction false} ElementsCount(s: seq<Key>)
    requires NoRepeats(s)
    ensures |Elements(s)| == |s|
  {
    if s == [] {
    } else {
      var n := |s| - 1;
      ElementsCount(s[..n]);
      assert Elements(s) == Elements(s[..n]) + {s[n]};
    }
  }

  lemma DroppedAround(ahead: seq<Key>, k: Key, behind: seq<Key>, w: Key)
    requires w != k
    ensures Dropped(ahead + [k] + behind, w) + [w] == Dropped(ahead, w) + [k] + (Dropped(behind, w) + [w])
  {
    DroppedConcat(ahead + [k], behind, w);
    assert (ahead + [k])[..|ahead|] == ahead;
    assert Dropped(ahead + [k], w) == Dropped(ahead, w) + [k];
  }

  /** In recency order, exactly the keys pushed since stand behind k. */
  lemma {:induction false} BehindInRecency(ws: seq<Key>, k: Key) returns (ahead: seq<Key>, behind: seq<Key>)
    requires k in ws
    ensures ByRecency(ws) == ahead + [k] + behind
    ensures Elements(behind) == PushedSince(ws, k)
  {
    var n := |ws| - 1;
    var w := ws[n];
    if w == k {
      ahead, behind := Dropped(ByRecency(ws[..n]), w), [];
    } else {
      assert ws == ws[..n] + [w];
      var x, y := BehindInRecency(ws[..n], k);
      DroppedAround(x, k, y, w);
      ElementsDropped(y, w);
      ahead, behind := Dropped(x, w), Dropped(y, w) + [w];
    }
  }

  lemma ElementsDropped(s: seq<Key>, w: Key)
    ensures Elements(Dropped(s, w) + [w]) == Elements(s) + {w}
  {
    DroppedMembers(s, w);
    var t := Dropped(s, w) + [w];
    assert t[|t| - 1] == w;
    forall x | x in s && x != w ensures x in t { assert x in Dropped(s, w); }
    forall x ensures x in Elements(t) <==> x in t {}
    forall x ensures x in Elements(s) <==> x in s {}
  }

  /**
   With pushes only, a key is cached exactly when it was pushed and fewer than
   `size` distinct other keys were pushed after its last push.
   */
  lemma CachedIff(size: nat, ws: seq<Key>, k: Key)
    requires size >= 1
    ensures k in PushAll(size, ws) <==> k in ws && |PushedSince(ws, k)| < size
  {
    CacheIsRecency(size, ws);
    RecencyMembers(ws);
    if k in ws {
      var ahead, behind := BehindInRecency(ws, k);
      KeptIffFewBehind(ahead, k, behind, size);
    }
  }

  lemma KeptIffFewBehind(ahead: seq<Key>, k: Key, behind: seq<Key>, size: nat)
    requires NoRepeats(ahead + [k] + behind)
    ensures k in LastOf(ahead + [k] + behind, size) <==> |Elements(behind)| < size
  {
    var r := ahead + [k] + behind;
    assert forall i :: 0 <= i < |behind| ==> r[|ahead| + 1 + i] == behind[i];
    ElementsCount(behind);
    assert r[|ahead|] == k;
    var kept := LastOf(r, size);
    var cut := |r| - |kept|;
    assert forall i :: 0 <= i < |kept| ==> kept[i] == r[cut + i];
    if |behind| < size {
      assert kept[|ahead| - cut] == k;
    }
  }
}
