/** The allocator of short peer IDs: a uint16 counter that wraps around and skips IDs in use. */
module PeerIds {
  import opened FiniteSets

  type PeerKey = string

  /** Number of uint16 values. */
  const ID_COUNT := 0x1_0000

  /** Reserving fails at this many active IDs, one below the number of values. */
  const MAX_ACTIVE := 0xFFFF

  function NextId(id: nat): nat {
    if id + 1 == ID_COUNT then 0 else id + 1
  }

  /** The ID d steps after start, wrapping around once. */
  function StepsOn(start: nat, d: nat): nat {
    if start + d < ID_COUNT then start + d else start + d - ID_COUNT
  }

  /** The d IDs from start on are all in use. */
  ghost predicate AllActive(active: set<nat>, start: nat, d: nat) {
    forall c: nat :: c < d ==> StepsOn(start, c) in active
  }

  ghost predicate Consistent(peerMap: map<PeerKey, nat>, active: set<nat>, next: nat) {
    && next < ID_COUNT
    && 0 in active && |active| <= MAX_ACTIVE
    && (forall id :: id in active ==> id < ID_COUNT)
    && (forall p :: p in peerMap ==> peerMap[p] in active && peerMap[p] != 0)
    && (forall p, q :: p in peerMap && q in peerMap && peerMap[p] == peerMap[q] ==> p == q)
  }

  lemma SomeIdFree(active: set<nat>, n: nat)
    requires |active| < n
    ensures exists id: nat :: id < n && id !in active
  {
    var free := Below(n) - active;
    assert |Below(n) * active| <= |active| by {
      assert active == Below(n) * active + (active - Below(n));
    }
    assert |free| + |Below(n) * active| == n by {
      assert Below(n) == free + Below(n) * active;
    }
    var id :| id in free;
  }

  /** Every active ID is the unknown peer's or some peer's. */
  ghost predicate NoLeak(peerMap: map<PeerKey, nat>, active: set<nat>) {
    forall id :: id in active ==> id == 0 || exists p :: p in peerMap && peerMap[p] == id
  }

  /** Reserving leaks an ID exactly when the peer already had one. */
  lemma ReserveLeaksIff(peerMap: map<PeerKey, nat>, active: set<nat>, next: nat, p: PeerKey, id: nat)
    requires Consistent(peerMap, active, next) && NoLeak(peerMap, active) && id !in active
    ensures NoLeak(peerMap[p := id], active + {id}) <==> p !in peerMap
  {
    var after := peerMap[p := id];
    assert after[p] == id;
    if p in peerMap {
      assert peerMap[p] in active + {id};
    } else {
      forall i | i in active && i != 0 ensures exists q :: q in after && after[q] == i {
        var q :| q in peerMap && peerMap[q] == i;
        assert after[q] == i;
      }
    }
  }

  class MempoolIDs {
    var peerMap: map<PeerKey, nat>
    var nextID: nat
    var activeIDs: set<nat>

    /** ID 0 stays active and is nobody's; assigned IDs are active, and no two peers share one. */
    ghost predicate Valid()
      reads this
    {
      Consistent(peerMap, activeIDs, nextID)
    }

    constructor ()
      ensures Valid() && peerMap == map[] && activeIDs == {0} && nextID == 1
    {
      peerMap, activeIDs, nextID := map[], {0}, 1;
    }

    /** The first ID not in use, counting on from nextID and around; `full` where the source panics. */
    method NextPeerID() returns (full: bool, id: nat)
      requires Valid()
      modifies this`nextID
      ensures Valid()
      ensures full == (|activeIDs| == MAX_ACTIVE)
      ensures full ==> nextID == old(nextID)
      ensures !full ==> id !in activeIDs && id < ID_COUNT && nextID == NextId(id)
      ensures !full ==> exists d: nat :: d < ID_COUNT && id == StepsOn(old(nextID), d) && AllActive(activeIDs, old(nextID), d)
    {
      if |activeIDs| == MAX_ACTIVE {
        return true, 0;
      }
      SomeIdFree(activeIDs, ID_COUNT);
      ghost var start := nextID;
      ghost var free: nat :| free < ID_COUNT && free !in activeIDs;
      ghost var far: nat := if free >= start then free - start else free - start + ID_COUNT;
      ghost var d: nat := 0;
      assert StepsOn(start, far) == free;
      while nextID in activeIDs
        invariant d <= far && nextID == StepsOn(start, d) && nextID < ID_COUNT
        invariant AllActive(activeIDs, start, d)
        decreases far - d
      {
        nextID := NextId(nextID);
        d := d + 1;
      }
      id := nextID;
      nextID := NextId(nextID);
      return false, id;
    }

    method ReserveForPeer(p: PeerKey) returns (full: bool)
      requires Valid()
      modifies this
      ensures Valid()
      ensures full == (|old(activeIDs)| == MAX_ACTIVE)
      ensures full ==> peerMap == old(peerMap) && activeIDs == old(activeIDs) && nextID == old(nextID)
      ensures !full ==> p in peerMap && peerMap[p] !in old(activeIDs)
      ensures !full ==> peerMap == old(peerMap)[p := peerMap[p]] && activeIDs == old(activeIDs) + {peerMap[p]}
    {
      var id;
      full, id := NextPeerID();
      if full {
        return;
      }
      peerMap := peerMap[p := id];
      activeIDs := activeIDs + {id};
    }

    method Reclaim(p: PeerKey)
      requires Valid()
      modifies this
      ensures Valid() && nextID == old(nextID)
      ensures peerMap == old(peerMap) - {p}
      ensures activeIDs == if p in old(peerMap) then old(activeIDs) - {old(peerMap)[p]} else old(activeIDs)
    {
      if p in peerMap {
        activeIDs := activeIDs - {peerMap[p]};
      }
      peerMap := peerMap - {p};
    }

    /** An unknown peer reads as UnknownPeerID, which is no peer's. */
    method GetForPeer(p: PeerKey) returns (id: nat)
      requires Valid()
      ensures id == 0 <==> p !in peerMap
      ensures p in peerMap ==> id == peerMap[p]
    {
      return if p in peerMap then peerMap[p] else 0;
    }
  }
}
