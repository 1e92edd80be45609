/** The linked list of the mempool: elements with links both ways, unlinked in place. */
module CLists {
  import opened Types
  import opened Pools

  class CElement {
    /** Elements are told apart by identity; the model numbers them. */
    ghost const id: nat
    const tx: Key
    var prev: CElement?
    var next: CElement?

    constructor (ghost id: nat, tx: Key)
      ensures this.id == id && this.tx == tx && prev == null && next == null
    {
      this.id, this.tx, prev, next := id, tx, null, null;
    }

    method DetachPrev()
      modifies this`prev
      ensures prev == null
    {
      prev := null;
    }
  }

  ghost function ElemOf(e: CElement): Elem {
    Elem(e.id, e.tx)
  }

  ghost function Pointed(e: CElement?): Option<Elem> {
    if e == null then None else Some(ElemOf(e))
  }

  ghost function Elems(nodes: seq<CElement>): seq<Elem> {
    if nodes == [] then [] else Elems(nodes[..|nodes| - 1]) + [ElemOf(nodes[|nodes| - 1])]
  }

  lemma {:induction false} ElemsAt(nodes: seq<CElement>)
    ensures |Elems(nodes)| == |nodes|
    ensures forall i :: 0 <= i < |nodes| ==> Elems(nodes)[i] == ElemOf(nodes[i])
  {
    if nodes == [] {
    } else {
      ElemsAt(nodes[..|nodes| - 1]);
    }
  }

  ghost function FrontOf(nodes: seq<CElement>): CElement? {
    if nodes == [] then null else nodes[0]
  }

  ghost function BackOf(nodes: seq<CElement>): CElement? {
    if nodes == [] then null else nodes[|nodes| - 1]
  }

  ghost predicate Link(x: CElement, y: CElement)
    reads x, y
  {
    x.next == y && y.prev == x
  }

  /** The links of the elements follow the sequence, from `before` to `after`. */
  ghost predicate Chained(nodes: seq<CElement>, before: CElement?, after: CElement?)
    reads nodes
  {
    && (nodes != [] ==> nodes[0].prev == before && nodes[|nodes| - 1].next == after)
    && (forall i, j {:trigger Link(nodes[i], nodes[j])} :: 0 <= i && j == i + 1 < |nodes| ==> Link(nodes[i], nodes[j]))
  }

  ghost predicate Separate(a: seq<CElement>, e: CElement, b: seq<CElement>) {
    && e !in a && e !in b
    && (forall x :: x in a ==> x !in b)
    && (forall i :: 0 <= i < |a| - 1 ==> a[i] != a[|a| - 1])
    && (forall i :: 0 < i < |b| ==> b[i] != b[0])
  }

  /** Elements numbered in order are different elements. */
  lemma {:induction false} OrderSeparates(a: seq<CElement>, e: CElement, b: seq<CElement>, nextId: nat)
    requires InOrder(Elems(a + [e] + b), nextId)
    ensures Separate(a, e, b)
  {
    ElemsAt(a + [e] + b);
    NumbersTellApart(a + [e] + b, Elems(a + [e] + b), nextId);
    ApartSeparates(a, e, b);
  }

  predicate Apart(nodes: seq<CElement>) {
    forall i, j :: 0 <= i < j < |nodes| ==> nodes[i] != nodes[j]
  }

  lemma NumbersTellApart(nodes: seq<CElement>, list: seq<Elem>, nextId: nat)
    requires InOrder(list, nextId) && |list| == |nodes|
    requires forall i :: 0 <= i < |nodes| ==> list[i] == ElemOf(nodes[i])
    ensures Apart(nodes)
  {
    forall i, j | 0 <= i < j < |nodes| ensures nodes[i] != nodes[j] {
      assert list[i].id < list[j].id;
    }
  }

  lemma ApartSeparates(a: seq<CElement>, e: CElement, b: seq<CElement>)
    requires Apart(a + [e] + b)
    ensures Separate(a, e, b)
  {
    var all := a + [e] + b;
    var n := |a|;
    assert all[n] == e;
    assert forall i :: 0 <= i < n ==> all[i] == a[i];
    assert forall i :: 0 <= i < |b| ==> all[n + 1 + i] == b[i];
  }

  /** First and last elements, with and without e. */
  lemma EndsAround(a: seq<CElement>, e: CElement, b: seq<CElement>)
    ensures FrontOf(a + [e] + b) == (if a == [] then e else FrontOf(a)) && FrontOf(a + b) == if a == [] then FrontOf(b) else FrontOf(a)
    ensures BackOf(a + [e] + b) == (if b == [] then e else BackOf(b)) && BackOf(a + b) == if b == [] then BackOf(a) else BackOf(b)
    ensures BackOf(a) != null ==> BackOf(a) in a + [e] + b
    ensures FrontOf(b) != null ==> FrontOf(b) in a + [e] + b
    ensures forall x :: x in a + b ==> x in a + [e] + b
  {
    assert a != [] ==> BackOf(a) in a;
    assert b != [] ==> FrontOf(b) in b;
  }

  lemma ChainedSplit(a: seq<CElement>, e: CElement, b: seq<CElement>)
    requires Chained(a + [e] + b, null, null)
    ensures Chained(a, null, e) && Chained(b, e, null)
    ensures e.prev == BackOf(a) && e.next == FrontOf(b)
  {
    var all := a + [e] + b;
    var n := |a|;
    forall i, j | 0 <= i && j == i + 1 < |a| ensures Link(a[i], a[j]) {
      assert Link(all[i], all[j]);
    }
    forall i, j | 0 <= i && j == i + 1 < |b| ensures Link(b[i], b[j]) {
      assert Link(all[n + 1 + i], all[n + 1 + j]);
    }
    assert a != [] ==> Link(all[n - 1], all[n]);
    assert b != [] ==> Link(all[n], all[n + 1]);
    assert b != [] ==> all[|all| - 1] == b[|b| - 1];
  }

  lemma ChainedJoin(a: seq<CElement>, b: seq<CElement>)
    requires Chained(a, null, FrontOf(b)) && Chained(b, BackOf(a), null)
    ensures Chained(a + b, null, null)
  {
    var all := a + b;
    forall i, j | 0 <= i && j == i + 1 < |all| ensures Link(all[i], all[j]) {
      if j < |a| {
        assert Link(a[i], a[j]);
      } else if i >= |a| {
        assert Link(b[i - |a|], b[j - |a|]);
      }
    }
  }

  lemma {:induction false} ElemsConcat(a: seq<CElement>, b: seq<CElement>)
    ensures Elems(a + b) == Elems(a) + Elems(b)
  {
    if b == [] {
      assert a + b == a;
    } else {
      var n := |b| - 1;
      assert (a + b)[..|a + b| - 1] == a + b[..n];
      assert (a + b)[|a + b| - 1] == b[n];
      ElemsConcat(a, b[..n]);
    }
  }

  lemma ElemsOne(e: CElement)
    ensures Elems([e]) == [ElemOf(e)]
  {
    assert [e][..0] == [];
  }

  lemma InOrderSnoc(list: seq<Elem>, nextId: nat, tx: Key)
    requires InOrder(list, nextId)
    ensures InOrder(list + [Elem(nextId, tx)], nextId + 1)
  {
    var list' := list + [Elem(nextId, tx)];
    assert list'[|list|].id == nextId;
    assert forall i :: 0 <= i < |list| ==> list'[i] == list[i];
  }

  lemma {:induction false} PushIsListed(nodes: seq<CElement>, e: CElement, nextId: nat)
    requires InOrder(Elems(nodes), nextId) && e.id == nextId
    ensures Elems(nodes + [e]) == Elems(nodes) + [Elem(nextId, e.tx)]
    ensures InOrder(Elems(nodes + [e]), nextId + 1)
  {
    ElemsConcat(nodes, [e]);
    ElemsOne(e);
    InOrderSnoc(Elems(nodes), nextId, e.tx);
  }

  lemma {:induction false} ElemsAround(a: seq<CElement>, e: CElement, b: seq<CElement>)
    ensures Elems(a + [e] + b) == Elems(a) + [ElemOf(e)] + Elems(b)
    ensures Elems(a + b) == Elems(a) + Elems(b)
  {
    ElemsConcat(a + [e], b);
    ElemsConcat(a, [e]);
    ElemsOne(e);
    ElemsConcat(a, b);
  }

  /** What unlinking an element does, in terms of the pool model. */
  lemma {:induction false} UnlinkIsUnlisted(a: seq<CElement>, e: CElement, b: seq<CElement>, nextId: nat)
    requires InOrder(Elems(a + [e] + b), nextId)
    ensures Unlisted(Elems(a + [e] + b), e.id) == Elems(a + b)
    ensures InOrder(Elems(a + b), nextId)
    ensures NextOf(Elems(a + [e] + b), e.id) == Pointed(FrontOf(b))
  {
    ElemsAround(a, e, b);
    TakenOut(Elems(a), ElemOf(e), Elems(b), nextId);
    ElemsAt(b);
  }

  /** The same for the list of the pool model. */
  lemma TakenOut(x: seq<Elem>, e: Elem, y: seq<Elem>, nextId: nat)
    requires InOrder(x + [e] + y, nextId)
    ensures Unlisted(x + [e] + y, e.id) == x + y && InOrder(x + y, nextId)
    ensures NextOf(x + [e] + y, e.id) == if y == [] then None else Some(y[0])
  {
    var list, c := x + [e] + y, |x|;
    assert list[c] == e;
    PositionIs(list, nextId, c);
    assert list[..c] == x && list[c + 1..] == y;
    RestInOrder(list, nextId, c);
  }

  lemma PositionIs(list: seq<Elem>, nextId: nat, c: nat)
    requires InOrder(list, nextId) && c < |list|
    ensures Position(list, list[c].id) == c
  {
  }

  /** All elements but e are still there. */
  ghost predicate Kept(nodes: seq<CElement>, e: CElement, rest: seq<CElement>) {
    forall x :: x in nodes && x != e ==> x in rest
  }

  lemma CutKeeps(a: seq<CElement>, e: CElement, b: seq<CElement>)
    ensures Kept(a + [e] + b, e, a + b)
  {
  }

  lemma SplitAt(nodes: seq<CElement>, e: CElement) returns (a: seq<CElement>, b: seq<CElement>)
    requires e in nodes
    ensures nodes == a + [e] + b
  {
    var c: nat :| c < |nodes| && nodes[c] == e;
    a, b := nodes[..c], nodes[c + 1..];
  }

  class CList {
    var head: CElement?
    var tail: CElement?
    var len: nat
    ghost var nodes: seq<CElement>
    /** The elements, those taken out included. */
    ghost var repr: set<CElement>
    /** What the elements hold, as the pool model sees it. */
    ghost var list: seq<Elem>
    ghost var nextId: nat

    /** Head, tail and all links agree with the sequence of elements. */
    ghost predicate Intact()
      reads this`head, this`tail, this`len, this`nodes, this`repr, repr
    {
      && (forall x :: x in nodes ==> x in repr)
      && len == |nodes| && Chained(nodes, null, null)
      && head == FrontOf(nodes) && tail == BackOf(nodes)
    }

    ghost predicate Valid()
      reads this, repr
    {
      Intact() && list == Elems(nodes) && len == |list| && InOrder(list, nextId)
    }

    constructor ()
      ensures Valid() && list == [] && repr == {} && nextId == 0
    {
      head, tail, len, nodes, repr, list, nextId := null, null, 0, [], {}, [], 0;
    }

    method PushBack(tx: Key) returns (e: CElement)
      requires Valid()
      modifies this, repr
      ensures Valid() && fresh(e) && e.tx == tx && e.id == old(nextId)
      ensures nodes == old(nodes) + [e] && repr == old(repr) + {e}
      ensures list == old(list) + [Elem(old(nextId), tx)] && nextId == old(nextId) + 1
    {
      e := new CElement(nextId, tx);
      PushIsListed(nodes, e, nextId);
      AppendElement(e);
      list, nextId := list + [Elem(nextId, tx)], nextId + 1;
    }

    method AppendElement(e: CElement)
      requires Valid() && e !in repr && e.prev == null && e.next == null
      modifies this`head, this`tail, this`len, this`nodes, this`repr, repr, e
      ensures Intact() && nodes == old(nodes) + [e] && repr == old(repr) + {e}
    {
      LastApart();
      e.prev := tail;
      if tail == null {
        head := e;
      } else {
        tail.next := e;
        forall i, j | 0 <= i && j == i + 1 < |nodes| ensures Link(nodes[i], nodes[j]) {
          assert old(Link(nodes[i], nodes[j]));
        }
      }
      ChainedJoin(nodes, [e]);
      tail := e;
      len := len + 1;
      nodes, repr := nodes + [e], repr + {e};
    }

    lemma LastApart()
      requires Valid()
      ensures forall i :: 0 <= i < |nodes| - 1 ==> nodes[i] != nodes[|nodes| - 1]
    {
      if nodes != [] {
        var n := |nodes| - 1;
        assert nodes == nodes[..n] + [nodes[n]] + [];
        OrderSeparates(nodes[..n], nodes[n], [], nextId);
      }
    }

    /** What is before e leads to what is after it. */
    method SkipForward(e: CElement, ghost a: seq<CElement>, ghost b: seq<CElement>)
      requires Separate(a, e, b) && Chained(a, null, e) && Chained(b, e, null)
      requires e.prev == BackOf(a) && e.next == FrontOf(b)
      modifies this`head, e.prev
      ensures Chained(a, null, FrontOf(b)) && Chained(b, e, null)
      ensures e.prev == old(e.prev) && e.next == old(e.next)
      ensures head == if a == [] then FrontOf(b) else old(head)
    {
      if e.prev == null {
        head := e.next;
      } else {
        e.prev.next := e.next;
        forall i, j | 0 <= i && j == i + 1 < |a| ensures Link(a[i], a[j]) {
          assert old(Link(a[i], a[j]));
        }
      }
      assert forall i :: 0 <= i < |b| ==> b[i] in b;
      forall i, j | 0 <= i && j == i + 1 < |b| ensures Link(b[i], b[j]) {
        assert old(Link(b[i], b[j]));
      }
    }

    /** What is after e leads back to what is before it. */
    method SkipBackward(e: CElement, ghost a: seq<CElement>, ghost b: seq<CElement>)
      requires Separate(a, e, b) && Chained(a, null, FrontOf(b)) && Chained(b, e, null)
      requires e.prev == BackOf(a) && e.next == FrontOf(b)
      modifies this`tail, e.next
      ensures Chained(a, null, FrontOf(b)) && Chained(b, BackOf(a), null)
      ensures e.next == old(e.next)
      ensures tail == if b == [] then BackOf(a) else old(tail)
    {
      if e.next == null {
        tail := e.prev;
      } else {
        e.next.prev := e.prev;
        forall i, j | 0 <= i && j == i + 1 < |b| ensures Link(b[i], b[j]) {
          assert old(Link(b[i], b[j]));
        }
      }
      assert forall i :: 0 <= i < |a| ==> a[i] in a;
      forall i, j | 0 <= i && j == i + 1 < |a| ensures Link(a[i], a[j]) {
        assert old(Link(a[i], a[j]));
      }
    }

    /** Unlinks an element. The element keeps its own links, so a walk can go on from it. */
    method Remove(e: CElement, ghost a: seq<CElement>, ghost b: seq<CElement>)
      requires Intact() && nodes == a + [e] + b && Separate(a, e, b)
      modifies this`head, this`tail, this`len, this`nodes, repr
      ensures Intact() && nodes == a + b
      ensures e.next == old(e.next)
    {
      ChainedSplit(a, e, b);
      EndsAround(a, e, b);
      SkipForward(e, a, b);
      SkipBackward(e, a, b);
      len := len - 1;
      ChainedJoin(a, b);
      nodes := a + b;
    }

    /** Remove followed by DetachPrev, as the mempool does it. */
    method Detach(e: CElement, ghost a: seq<CElement>, ghost b: seq<CElement>)
      requires Valid() && nodes == a + [e] + b
      modifies this`head, this`tail, this`len, this`nodes, repr
      ensures Intact() && nodes == a + b
      ensures e.next == old(e.next)
    {
      OrderSeparates(a, e, b, nextId);
      Remove(e, a, b);
      e.DetachPrev();
    }

    method Unlink(e: CElement) returns (ghost a: seq<CElement>, ghost b: seq<CElement>)
      requires Valid() && e in nodes
      modifies this`head, this`tail, this`len, this`nodes, this`list, repr
      ensures Valid() && old(nodes) == a + [e] + b && nodes == a + b
      ensures list == Unlisted(old(list), e.id)
      ensures e.next == old(e.next) == FrontOf(b) && (e == old(head) ==> a == [])
    {
      a, b := Around(e);
      ghost var rest := Unlisted(list, e.id);
      LinkAfter(e, a, b);
      Detach(e, a, b);
      list := rest;
    }

    /** The elements before and after e, and what the list is without e. */
    lemma Around(e: CElement) returns (a: seq<CElement>, b: seq<CElement>)
      requires Valid() && e in nodes
      ensures nodes == a + [e] + b
      ensures Elems(a + b) == Unlisted(list, e.id) && |Unlisted(list, e.id)| == len - 1
      ensures InOrder(Unlisted(list, e.id), nextId) && Pointed(FrontOf(b)) == NextOf(list, e.id)
    {
      a, b := SplitAt(nodes, e);
      ElemsAt(a + b);
      UnlinkIsUnlisted(a, e, b, nextId);
    }

    lemma LinkAfter(e: CElement, a: seq<CElement>, b: seq<CElement>)
      requires Valid() && nodes == a + [e] + b
      ensures e.next == FrontOf(b) && e.next != e && (e == head ==> a == [])
    {
      OrderSeparates(a, e, b, nextId);
      ChainedSplit(a, e, b);
    }

    /** Where an element's link leads. */
    lemma NextIs(e: CElement)
      requires Valid() && e in nodes
      ensures Pointed(e.next) == NextOf(list, e.id)
      ensures e.next != null ==> e.next in nodes && e.next != e
    {
      var a, b := Around(e);
      LinkAfter(e, a, b);
      assert e.next != null ==> e.next in b;
    }

    lemma NextAt(i: nat)
      requires Valid() && i < |nodes|
      ensures nodes[i].next == if i + 1 < |nodes| then nodes[i + 1] else null
    {
      assert i + 1 < |nodes| ==> Link(nodes[i], nodes[i + 1]);
    }

    /** Listed elements are told apart by their numbers. */
    lemma SameElem(x: CElement, y: CElement)
      requires Valid() && x in nodes && y in nodes
      ensures ElemOf(x) == ElemOf(y) <==> x == y
    {
      ElemsAt(nodes);
      var i: nat :| i < |nodes| && nodes[i] == x;
      var j: nat :| j < |nodes| && nodes[j] == y;
      assert list[i] == ElemOf(x) && list[j] == ElemOf(y);
    }
  }
}
