/** Reachability in a finite graph, and the depth-first search that computes it in place. */
module Closure {
  import opened FiniteSets

  type Edges = set<(nat, nat)>

  predicate IsPath(e: Edges, p: seq<nat>) {
    p != [] && forall i, j :: 0 <= i && j == i + 1 < |p| ==> (p[i], p[j]) in e
  }

  ghost predicate Reaches(e: Edges, a: nat, b: nat) {
    exists p :: IsPath(e, p) && p[0] == a && p[|p| - 1] == b
  }

  /** The nodes below n that a reaches, a itself included. */
  ghost function Reachable(n: nat, e: Edges, a: nat): set<nat> {
    set b: nat | b < n && Reaches(e, a, b)
  }

  lemma ReachesSelf(e: Edges, a: nat)
    ensures Reaches(e, a, a)
  {
    assert IsPath(e, [a]);
  }

  lemma ReachesByEdge(e: Edges, a: nat, b: nat)
    requires (a, b) in e
    ensures Reaches(e, a, b)
  {
    var p := [a, b];
    assert IsPath(e, p) && p[0] == a && p[|p| - 1] == b;
  }

  lemma ReachesThrough(e: Edges, a: nat, b: nat, c: nat)
    requires Reaches(e, a, b) && Reaches(e, b, c)
    ensures Reaches(e, a, c)
  {
    var p :| IsPath(e, p) && p[0] == a && p[|p| - 1] == b;
    var q :| IsPath(e, q) && q[0] == b && q[|q| - 1] == c;
    var r := p + q[1..];
    forall i, j | 0 <= i && j == i + 1 < |r| ensures (r[i], r[j]) in e {
      if j < |p| {
        assert (p[i], p[j]) in e;
      } else {
        assert r[i] == q[i - |p| + 1] && r[j] == q[j - |p| + 1];
      }
    }
    assert IsPath(e, r) && r[0] == a && r[|r| - 1] == c;
  }

  /** Every node of `done` has all its successors in s. */
  ghost predicate Expanded(e: Edges, done: set<nat>, s: set<nat>) {
    forall x, y :: x in done && (x, y) in e ==> y in s
  }

  /** A set closed under edges holds everything its members reach. */
  lemma {:induction false} ClosedUnderPath(e: Edges, s: set<nat>, p: seq<nat>)
    requires Expanded(e, s, s) && IsPath(e, p) && p[0] in s
    ensures p[|p| - 1] in s
    decreases |p|
  {
    if |p| > 1 {
      assert (p[0], p[1]) in e;
      forall i, j | 0 <= i && j == i + 1 < |p[1..]| ensures (p[1..][i], p[1..][j]) in e {
        assert p[1..][i] == p[i + 1] && p[1..][j] == p[j + 1];
      }
      ClosedUnderPath(e, s, p[1..]);
    }
  }

  lemma ClosedUnderReach(e: Edges, s: set<nat>, a: nat, b: nat)
    requires Expanded(e, s, s) && a in s && Reaches(e, a, b)
    ensures b in s
  {
    var p :| IsPath(e, p) && p[0] == a && p[|p| - 1] == b;
    ClosedUnderPath(e, s, p);
  }

  // ---------- the search ----------

  ghost function EdgesOf(matrix: array2<bool>): Edges
    reads matrix
  {
    set i: nat, j: nat | i < matrix.Length0 && j < matrix.Length1 && matrix[i, j] :: (i, j)
  }

  /** The growing set of dependencies, shared by all calls of one search. */
  class Deps {
    var keys: set<nat>

    constructor ()
      ensures keys == {}
    {
      keys := {};
    }
  }

  /** A finished child leaves the parent's bookkeeping in order. */
  lemma AfterChild(e: Edges, index: nat, i: nat, before: set<nat>, seen: set<nat>, keys: set<nat>)
    requires (index, i) in e && before <= seen && seen + {i} <= keys
    requires forall x :: x in seen && x !in before ==> Reaches(e, index, x)
    requires forall x :: x in keys && x !in seen + {i} ==> Reaches(e, i, x)
    requires Expanded(e, seen - before - {index}, seen)
    requires Expanded(e, keys - (seen + {i}) + {i}, keys)
    ensures forall x :: x in keys && x !in before ==> Reaches(e, index, x)
    ensures Expanded(e, keys - before - {index}, keys)
  {
    ReachesByEdge(e, index, i);
    forall x | x in keys && x !in before ensures Reaches(e, index, x) {
      if x !in seen && x != i {
        ReachesThrough(e, index, i, x);
      }
    }
    forall x, y | x in keys - before - {index} && (x, y) in e ensures y in keys {
      if x in seen && x != i {
        assert x in seen - before - {index};
      } else {
        assert x in keys - (seen + {i}) + {i};
      }
    }
  }

  /** Of index and its successors, those below i are in keys. */
  ghost predicate RowDone(e: Edges, index: nat, i: nat, keys: set<nat>) {
    forall j: nat :: j < i && (j == index || (index, j) in e) ==> j in keys
  }

  /** What holds between two steps of the loop over a row. */
  ghost predicate Progress(e: Edges, index: nat, i: nat, before: set<nat>, keys: set<nat>) {
    && before <= keys && RowDone(e, index, i, keys)
    && (forall x :: x in keys && x !in before ==> Reaches(e, index, x))
    && Expanded(e, keys - before - {index}, keys)
  }

  lemma MarkSelf(e: Edges, index: nat, before: set<nat>, keys: set<nat>)
    requires Progress(e, index, index, before, keys)
    ensures Progress(e, index, index + 1, before, keys + {index})
  {
    ReachesSelf(e, index);
  }

  lemma RowFinished(e: Edges, n: nat, index: nat, before: set<nat>, keys: set<nat>)
    requires Progress(e, index, n, before, keys) && index < n
    requires forall y :: (index, y) in e ==> y < n
    ensures Expanded(e, keys - before + {index}, keys)
  {
  }

  lemma EdgesBelow(matrix: array2<bool>, i: nat, j: nat)
    ensures (i, j) in EdgesOf(matrix) <==> i < matrix.Length0 && j < matrix.Length1 && matrix[i, j]
  {
  }

  /**
   Adds what index reaches. Nodes already in `deps` count as somebody else's
   work; every node this call adds, and index itself, ends up expanded. The
   start node may be entered a second time through a cycle before it is marked.
   */
  method Recompute(matrix: array2<bool>, index: nat, deps: Deps, ghost e: Edges)
    requires matrix.Length0 == matrix.Length1 && index < matrix.Length0
    requires e == EdgesOf(matrix)
    requires deps.keys <= Below(matrix.Length0)
    modifies deps
    ensures old(deps.keys) + {index} <= deps.keys <= Below(matrix.Length0)
    ensures forall x :: x in deps.keys && x !in old(deps.keys) ==> Reaches(e, index, x)
    ensures Expanded(e, deps.keys - old(deps.keys) + {index}, deps.keys)
    decreases Below(matrix.Length0) - deps.keys
  {
    ghost var before := deps.keys;
    var i: nat := 0;
    while i < matrix.Length1
      invariant i <= matrix.Length1 && deps.keys <= Below(matrix.Length0)
      invariant Progress(e, index, i, before, deps.keys)
    {
      EdgesBelow(matrix, index, i);
      if i in deps.keys {
      } else if i == index {
        MarkSelf(e, index, before, deps.keys);
        deps.keys := deps.keys + {i};
      } else if matrix[index, i] {
        ghost var seen := deps.keys;
        deps.keys := deps.keys + {i};
        Recompute(matrix, i, deps, e);
        AfterChild(e, index, i, before, seen, deps.keys);
      }
      i := i + 1;
    }
    RowFinished(e, matrix.Length1, index, before, deps.keys);
  }

  /** Started on nothing, the search leaves exactly the reflexive-transitive closure. */
  method Dependencies(matrix: array2<bool>, index: nat) returns (keys: set<nat>)
    requires matrix.Length0 == matrix.Length1 && index < matrix.Length0
    ensures keys == Reachable(matrix.Length0, EdgesOf(matrix), index)
  {
    var deps := new Deps();
    ghost var e := EdgesOf(matrix);
    Recompute(matrix, index, deps, e);
    keys := deps.keys;
    assert Expanded(e, keys, keys);
    ReachesSelf(e, index);
    forall b: nat | Reaches(e, index, b) ensures b in keys {
      ClosedUnderReach(e, keys, index, b);
    }
  }
}
