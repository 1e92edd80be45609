/** Counting peers against the quorum, and what two quorums have in common. */
module Quorums {
  import opened Types
  import opened FiniteSets

  /** More than two thirds of n validators. */
  function QuorumOf(n: nat): nat {
    2 * n / 3 + 1
  }

  /** The least number above two thirds; with n = 3t + 1 it is 2t + 1, and t validators are left. */
  lemma QuorumOfThirds(n: nat, q: nat, t: nat)
    ensures 3 * q > 2 * n <==> q >= QuorumOf(n)
    ensures QuorumOf(3 * t + 1) == 2 * t + 1 && 3 * t + 1 - QuorumOf(3 * t + 1) == t
  {
  }

  predicate Enough(backers: set<ID>, quorum: nat) {
    quorum >= 1 && |backers| >= quorum
  }

  function Supporters<P(!new)>(peers: map<ID, P>, fn: P -> bool): set<ID> {
    set id | id in peers && fn(peers[id])
  }

  /**
   Counts in whatever order the map is walked and stops at the quorum. With a
   quorum of 0, as before the first validator set, the count never matches.
   */
  method HasQuorum<P(!new)>(peers: map<ID, P>, quorum: nat, fn: P -> bool) returns (ok: bool)
    ensures ok == Enough(Supporters(peers, fn), quorum)
  {
    var votes, rest := 0, peers.Keys;
    ghost var counted: set<ID> := {};
    while rest != {}
      invariant rest <= peers.Keys
      invariant counted == set id | id in Supporters(peers, fn) && id !in rest
      invariant votes == |counted|
      invariant quorum >= 1 ==> votes < quorum
      decreases |rest|
    {
      var id :| id in rest;
      rest := rest - {id};
      if fn(peers[id]) {
        votes := votes + 1;
        counted := counted + {id};
        if votes == quorum {
          SubsetCount(counted, Supporters(peers, fn));
          return true;
        }
      }
    }
    assert counted == Supporters(peers, fn);
    return false;
  }

  /** Two sets of backers overlap by what their sizes exceed the whole. */
  lemma Overlap(a: set<ID>, b: set<ID>, all: set<ID>)
    requires a <= all && b <= all
    ensures |a * b| >= |a| + |b| - |all|
  {
    SubsetCount(a + b, all);
  }

  /**
   With at most n peers known, n at least 1, any two quorums share at least
   floor((n-1)/3) + 1 peers: one more than the faulty peers the design allows.
   */
  lemma QuorumsIntersect(a: set<ID>, b: set<ID>, all: set<ID>, n: nat)
    requires a <= all && b <= all && |all| <= n && n >= 1
    requires Enough(a, QuorumOf(n)) && Enough(b, QuorumOf(n))
    ensures |a * b| >= (n - 1) / 3 + 1
  {
    Overlap(a, b, all);
  }

  /** Hence two quorums of n peers have a peer in common outside any f faulty ones. */
  lemma QuorumsShareHonestPeer(a: set<ID>, b: set<ID>, all: set<ID>, faulty: set<ID>, n: nat)
    requires a <= all && b <= all && |all| <= n && n >= 1
    requires Enough(a, QuorumOf(n)) && Enough(b, QuorumOf(n))
    requires 3 * |faulty| < n
    ensures exists id :: id in a && id in b && id !in faulty
  {
    QuorumsIntersect(a, b, all, n);
    if a * b <= faulty {
      SubsetCount(a * b, faulty);
    } else {
      var id :| id in a * b && id !in faulty;
    }
  }
}
