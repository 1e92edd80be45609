/**
 Flooding ends. A vote may be accepted more than once by a node that received
 a later vote of the same author first, but only boundedly often, so a measure
 falls with every delivery, in every run and for every delivery order.
 */
module Termination {
  import opened Types
  import opened Buckets
  import opened Delivery
  import opened PendingTxs
  import opened Peers
  import opened Gossip
  import opened Holdings
  import E = Engine

  // ---------- how much a node can hold ----------

  predicate Different(labels: seq<Label>) {
    forall i, j :: 0 <= i < j < |labels| ==> labels[i] != labels[j]
  }

  /** Votes of one author held under the labels. */
  function HeldOf(view: View, labels: seq<Label>): nat {
    if labels == [] then 0 else HeldOf(view, labels[..|labels| - 1]) + |At(view, labels[|labels| - 1]).votes|
  }

  /** Votes of the first n authors held under the labels. */
  function VotesHeld(node: Node, n: nat, labels: seq<Label>): nat {
    if n == 0 then 0
    else VotesHeld(node, n - 1, labels) + HeldOf(E.ViewOf(node.wendy.peers, n - 1), labels)
  }

  function Load(node: Node, n: nat, labels: seq<Label>): nat {
    |node.wendy.txs| + VotesHeld(node, n, labels)
  }

  /** Only the bucket of one label changes, and the label is listed once. */
  lemma {:induction false} HeldOfUpdate(view: View, view': View, l: Label, labels: seq<Label>)
    requires Different(labels) && forall k :: k != l ==> At(view', k) == At(view, k)
    ensures HeldOf(view', labels) ==
            HeldOf(view, labels) + if l in labels then |At(view', l).votes| - |At(view, l).votes| else 0
  {
    if labels == [] {
    } else {
      var n := |labels| - 1;
      HeldOfUpdate(view, view', l, labels[..n]);
      assert labels == labels[..n] + [labels[n]];
    }
  }

  /** Only one bucket of one author changes. */
  lemma {:induction false} VotesHeldUpdate(node: Node, node': Node, a: nat, l: Label, n: nat, labels: seq<Label>)
    requires Different(labels) && a < n && l in labels
    requires forall c: nat, k :: c != a || k != l ==> BucketOf(node', c, k) == BucketOf(node, c, k)
    ensures VotesHeld(node', n, labels) ==
            VotesHeld(node, n, labels) + |BucketOf(node', a, l).votes| - |BucketOf(node, a, l).votes|
  {
    var c := n - 1;
    var view, view' := E.ViewOf(node.wendy.peers, c), E.ViewOf(node'.wendy.peers, c);
    assert forall k :: At(view', k) == BucketOf(node', c, k) && At(view, k) == BucketOf(node, c, k);
    HeldOfUpdate(view, view', l, labels);
    if a < c {
      VotesHeldUpdate(node, node', a, l, c, labels);
    } else {
      SameHeld(node, node', c, labels);
    }
  }

  lemma {:induction false} SameHeld(node: Node, node': Node, n: nat, labels: seq<Label>)
    requires Different(labels)
    requires forall c: nat, k :: c < n ==> BucketOf(node', c, k) == BucketOf(node, c, k)
    ensures VotesHeld(node', n, labels) == VotesHeld(node, n, labels)
  {
    if n == 0 {
    } else {
      var view, view' := E.ViewOf(node.wendy.peers, n - 1), E.ViewOf(node'.wendy.peers, n - 1);
      assert forall k :: At(view', k) == BucketOf(node', n - 1, k) && At(view, k) == BucketOf(node, n - 1, k);
      HeldOfUpdate(view, view', "", labels);
      SameHeld(node, node', n - 1, labels);
    }
  }

  lemma {:induction false} HeldOfBound(view: View, labels: seq<Label>, cap: nat)
    requires forall l :: |At(view, l).votes| <= cap
    ensures HeldOf(view, labels) <= |labels| * cap
  {
    if labels == [] {
    } else {
      var n := |labels| - 1;
      HeldOfBound(view, labels[..n], cap);
      assert (n + 1) * cap == n * cap + cap;
    }
  }

  lemma {:induction false} VotesHeldBound(node: Node, n: nat, labels: seq<Label>, cap: nat)
    requires forall a: nat, l :: a < n ==> |BucketOf(node, a, l).votes| <= cap
    ensures VotesHeld(node, n, labels) <= n * (|labels| * cap)
  {
    if n == 0 {
    } else {
      var view := E.ViewOf(node.wendy.peers, n - 1);
      forall l ensures |At(view, l).votes| <= cap {
        assert |BucketOf(node, n - 1, l).votes| <= cap;
      }
      HeldOfBound(view, labels, cap);
      VotesHeldBound(node, n - 1, labels, cap);
      OneMore(n - 1, |labels| * cap);
    }
  }

  lemma OneMore(n: nat, x: nat)
    ensures (n + 1) * x == n * x + x
  {
  }

  /** How many votes one list can hold when an author casts at most t. */
  function ListCapacity(t: nat): nat {
    t * (t + 1) / 2
  }

  /** What a node of n can hold when at most t transactions of k labels exist. */
  function Capacity(n: nat, k: nat, t: nat): nat {
    t + n * (k * ListCapacity(t))
  }

  /** The transactions that may be injected: their hashes and their labels. */
  datatype Supply = Supply(hashes: set<Hash>, labels: seq<Label>)

  predicate Supplied(tx: Tx, s: Supply) {
    tx.hash in s.hashes && tx.lbl in s.labels
  }

  predicate BodySupplied(body: Body, s: Supply) {
    match body
    case TxBody(tx) => Supplied(tx, s)
    case VoteBody(v) => v.lbl in s.labels
  }

  ghost predicate Limited(node: Node, s: Supply) {
    forall i :: 0 <= i < |node.wendy.txs| ==> Supplied(node.wendy.txs[i], s)
  }

  ghost predicate AllLimited(net: Net, s: Supply) {
    && (forall n :: 0 <= n < |net.nodes| ==> Limited(net.nodes[n], s))
    && (forall m :: m in net.flight ==> BodySupplied(m.body, s))
  }

  lemma {:induction false} DistinctCount(txs: seq<Tx>, hashes: set<Hash>)
    requires Distinct(txs) && forall i :: 0 <= i < |txs| ==> txs[i].hash in hashes
    ensures |txs| <= |hashes|
  {
    if txs == [] {
    } else {
      var n := |txs| - 1;
      DistinctCount(txs[..n], hashes - {txs[n].hash});
    }
  }

  lemma BucketBound(nodes: seq<Node>, n: nat, a: nat, l: Label, s: Supply)
    requires NodesOk(nodes) && Genuine(nodes) && n < |nodes| && a < |nodes|
    requires FallingRuns(BucketOf(nodes[n], a, l).votes) && Limited(nodes[a], s)
    ensures |BucketOf(nodes[n], a, l).votes| <= ListCapacity(|s.hashes|)
  {
    assert NodeOk(nodes[a], a) && GenuineAt(nodes, n, a, l);
    DistinctCount(nodes[a].wendy.txs, s.hashes);
    var vs := BucketOf(nodes[n], a, l).votes;
    forall j | 0 <= j < |vs| ensures vs[j].seqNo < |s.hashes| {
      assert FromChain(vs[j], nodes[a].cast);
    }
    FallingRunsBound(vs, 0, |s.hashes|);
  }

  lemma LoadBound(links: Links, net: Net, n: nat, s: Supply)
    requires Inv(links, net) && AllLimited(net, s) && AllListsOk(net, |links|) && n < |links|
    ensures Load(net.nodes[n], |links|, s.labels) <= Capacity(|links|, |s.labels|, |s.hashes|)
  {
    assert NodeOk(net.nodes[n], n) && ListsOk(net.nodes[n], |links|) && Limited(net.nodes[n], s);
    DistinctCount(net.nodes[n].wendy.txs, s.hashes);
    forall a: nat, l | a < |links| ensures |BucketOf(net.nodes[n], a, l).votes| <= ListCapacity(|s.hashes|) {
      assert BucketOk(BucketOf(net.nodes[n], a, l)) && Limited(net.nodes[a], s);
      BucketBound(net.nodes, n, a, l, s);
    }
    VotesHeldBound(net.nodes[n], |links|, s.labels, ListCapacity(|s.hashes|));
  }

  // ---------- one handler: load gained against messages sent ----------

  /** The load gained pays for the messages sent. */
  predicate PaidFor(gain: int, degree: nat, sent: nat) {
    gain >= 0 && sent <= gain * degree
  }

  /** What a handler adds to a node's load pays for what it sends. */
  predicate Pays(node: Node, o: Outcome, degree: nat, n: nat, labels: seq<Label>) {
    PaidFor(Load(o.node, n, labels) - Load(node, n, labels), degree, |o.sent|)
  }

  lemma {:induction false} VoteGain(peers: seq<nat>, me: nat, node: Node, from: nat, v: Vote, n: nat, labels: seq<Label>)
    requires Different(labels) && v.pubkey < n && v.lbl in labels
    ensures Pays(node, HandleVote(peers, me, node, from, v), |peers|, n, labels)
  {
    var o, b := HandleVote(peers, me, node, from, v), BucketOf(node, v.pubkey, v.lbl);
    var r := Receive(b, v);
    forall c: nat, k ensures c != v.pubkey || k != v.lbl ==> BucketOf(o.node, c, k) == BucketOf(node, c, k) {
      VoteChanges(peers, me, node, from, v, c, k);
    }
    VoteChanges(peers, me, node, from, v, v.pubkey, v.lbl);
    VotesHeldUpdate(node, o.node, v.pubkey, v.lbl, n, labels);
    ReceiveStores(b, v);
    BroadcastSize(peers, me, {from, v.pubkey}, VoteBody(v));
    var gain := Load(o.node, n, labels) - Load(node, n, labels);
    assert gain == if Stored(r.reply) then 1 else 0;
    assert |o.sent| <= if r.reply == Added then |peers| else 0;
    assert gain * |peers| == if Stored(r.reply) then |peers| else 0;
  }

  lemma {:induction false} TxGain(peers: seq<nat>, me: nat, node: Node, from: nat, tx: Tx, digest: Hash, n: nat, labels: seq<Label>)
    requires Different(labels) && me < n && tx.lbl in labels
    ensures Pays(node, HandleTx(peers, me, node, from, tx, digest), |peers|, n, labels)
  {
    if !Contains(node.wendy.txs, tx.hash) {
      var v, voted := NextVote(me, node, tx, digest), Voted(me, node, tx, digest);
      assert voted.wendy.txs == node.wendy.txs + [tx];
      forall c: nat, k ensures BucketOf(voted, c, k) == BucketOf(node, c, k) {}
      SameHeld(node, voted, n, labels);
      VoteGain(peers, me, voted, me, v, n, labels);
      BroadcastSize(peers, me, {from}, TxBody(tx));
      var g := Load(HandleVote(peers, me, voted, me, v).node, n, labels) - Load(voted, n, labels);
      assert (g + 1) * |peers| == g * |peers| + |peers|;
    }
  }

  /** What the step handles is among the supply, and its vote is a node's. */
  predicate StepSupplied(st: Step, n: nat, s: Supply) {
    match st
    case Inject(at, tx, _) => at < n && Supplied(tx, s)
    case Deliver(m, _) => m.to < n && BodySupplied(m.body, s) && (m.body.VoteBody? ==> m.body.vote.pubkey < n)
  }

  lemma {:induction false} HandlerGain(links: Links, net: Net, st: Step, s: Supply)
    requires |links| == |net.nodes| && Enabled(net, st) && Different(s.labels) && StepSupplied(st, |links|, s)
    ensures var q := Target(st); Pays(net.nodes[q], Handle(links, net, st), |links[q]|, |links|, s.labels)
  {
    var q, n := Target(st), |links|;
    if st.Inject? {
      TxGain(links[q], q, net.nodes[q], q, st.tx, st.digest, n, s.labels);
    } else if st.msg.body.TxBody? {
      TxGain(links[q], q, net.nodes[q], st.msg.from, st.msg.body.tx, st.digest, n, s.labels);
    } else {
      VoteGain(links[q], q, net.nodes[q], st.msg.from, st.msg.body.vote, n, s.labels);
    }
  }

  // ---------- the limits hold in every run ----------

  predicate InjectsOnly(steps: seq<Step>, s: Supply) {
    forall i :: 0 <= i < |steps| && steps[i].Inject? ==> Supplied(steps[i].tx, s)
  }

  lemma EnabledIsSupplied(links: Links, net: Net, st: Step, s: Supply)
    requires Inv(links, net) && Enabled(net, st) && AllLimited(net, s) && (st.Inject? ==> Supplied(st.tx, s))
    ensures StepSupplied(st, |links|, s)
  {
    assert st.Deliver? ==> MsgOk(net.nodes, st.msg);
  }

  predicate AllSupplied(sent: seq<Msg>, s: Supply) {
    forall m :: m in sent ==> BodySupplied(m.body, s)
  }

  lemma BroadcastIsSupplied(peers: seq<nat>, me: nat, skip: set<nat>, body: Body, s: Supply)
    requires BodySupplied(body, s)
    ensures AllSupplied(Broadcast(peers, me, skip, body), s)
  {
    forall m | m in Broadcast(peers, me, skip, body) ensures m.body == body {
      BroadcastIs(peers, me, skip, body, m);
    }
  }

  lemma VoteIsSupplied(peers: seq<nat>, me: nat, node: Node, from: nat, v: Vote, s: Supply)
    requires Limited(node, s) && v.lbl in s.labels
    ensures var o := HandleVote(peers, me, node, from, v); Limited(o.node, s) && AllSupplied(o.sent, s)
  {
    BroadcastIsSupplied(peers, me, {from, v.pubkey}, VoteBody(v), s);
  }

  lemma TxIsSupplied(peers: seq<nat>, me: nat, node: Node, from: nat, tx: Tx, digest: Hash, s: Supply)
    requires Limited(node, s) && Supplied(tx, s)
    ensures var o := HandleTx(peers, me, node, from, tx, digest); Limited(o.node, s) && AllSupplied(o.sent, s)
  {
    if !Contains(node.wendy.txs, tx.hash) {
      var v, voted := NextVote(me, node, tx, digest), Voted(me, node, tx, digest);
      assert voted.wendy.txs == node.wendy.txs + [tx];
      VoteIsSupplied(peers, me, voted, me, v, s);
      BroadcastIsSupplied(peers, me, {from}, TxBody(tx), s);
    }
  }

  lemma HandlerKeepsLimited(links: Links, net: Net, st: Step, s: Supply)
    requires |links| == |net.nodes| && Enabled(net, st) && AllLimited(net, s) && StepSupplied(st, |links|, s)
    ensures var o := Handle(links, net, st); Limited(o.node, s) && AllSupplied(o.sent, s)
  {
    var q := Target(st);
    assert Limited(net.nodes[q], s);
    if st.Inject? {
      TxIsSupplied(links[q], q, net.nodes[q], q, st.tx, st.digest, s);
    } else if st.msg.body.TxBody? {
      TxIsSupplied(links[q], q, net.nodes[q], st.msg.from, st.msg.body.tx, st.digest, s);
    } else {
      VoteIsSupplied(links[q], q, net.nodes[q], st.msg.from, st.msg.body.vote, s);
    }
  }

  lemma StepKeepsLimited(links: Links, net: Net, st: Step, s: Supply)
    requires |links| == |net.nodes| && Enabled(net, st) && AllLimited(net, s) && StepSupplied(st, |links|, s)
    ensures AllLimited(Take(links, net, st), s)
  {
    var o := Handle(links, net, st);
    var net' := After(net, Target(st), o.node, Consumed(st), o.sent);
    HandlerKeepsLimited(links, net, st, s);
    forall m | m in net'.flight ensures BodySupplied(m.body, s) {
      assert m in o.sent || m in net.flight;
    }
  }

  lemma {:induction false} EveryRunLimited(links: Links, steps: seq<Step>, s: Supply)
    requires WellFormed(links) && InjectsOnly(steps, s)
    ensures AllLimited(Network(links, steps), s)
  {
    if steps == [] {
    } else {
      var n := |steps| - 1;
      EveryRunLimited(links, steps[..n], s);
      EveryRunInv(links, steps[..n]);
      var net := Network(links, steps[..n]);
      if Enabled(net, steps[n]) {
        EnabledIsSupplied(links, net, steps[n], s);
        StepKeepsLimited(links, net, steps[n], s);
      }
    }
  }

  // ---------- the measure ----------

  /** Room left at the first k nodes, weighted by how much each could send for it. */
  function Room(links: Links, nodes: seq<Node>, labels: seq<Label>, cap: int, k: nat): int
    requires k <= |links| == |nodes|
  {
    if k == 0 then 0
    else Room(links, nodes, labels, cap, k - 1) + (|links[k - 1]| + 1) * (cap - Load(nodes[k - 1], |links|, labels))
  }

  lemma {:induction false} RoomUpdate(links: Links, nodes: seq<Node>, labels: seq<Label>, cap: int, k: nat, q: nat, node: Node)
    requires k <= |links| == |nodes| && q < |nodes|
    ensures Room(links, nodes[q := node], labels, cap, k) ==
            Room(links, nodes, labels, cap, k) -
            if q < k then (|links[q]| + 1) * (Load(node, |links|, labels) - Load(nodes[q], |links|, labels)) else 0
  {
    if k == 0 {
    } else {
      RoomUpdate(links, nodes, labels, cap, k - 1, q, node);
      var w, x, y := |links[k - 1]| + 1, Load(nodes[k - 1], |links|, labels), Load(node, |links|, labels);
      if q == k - 1 {
        assert nodes[q := node][k - 1] == node;
        Distribute(w, cap, x, y);
      } else {
        assert nodes[q := node][k - 1] == nodes[k - 1];
      }
    }
  }

  lemma Distribute(w: int, cap: int, x: int, y: int)
    ensures w * (cap - y) == w * (cap - x) - w * (y - x)
  {
  }

  lemma {:induction false} RoomLeft(links: Links, nodes: seq<Node>, labels: seq<Label>, cap: nat, k: nat)
    requires k <= |links| == |nodes|
    requires forall n :: 0 <= n < |nodes| ==> Load(nodes[n], |links|, labels) <= cap
    ensures Room(links, nodes, labels, cap, k) >= 0
  {
    if k == 0 {
    } else {
      RoomLeft(links, nodes, labels, cap, k - 1);
      assert (|links[k - 1]| + 1) * (cap - Load(nodes[k - 1], |links|, labels)) >= 0;
    }
  }

  function Measure(links: Links, net: Net, labels: seq<Label>, cap: int): int
    requires |links| == |net.nodes|
  {
    Room(links, net.nodes, labels, cap, |links|) + |net.flight|
  }

  lemma MeasureAfter(links: Links, net: Net, q: nat, node: Node, consumed: multiset<Msg>, sent: seq<Msg>, labels: seq<Label>, cap: int)
    requires |links| == |net.nodes| && q < |links| && consumed <= net.flight
    requires PaidFor(Load(node, |links|, labels) - Load(net.nodes[q], |links|, labels), |links[q]|, |sent|)
    ensures Measure(links, After(net, q, node, consumed, sent), labels, cap) <= Measure(links, net, labels, cap) - |consumed|
  {
    RoomUpdate(links, net.nodes, labels, cap, |links|, q, node);
    GainPaysForSending(|links[q]|, Load(node, |links|, labels) - Load(net.nodes[q], |links|, labels), |sent|);
    FlightSize(net.flight, consumed, sent);
  }

  /** Every delivery lowers the measure; no step raises it. */
  lemma MeasureFalls(links: Links, net: Net, st: Step, s: Supply, cap: int)
    requires |links| == |net.nodes| && Enabled(net, st) && Different(s.labels) && StepSupplied(st, |links|, s)
    ensures Measure(links, Take(links, net, st), s.labels, cap) <= Measure(links, net, s.labels, cap) - |Consumed(st)|
  {
    var o := Handle(links, net, st);
    HandlerGain(links, net, st, s);
    MeasureAfter(links, net, Target(st), o.node, Consumed(st), o.sent, s.labels, cap);
  }

  lemma GainPaysForSending(degree: nat, gain: nat, sent: nat)
    requires sent <= gain * degree
    ensures sent <= (degree + 1) * gain
  {
  }

  lemma FlightSize(flight: multiset<Msg>, consumed: multiset<Msg>, sent: seq<Msg>)
    requires consumed <= flight
    ensures |flight - consumed + multiset(sent)| == |flight| - |consumed| + |sent|
  {
  }

  /** The messages handled in a run. */
  function Deliveries(links: Links, steps: seq<Step>): nat {
    if steps == [] then 0
    else
      var n := |steps| - 1;
      Deliveries(links, steps[..n]) +
      if steps[n].Deliver? && Enabled(Network(links, steps[..n]), steps[n]) then 1 else 0
  }

  lemma {:induction false} DeliveriesPlusMeasure(links: Links, steps: seq<Step>, s: Supply, cap: int)
    requires WellFormed(links) && Different(s.labels) && InjectsOnly(steps, s)
    ensures Deliveries(links, steps) + Measure(links, Network(links, steps), s.labels, cap) <=
            Measure(links, Start(|links|), s.labels, cap)
  {
    if steps == [] {
    } else {
      var n := |steps| - 1;
      DeliveriesPlusMeasure(links, steps[..n], s, cap);
      EveryRunInv(links, steps[..n]);
      EveryRunLimited(links, steps[..n], s);
      var net := Network(links, steps[..n]);
      if Enabled(net, steps[n]) {
        EnabledIsSupplied(links, net, steps[n], s);
        MeasureFalls(links, net, steps[n], s, cap);
      }
    }
  }

  lemma {:induction false} EmptyRoom(links: Links, nodes: seq<Node>, labels: seq<Label>, cap: nat, k: nat)
    requires k <= |links| == |nodes|
    requires forall n :: 0 <= n < |nodes| ==> Load(nodes[n], |links|, labels) == 0
    ensures Room(links, nodes, labels, cap, k) == (LinkCount(links, k) + k) * cap
  {
    if k == 0 {
    } else {
      EmptyRoom(links, nodes, labels, cap, k - 1);
      var w := LinkCount(links, k - 1) + (k - 1);
      assert w * cap + (|links[k - 1]| + 1) * cap == (w + |links[k - 1]| + 1) * cap;
    }
  }

  function LinkCount(links: Links, k: nat): nat
    requires k <= |links|
  {
    if k == 0 then 0 else LinkCount(links, k - 1) + |links[k - 1]|
  }

  lemma {:induction false} NothingHeld(node: Node, n: nat, labels: seq<Label>)
    requires forall a: nat, l :: BucketOf(node, a, l).votes == []
    ensures VotesHeld(node, n, labels) == 0
  {
    VotesHeldBound(node, n, labels, 0);
  }

  lemma {:induction false} StartMeasure(links: Links, labels: seq<Label>, cap: nat)
    ensures Measure(links, Start(|links|), labels, cap) == (LinkCount(links, |links|) + |links|) * cap
  {
    var start := Start(|links|);
    forall n | 0 <= n < |links| ensures Load(start.nodes[n], |links|, labels) == 0 {
      NothingHeld(start.nodes[n], |links|, labels);
    }
    EmptyRoom(links, start.nodes, labels, cap, |links|);
  }

  lemma {:induction false} MeasureStaysAbove(links: Links, steps: seq<Step>, s: Supply)
    requires WellFormed(links) && InjectsOnly(steps, s)
    ensures Measure(links, Network(links, steps), s.labels, Capacity(|links|, |s.labels|, |s.hashes|)) >= 0
  {
    var cap, net := Capacity(|links|, |s.labels|, |s.hashes|), Network(links, steps);
    EveryRunInv(links, steps);
    EveryRunListsOk(links, steps);
    EveryRunLimited(links, steps, s);
    forall n | 0 <= n < |links| ensures Load(net.nodes[n], |links|, s.labels) <= cap {
      LoadBound(links, net, n, s);
    }
    RoomLeft(links, net.nodes, s.labels, cap, |links|);
  }

  /**
   Termination: whatever the topology and the order of deliveries, a run into
   which t different transactions of k labels are injected handles at most
   (links + nodes) * (t + nodes * k * t (t + 1) / 2) messages, transactions and votes together.
   */
  lemma {:induction false} FloodingEnds(links: Links, steps: seq<Step>, s: Supply)
    requires WellFormed(links) && Different(s.labels) && InjectsOnly(steps, s)
    ensures Deliveries(links, steps) <=
            (LinkCount(links, |links|) + |links|) * Capacity(|links|, |s.labels|, |s.hashes|)
  {
    var cap := Capacity(|links|, |s.labels|, |s.hashes|);
    MeasureStaysAbove(links, steps, s);
    DeliveriesPlusMeasure(links, steps, s, cap);
    StartMeasure(links, s.labels, cap);
  }
}
