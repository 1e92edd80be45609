/** How a block is filled from the blocker lists under the two limits. */
module BlockFilling {
  import opened Types
  import opened PendingTxs

  /** A limit that is not positive means no limit. */
  datatype Options = Options(txLimit: int, maxBlockSize: int)

  /** The block so far and the bytes charged so far. */
  datatype Fill = Fill(block: seq<Tx>, size: nat)

  predicate LimitReached(o: Options, f: Fill) {
    o.txLimit > 0 && |f.block| == o.txLimit
  }

  function Charge(o: Options, size: nat, tx: Tx): nat {
    if o.maxBlockSize > 0 then size + |tx.bytes| else size
  }

  predicate TooBig(o: Options, size: nat) {
    o.maxBlockSize > 0 && size > o.maxBlockSize
  }

  /** One list, from position k on: stop at a limit, else charge the transaction and push it. */
  function FillFrom(list: seq<Tx>, k: nat, o: Options, f: Fill): Fill
    requires k <= |list|
    decreases |list| - k
  {
    if k == |list| || LimitReached(o, f) then f
    else
      var size := Charge(o, f.size, list[k]);
      if TooBig(o, size) then f.(size := size)
      else FillFrom(list, k + 1, o, Fill(Pushed(f.block, list[k]), size))
  }

  predicate Fits(sizes: seq<nat>, n: nat) {
    forall i :: 0 <= i < |sizes| ==> sizes[i] <= n
  }

  /** All lists in turn; the list of the i-th transaction is the first sizes[i] pending ones. */
  function FillAll(txs: seq<Tx>, sizes: seq<nat>, o: Options): Fill
    requires Fits(sizes, |txs|)
  {
    if sizes == [] then Fill([], 0)
    else FillFrom(txs[..sizes[|sizes| - 1]], 0, o, FillAll(txs, sizes[..|sizes| - 1], o))
  }

  lemma FillAllSnoc(txs: seq<Tx>, sizes: seq<nat>, i: nat, o: Options)
    requires Fits(sizes, |txs|) && i < |sizes|
    ensures FillAll(txs, sizes[..i + 1], o) == FillFrom(txs[..sizes[i]], 0, o, FillAll(txs, sizes[..i], o))
  {
    assert sizes[..i + 1][..i] == sizes[..i];
  }

  function Bytes(txs: seq<Tx>): nat {
    if txs == [] then 0 else Bytes(txs[..|txs| - 1]) + |txs[|txs| - 1].bytes|
  }

  function TotalCharge(txs: seq<Tx>, sizes: seq<nat>): nat
    requires Fits(sizes, |txs|)
  {
    if sizes == [] then 0
    else TotalCharge(txs, sizes[..|sizes| - 1]) + Bytes(txs[..sizes[|sizes| - 1]])
  }

  function Max(a: nat, b: nat): nat {
    if a < b then b else a
  }

  function MaxOf(sizes: seq<nat>): (m: nat)
    ensures forall i :: 0 <= i < |sizes| ==> sizes[i] <= m
    ensures m == 0 || m in sizes
  {
    if sizes == [] then 0 else Max(MaxOf(sizes[..|sizes| - 1]), sizes[|sizes| - 1])
  }

  function Capped(o: Options, n: nat): nat {
    if 0 < o.txLimit < n then o.txLimit else n
  }

  // ---------- what every fill keeps ----------

  /** A prefix of the pending list, within both limits. */
  predicate Sound(txs: seq<Tx>, o: Options, f: Fill) {
    && f.block <= txs
    && (o.txLimit > 0 ==> |f.block| <= o.txLimit)
    && (o.maxBlockSize > 0 ==> Bytes(f.block) <= o.maxBlockSize && Bytes(f.block) <= f.size)
  }

  lemma BytesSnoc(txs: seq<Tx>, len: nat)
    requires len < |txs|
    ensures Bytes(txs[..len + 1]) == Bytes(txs[..len]) + |txs[len].bytes|
  {
    assert txs[..len + 1][..len] == txs[..len];
  }

  /** One push keeps the fill sound. */
  lemma PushKeepsSound(txs: seq<Tx>, k: nat, o: Options, f: Fill)
    requires Distinct(txs) && Sound(txs, o, f) && k <= |f.block| && k < |txs|
    requires !LimitReached(o, f) && !TooBig(o, Charge(o, f.size, txs[k]))
    ensures var f' := Fill(Pushed(f.block, txs[k]), Charge(o, f.size, txs[k]));
            Sound(txs, o, f') && |f'.block| == Max(|f.block|, k + 1)
  {
  }

  /**
   Filling from one list: it stays sound, and unless the byte limit stopped it
   the block is as long as the longer of itself and the list, up to TxLimit.
   */
  lemma {:induction false} FillFromResult(txs: seq<Tx>, d: nat, k: nat, o: Options, f: Fill)
    requires Distinct(txs) && Sound(txs, o, f) && k <= d <= |txs| && k <= |f.block|
    ensures var r := FillFrom(txs[..d], k, o, f);
            && Sound(txs, o, r)
            && r.size >= f.size
            && r.size + Bytes(txs[..k]) <= f.size + Bytes(txs[..d])
            && (TooBig(o, r.size) || |r.block| == Capped(o, Max(|f.block|, d)))
    decreases d - k
  {
    BytesMonotone(txs, k, d);
    if k == d || LimitReached(o, f) {
    } else {
      assert txs[..d][k] == txs[k];
      var size := Charge(o, f.size, txs[k]);
      BytesSnoc(txs, k);
      BytesMonotone(txs, k + 1, d);
      if !TooBig(o, size) {
        PushKeepsSound(txs, k, o, f);
        FillFromResult(txs, d, k + 1, o, Fill(Pushed(f.block, txs[k]), size));
      }
    }
  }

  lemma {:induction false} BytesMonotone(txs: seq<Tx>, k: nat, d: nat)
    requires k <= d <= |txs|
    ensures Bytes(txs[..k]) <= Bytes(txs[..d])
    decreases d - k
  {
    if k == d {
    } else {
      BytesSnoc(txs, d - 1);
      BytesMonotone(txs, k, d - 1);
    }
  }

  lemma {:induction false} FillAllResult(txs: seq<Tx>, sizes: seq<nat>, o: Options)
    requires Distinct(txs) && Fits(sizes, |txs|)
    ensures var r := FillAll(txs, sizes, o);
            && Sound(txs, o, r)
            && r.size <= TotalCharge(txs, sizes)
            && (TooBig(o, r.size) || |r.block| == Capped(o, MaxOf(sizes)))
  {
    if sizes == [] {
    } else {
      var n := |sizes| - 1;
      FillAllResult(txs, sizes[..n], o);
      FillFromResult(txs, sizes[n], 0, o, FillAll(txs, sizes[..n], o));
    }
  }

  /** Any options: a duplicate-free prefix of the pending list within both limits. */
  lemma BlockWithinLimits(txs: seq<Tx>, sizes: seq<nat>, o: Options)
    requires Distinct(txs) && Fits(sizes, |txs|)
    ensures var block := FillAll(txs, sizes, o).block;
            && block <= txs && Distinct(block)
            && (o.txLimit > 0 ==> |block| <= o.txLimit)
            && (o.maxBlockSize > 0 ==> Bytes(block) <= o.maxBlockSize)
  {
    FillAllResult(txs, sizes, o);
  }

  // ---------- exactly when the byte limit cuts the block ----------

  /** The block only grows, and not beyond the list. */
  lemma {:induction false} FillFromGrows(txs: seq<Tx>, d: nat, k: nat, o: Options, f: Fill)
    requires Distinct(txs) && Sound(txs, o, f) && k <= d <= |txs| && k <= |f.block|
    ensures |f.block| <= |FillFrom(txs[..d], k, o, f).block| <= Max(|f.block|, d)
    decreases d - k
  {
    if k == d || LimitReached(o, f) {
    } else {
      assert txs[..d][k] == txs[k];
      var size := Charge(o, f.size, txs[k]);
      if !TooBig(o, size) {
        PushKeepsSound(txs, k, o, f);
        FillFromGrows(txs, d, k + 1, o, Fill(Pushed(f.block, txs[k]), size));
      }
    }
  }

  /** Once more bytes are charged than the limit allows, nothing is taken any more. */
  lemma TooBigStays(list: seq<Tx>, o: Options, f: Fill)
    requires TooBig(o, f.size)
    ensures var r := FillFrom(list, 0, o, f); r.block == f.block && TooBig(o, r.size)
  {
  }

  function Min(a: nat, b: nat): nat {
    if a < b then a else b
  }

  /** The fill has reached position k of a list of d transactions, and the block has not gone beyond t. */
  predicate Filling(txs: seq<Tx>, d: nat, k: nat, o: Options, f: Fill, t: nat) {
    && Distinct(txs) && Sound(txs, o, f) && k <= d <= |txs| && k <= |f.block| && k <= t
    && o.maxBlockSize > 0 && !TooBig(o, f.size) && (o.txLimit > 0 ==> t <= o.txLimit)
    && (|f.block| < t || k == t == |f.block|)
  }

  function Next(txs: seq<Tx>, k: nat, f: Fill): Fill
    requires k < |txs|
  {
    Fill(Pushed(f.block, txs[k]), f.size + |txs[k].bytes|)
  }

  lemma FillFromStep(txs: seq<Tx>, d: nat, k: nat, o: Options, f: Fill, t: nat)
    requires Filling(txs, d, k, o, f, t) && k < d && k < t
    ensures var f' := Next(txs, k, f);
            if f'.size > o.maxBlockSize then FillFrom(txs[..d], k, o, f) == f.(size := f'.size)
            else
              && Filling(txs, d, k + 1, o, f', t)
              && FillFrom(txs[..d], k, o, f) == FillFrom(txs[..d], k + 1, o, f')
  {
    assert txs[..d][k] == txs[k];
    assert !LimitReached(o, f);
    if f.size + |txs[k].bytes| <= o.maxBlockSize {
      PushKeepsSound(txs, k, o, f);
    }
  }

  /** The block reaches t if the list is that long, else the list is charged in full; or it was too much. */
  predicate Lands(o: Options, size: int, r: Fill, d: nat, t: nat) {
    if size > o.maxBlockSize then TooBig(o, r.size) && |r.block| < t
    else if t <= d then |r.block| >= t
    else r.size == size && |r.block| < t
  }

  function BytesBetween(txs: seq<Tx>, k: nat, e: nat): nat
    requires k <= e <= |txs|
    decreases e - k
  {
    if k == e then 0 else |txs[k].bytes| + BytesBetween(txs, k + 1, e)
  }

  lemma {:induction false} BytesSplit(txs: seq<Tx>, k: nat, e: nat)
    requires k <= e <= |txs|
    ensures Bytes(txs[..k]) + BytesBetween(txs, k, e) == Bytes(txs[..e])
    decreases e - k
  {
    if k == e {
    } else {
      BytesSnoc(txs, k);
      BytesSplit(txs, k + 1, e);
    }
  }

  predicate LandsFrom(txs: seq<Tx>, d: nat, k: nat, o: Options, f: Fill, t: nat)
    requires k <= Min(d, t) && d <= |txs|
  {
    Lands(o, f.size + BytesBetween(txs, k, Min(d, t)), FillFrom(txs[..d], k, o, f), d, t)
  }

  lemma LandsAtOnce(txs: seq<Tx>, d: nat, k: nat, o: Options, f: Fill, t: nat)
    requires Filling(txs, d, k, o, f, t) && k == Min(d, t)
    ensures LandsFrom(txs, d, k, o, f, t)
  {
    FillFromGrows(txs, d, k, o, f);
  }

  /** One list while the block is still shorter than t: charged in full up to t, or too big. */
  lemma {:induction false} FillFromExact(txs: seq<Tx>, d: nat, k: nat, o: Options, f: Fill, t: nat)
    requires Filling(txs, d, k, o, f, t)
    ensures LandsFrom(txs, d, k, o, f, t)
    decreases d - k
  {
    if k == Min(d, t) {
      LandsAtOnce(txs, d, k, o, f, t);
    } else {
      FillFromStep(txs, d, k, o, f, t);
      if f.size + |txs[k].bytes| > o.maxBlockSize {
        LandsTooBig(txs, d, k, o, f, t);
      } else {
        FillFromExact(txs, d, k + 1, o, Next(txs, k, f), t);
        LandsNext(txs, d, k, o, f, t);
      }
    }
  }

  lemma LandsNext(txs: seq<Tx>, d: nat, k: nat, o: Options, f: Fill, t: nat)
    requires k < Min(d, t) <= |txs| && d <= |txs|
    requires FillFrom(txs[..d], k, o, f) == FillFrom(txs[..d], k + 1, o, Next(txs, k, f))
    requires LandsFrom(txs, d, k + 1, o, Next(txs, k, f), t)
    ensures LandsFrom(txs, d, k, o, f, t)
  {
  }

  lemma LandsTooBig(txs: seq<Tx>, d: nat, k: nat, o: Options, f: Fill, t: nat)
    requires k < Min(d, t) <= |txs| && d <= |txs| && |f.block| < t && o.maxBlockSize > 0
    requires f.size + |txs[k].bytes| > o.maxBlockSize
    requires FillFrom(txs[..d], k, o, f) == f.(size := f.size + |txs[k].bytes|)
    ensures LandsFrom(txs, d, k, o, f, t)
  {
  }

  /** Position of the first list of at least t transactions, or the number of lists. */
  function FirstReaching(sizes: seq<nat>, t: nat): (i: nat)
    ensures i <= |sizes| && (i < |sizes| ==> sizes[i] >= t)
    ensures forall j :: 0 <= j < i ==> sizes[j] < t
  {
    if sizes == [] || sizes[0] >= t then 0 else 1 + FirstReaching(sizes[1..], t)
  }

  /** Bytes charged when the block has just reached t transactions: every earlier list in full, and the block. */
  function ChargeToReach(txs: seq<Tx>, sizes: seq<nat>, t: nat): nat
    requires Fits(sizes, |txs|) && t <= |txs|
  {
    TotalCharge(txs, sizes[..FirstReaching(sizes, t)]) + Bytes(txs[..t])
  }

  /** What the lists so far have led to, with t still to be reached or reached. */
  predicate Progress(txs: seq<Tx>, sizes: seq<nat>, o: Options, t: nat)
    requires Fits(sizes, |txs|) && t <= |txs|
  {
    var r := FillAll(txs, sizes, o);
    if FirstReaching(sizes, t) < |sizes| then
      if ChargeToReach(txs, sizes, t) <= o.maxBlockSize then |r.block| >= t
      else TooBig(o, r.size) && |r.block| < t
    else
      && |r.block| < t
      && if TotalCharge(txs, sizes) <= o.maxBlockSize then r.size == TotalCharge(txs, sizes) else TooBig(o, r.size)
  }

  lemma {:induction false} EveryListProgresses(txs: seq<Tx>, sizes: seq<nat>, o: Options, t: nat)
    requires Distinct(txs) && Fits(sizes, |txs|) && o.maxBlockSize > 0 && 0 < t <= |txs|
    requires o.txLimit > 0 ==> t <= o.txLimit
    ensures Progress(txs, sizes, o, t)
  {
    if sizes == [] {
    } else {
      var n := |sizes| - 1;
      EveryListProgresses(txs, sizes[..n], o, t);
      ListProgresses(txs, sizes, o, t);
    }
  }

  lemma {:induction false} ListProgresses(txs: seq<Tx>, sizes: seq<nat>, o: Options, t: nat)
    requires Distinct(txs) && Fits(sizes, |txs|) && o.maxBlockSize > 0 && 0 < t <= |txs|
    requires sizes != [] && (o.txLimit > 0 ==> t <= o.txLimit)
    requires Progress(txs, sizes[..|sizes| - 1], o, t)
    ensures Progress(txs, sizes, o, t)
  {
    var n := |sizes| - 1;
    var earlier, d := sizes[..n], sizes[n];
    var f := FillAll(txs, earlier, o);
    FillAllResult(txs, earlier, o);
    ChargeSnoc(txs, sizes, t);
    if TooBig(o, f.size) && |f.block| < t {
      TooBigStays(txs[..d], o, f);
    } else if |f.block| >= t {
      FillFromGrows(txs, d, 0, o, f);
    } else {
      BytesSplit(txs, 0, Min(d, t));
      FillFromExact(txs, d, 0, o, f, t);
    }
  }

  lemma ChargeSnoc(txs: seq<Tx>, sizes: seq<nat>, t: nat)
    requires sizes != [] && Fits(sizes, |txs|) && t <= |txs|
    ensures var n := |sizes| - 1;
            var earlier, d := sizes[..n], sizes[n];
            && (FirstReaching(sizes, t) < |sizes| <==> FirstReaching(earlier, t) < n || d >= t)
            && (FirstReaching(earlier, t) < n ==> ChargeToReach(txs, sizes, t) == ChargeToReach(txs, earlier, t))
            && (FirstReaching(earlier, t) == n && d >= t ==>
                  ChargeToReach(txs, sizes, t) == TotalCharge(txs, earlier) + Bytes(txs[..t]))
            && TotalCharge(txs, sizes) == TotalCharge(txs, earlier) + Bytes(txs[..d])
  {
    var n := |sizes| - 1;
    var earlier, d, i := sizes[..n], sizes[n], FirstReaching(sizes, t);
    FirstReachingSnoc(earlier, d, t);
    assert sizes == earlier + [d];
    assert i <= n ==> sizes[..i] == earlier[..i];
    assert earlier[..n] == earlier;
  }

  lemma FirstReachingSnoc(sizes: seq<nat>, d: nat, t: nat)
    ensures var i := FirstReaching(sizes, t);
            FirstReaching(sizes + [d], t) == if i < |sizes| || d >= t then i else |sizes| + 1
  {
    var i, i' := FirstReaching(sizes, t), FirstReaching(sizes + [d], t);
    assert forall j :: 0 <= j < |sizes| ==> (sizes + [d])[j] == sizes[j];
    assert (sizes + [d])[|sizes|] == d;
  }

  /**
   The exact block, for all options: a prefix of the pending list that takes in
   t transactions, up to the longest list and TxLimit, exactly when the byte
   limit covers what is charged on the way there: every list before the first
   one that long, and then the t transactions themselves.
   */
  lemma BlockReachesIff(txs: seq<Tx>, sizes: seq<nat>, o: Options, t: nat)
    requires Distinct(txs) && Fits(sizes, |txs|) && t <= Capped(o, MaxOf(sizes))
    ensures t <= |txs|
    ensures var block := FillAll(txs, sizes, o).block;
            && block <= txs && |block| <= Capped(o, MaxOf(sizes))
            && (|block| >= t <==> o.maxBlockSize <= 0 || ChargeToReach(txs, sizes, t) <= o.maxBlockSize)
  {
    FillAllResult(txs, sizes, o);
    BlockBound(txs, sizes, o);
    if t == 0 {
      assert txs[..0] == [] && sizes[..0] == [];
      assert FirstReaching(sizes, 0) == 0;
    } else if o.maxBlockSize > 0 {
      EveryListProgresses(txs, sizes, o, t);
      assert FirstReaching(sizes, t) < |sizes|;
    }
  }

  lemma {:induction false} BlockBound(txs: seq<Tx>, sizes: seq<nat>, o: Options)
    requires Distinct(txs) && Fits(sizes, |txs|)
    ensures |FillAll(txs, sizes, o).block| <= MaxOf(sizes) <= |txs|
  {
    if sizes == [] {
    } else {
      var n := |sizes| - 1;
      BlockBound(txs, sizes[..n], o);
      FillAllResult(txs, sizes[..n], o);
      FillFromGrows(txs, sizes[n], 0, o, FillAll(txs, sizes[..n], o));
    }
  }

  /** In particular, when the block is the longest list cut at TxLimit. */
  lemma BlockLengthIff(txs: seq<Tx>, sizes: seq<nat>, o: Options)
    requires Distinct(txs) && Fits(sizes, |txs|)
    ensures MaxOf(sizes) <= |txs|
    ensures var t := Capped(o, MaxOf(sizes));
            FillAll(txs, sizes, o).block == txs[..t] <==>
            o.maxBlockSize <= 0 || ChargeToReach(txs, sizes, t) <= o.maxBlockSize
  {
    BlockReachesIff(txs, sizes, o, Capped(o, MaxOf(sizes)));
    BlockBound(txs, sizes, o);
  }

  /** Two transactions, the first in both lists: the limit covers them, and the block stops before the second. */
  lemma {:induction false} SecondListIsCut(txs: seq<Tx>, sizes: seq<nat>, o: Options)
    requires Distinct(txs) && |txs| == 2 && |txs[0].bytes| > 0
    requires |sizes| == 2 && sizes[0] == 1 && sizes[1] == 2
    requires o.txLimit == 0 && o.maxBlockSize == Bytes(txs)
    ensures Fits(sizes, 2) && FillAll(txs, sizes, o).block == txs[..1]
  {
    assert sizes[..1] == [1] && [1][..0] == [] && txs[..2] == txs;
    BytesSnoc(txs, 0);
    BytesSnoc(txs, 1);
    assert txs[..0] == [];
    assert MaxOf(sizes) == 2;
    BlockReachesIff(txs, sizes, o, 1);
    assert FirstReaching(sizes, 1) == 0 && sizes[..0] == [];
    BlockReachesIff(txs, sizes, o, 2);
    assert FirstReaching(sizes, 2) == 1;
    assert TotalCharge(txs, [1]) == Bytes(txs[..1]);
  }

  /** With the second list holding the first one, the first transaction is charged twice: a pending list that fits is cut. */
  lemma ChargedTwice(a: Tx, b: Tx)
    requires a.hash != b.hash && |a.bytes| > 0
    ensures var txs, o := [a, b], Options(0, |a.bytes| + |b.bytes|);
            Bytes(txs) <= o.maxBlockSize && FillAll(txs, [1, 2], o).block == [a]
  {
    var txs := [a, b];
    assert txs[..0] == [] && txs[..1] == [a] && txs[..2] == txs;
    BytesSnoc(txs, 0);
    BytesSnoc(txs, 1);
    SecondListIsCut(txs, [1, 2], Options(0, |a.bytes| + |b.bytes|));
  }
}
