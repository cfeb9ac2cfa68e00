/**
 The state of a uthash table as a value, and the effect of each table operation on it.
 The class in UtHash.dfy is proved to compute exactly these functions on its linked
 structure; everything proved here therefore holds of every table the program can reach.
 */
module TableSpec {
  import opened Bits
  import opened Seqs

  const INITIAL_LOG2: nat := 5
  const CAPACITY_THRESH: nat := 10

  /** `items` is application order; `chains[b]` is bucket `b` from `hh_head` on.
      A bucket's `count` is the length of its chain. */
  datatype Tbl<X> =
    | NoTable
    | Tbl(items: seq<X>, log2: nat, chains: seq<seq<X>>, mults: seq<nat>,
          ideal: nat, nonideal: nat, ineff: nat, noexpand: bool)

  ghost function Items<X>(t: Tbl<X>): seq<X> {
    if t.NoTable? then [] else t.items
  }

  ghost function Lengths<X>(chains: seq<seq<X>>): (r: seq<nat>)
    ensures |r| == |chains|
  {
    seq(|chains|, i requires 0 <= i < |chains| => |chains[i]|)
  }

  /** How many items of a chain sit past the ideal length. */
  function Past(len: nat, ideal: nat): nat {
    if len > ideal then len - ideal else 0
  }

  ghost function Excess<X>(chains: seq<seq<X>>, ideal: nat): (r: seq<nat>)
    ensures |r| == |chains|
  {
    seq(|chains|, i requires 0 <= i < |chains| => Past(|chains[i]|, ideal))
  }

  /** How long each chain may be without a further addition to it triggering an expansion. */
  ghost function Capacity<X>(chains: seq<seq<X>>, mults: seq<nat>): (r: seq<nat>)
    requires |chains| == |mults|
    ensures |r| == |chains|
  {
    seq(|chains|, i requires 0 <= i < |chains| =>
          Larger(|chains[i]|, CAPACITY_THRESH * (mults[i] + 1) - 1))
  }

  function Larger(a: nat, b: nat): nat {
    if a > b then a else b
  }

  /** The bucket, of `n`, that `x` belongs in. */
  ghost function Slot<X>(h: X -> nat, x: X, n: nat): (b: nat)
    requires n > 0
    ensures b < n
  {
    h(x) % n
  }

  // ----- the representation invariant, as HASH_FSCK checks it

  ghost predicate ChainWf<X>(c: seq<X>, b: nat, items: seq<X>, n: nat, h: X -> nat)
    requires n > 0
  {
    && NoDup(c)
    && forall x | x in c :: x in items && Slot(h, x, n) == b
  }

  /** Each chain holds, without repetition, only items that hash to its bucket. */
  ghost predicate Chained<X>(chains: seq<seq<X>>, items: seq<X>, h: X -> nat) {
    forall b | 0 <= b < |chains| :: ChainWf(chains[b], b, items, |chains|, h)
  }

  /** Each item is in the chain of the bucket it hashes to. */
  ghost predicate Covered<X>(chains: seq<seq<X>>, items: seq<X>, h: X -> nat)
    requires |chains| > 0
  {
    forall x | x in items :: x in chains[Slot(h, x, |chains|)]
  }

  ghost predicate Wf<X>(t: Tbl<X>, h: X -> nat) {
    t.Tbl? ==>
      && t.items != []
      && NoDup(t.items)
      && |t.chains| == |t.mults| == Pow2(t.log2)
      && t.log2 >= INITIAL_LOG2
      && Chained(t.chains, t.items, h)
      && Covered(t.chains, t.items, h)
      && Sum(Lengths(t.chains)) == |t.items|
  }

  /** The load bound: the capacities granted so far never exceed 19 per bucket. */
  ghost predicate LoadOk<X>(t: Tbl<X>)
    requires t.Tbl? ==> |t.chains| == |t.mults|
  {
    t.Tbl? && !t.noexpand ==> Sum(Capacity(t.chains, t.mults)) <= 19 * |t.chains|
  }

  // ----- operations

  ghost function MakeTable<X>(): Tbl<X> {
    var n := Pow2(INITIAL_LOG2);
    Tbl([], INITIAL_LOG2, seq(n, i => []), seq(n, i => 0), 0, 0, 0, false)
  }

  /** Link `x` at the end of the application list and at the head of its bucket. */
  ghost function Link<X>(t: Tbl<X>, x: X, h: X -> nat): Tbl<X>
    requires t.Tbl? && |t.chains| > 0
  {
    var b := Slot(h, x, |t.chains|);
    t.(items := t.items + [x], chains := t.chains[b := [x] + t.chains[b]])
  }

  ghost predicate Triggers<X>(t: Tbl<X>, b: nat)
    requires t.Tbl? && b < |t.chains| == |t.mults|
  {
    |t.chains[b]| >= (t.mults[b] + 1) * CAPACITY_THRESH && !t.noexpand
  }

  ghost function Add<X>(t: Tbl<X>, x: X, h: X -> nat): Tbl<X>
    requires t.Tbl? ==> |t.chains| == |t.mults| > 0
  {
    var t0 := if t.NoTable? then MakeTable() else t;
    var t1 := Link(t0, x, h);
    if Triggers(t1, Slot(h, x, |t0.chains|)) then Expand(t1, h) else t1
  }

  ghost function Delete<X>(t: Tbl<X>, x: X, h: X -> nat): Tbl<X>
    requires t.Tbl? ==> |t.chains| > 0
  {
    if t.NoTable? then t
    else if |t.items| <= 1 then NoTable
    else
      var b := Slot(h, x, |t.chains|);
      t.(items := Remove(t.items, x), chains := t.chains[b := Remove(t.chains[b], x)])
  }

  /** Elements of the old chain `c` that land in new bucket `b` of `m`; each is pushed on the front. */
  ghost function Rehash<X>(c: seq<X>, b: nat, m: nat, h: X -> nat): seq<X>
    requires m > 0
  {
    if c == [] then []
    else
      var x := c[|c| - 1];
      var r := Rehash(c[..|c| - 1], b, m, h);
      if Slot(h, x, m) == b then [x] + r else r
  }

  ghost function NewChains<X>(chains: seq<seq<X>>, h: X -> nat): (r: seq<seq<X>>)
    requires |chains| > 0
    ensures |r| == |chains| + |chains|
    ensures forall b | 0 <= b < |r| :: r[b] == Rehash(chains[b % |chains|], b, |chains| + |chains|, h)
  {
    seq(|chains| + |chains|, b requires 0 <= b < |chains| + |chains| =>
          Rehash(chains[b % |chains|], b, |chains| + |chains|, h))
  }

  lemma NewChainAt<X>(chains: seq<seq<X>>, h: X -> nat, a: nat)
    requires a < |chains|
    ensures NewChains(chains, h)[a] == Rehash(chains[a], a, |chains| + |chains|, h)
    ensures NewChains(chains, h)[a + |chains|] == Rehash(chains[a], a + |chains|, |chains| + |chains|, h)
  {
    var n := |chains|;
    DivModUnique(a, n, 0, a);
    DivModUnique(a + n, n, 1, a);
  }

  /** The smallest chain length that lets `m` buckets hold `n` items. */
  function IdealLength(n: nat, m: nat): (r: nat)
    requires m > 0
  {
    n / m + (if n % m != 0 then 1 else 0)
  }

  function MultOf(len: nat, ideal: nat): nat {
    if len > ideal && ideal > 0 then len / ideal else 0
  }

  ghost function NewMults<X>(chains: seq<seq<X>>, ideal: nat): (r: seq<nat>)
    ensures |r| == |chains|
  {
    seq(|chains|, i requires 0 <= i < |chains| => MultOf(|chains[i]|, ideal))
  }

  ghost function Expand<X>(t: Tbl<X>, h: X -> nat): Tbl<X>
    requires t.Tbl? && |t.chains| > 0
  {
    var chains := NewChains(t.chains, h);
    var ideal := IdealLength(|t.items|, |chains|);
    var nonideal := Sum(Excess(chains, ideal));
    var ineff := if nonideal > |t.items| / 2 then t.ineff + 1 else 0;
    Tbl(t.items, t.log2 + 1, chains, NewMults(chains, ideal), ideal, nonideal, ineff,
        t.noexpand || ineff > 1)
  }

  // ----- the shift-and-mask formula of HASH_EXPAND_BUCKETS

  /** The C expression for the ideal chain length is the exact ceiling of n / 2^k. */
  lemma IdealByShiftAndMask(n: nat, k: nat)
    ensures ShiftRight(n, k) + (if BitAnd(n, Pow2(k) - 1) != 0 then 1 else 0) == IdealLength(n, Pow2(k))
    ensures n <= IdealLength(n, Pow2(k)) * Pow2(k)
    ensures forall m: nat :: n <= m * Pow2(k) ==> IdealLength(n, Pow2(k)) <= m
  {
    MaskIsMod(n, k);
    ShiftIsDiv(n, k);
    forall m: nat | n <= m * Pow2(k) ensures IdealLength(n, Pow2(k)) <= m {
      IdealIsCeiling(n, Pow2(k), m);
    }
    IdealIsCeiling(n, Pow2(k), 0);
  }

  lemma IdealIsCeiling(n: nat, p: nat, m: nat)
    requires p > 0
    ensures n <= IdealLength(n, p) * p
    ensures n <= m * p ==> IdealLength(n, p) <= m
  {
    var q, r := n / p, n % p;
    assert n == p * q + r;
    assert (q + 1) * p == p * q + p;
    assert m * p == p * m;
    if m < q {
      MulMonotone(p, m, q);
    }
  }

  // ----- expansion: where the elements go

  lemma RehashStep<X>(c: seq<X>, k: nat, b: nat, m: nat, h: X -> nat)
    requires m > 0 && k < |c|
    ensures Rehash(c[..k + 1], b, m, h) ==
            if Slot(h, c[k], m) == b then [c[k]] + Rehash(c[..k], b, m, h) else Rehash(c[..k], b, m, h)
  {
    assert c[..k + 1][..k] == c[..k];
  }

  lemma {:induction false} RehashFacts<X>(c: seq<X>, b: nat, m: nat, h: X -> nat)
    requires m > 0
    ensures forall x :: x in Rehash(c, b, m, h) <==> x in c && Slot(h, x, m) == b
    ensures NoDup(c) ==> NoDup(Rehash(c, b, m, h))
    ensures |Rehash(c, b, m, h)| <= |c|
  {
    if c != [] {
      var k := |c| - 1;
      assert c == c[..k] + [c[k]];
      RehashFacts(c[..k], b, m, h);
    }
  }

  lemma RehashMember<X>(c: seq<X>, k: nat, b: nat, m: nat, h: X -> nat, x: X)
    requires m > 0 && k <= |c| && x in Rehash(c[..k], b, m, h)
    ensures x in c && Slot(h, x, m) == b
    ensures NoDup(c) ==> forall j | k <= j < |c| :: c[j] != x
  {
    RehashFacts(c[..k], b, m, h);
  }

  /** The two halves of an old chain have its length together. */
  lemma {:induction false} RehashLengths<X>(c: seq<X>, b: nat, n: nat, h: X -> nat)
    requires n > 0 && b < n
    requires forall x | x in c :: Slot(h, x, n) == b
    ensures |Rehash(c, b, n + n, h)| + |Rehash(c, b + n, n + n, h)| == |c|
  {
    if c != [] {
      var k := |c| - 1;
      assert c[k] in c;
      ModDouble(h(c[k]), n, n + n);
      RehashLengths(c[..k], b, n, h);
    }
  }

  /** Every element of old bucket b is, after expansion, in bucket b or b + n, and nowhere else. */
  lemma ExpandSplits<X>(t: Tbl<X>, h: X -> nat, x: X, b: nat)
    requires t.Tbl? && Wf(t, h) && b < |t.chains| && x in t.chains[b]
    ensures
      var n, u := |t.chains|, Expand(t, h);
      var d := Slot(h, x, n + n);
      && (d == b || d == b + n)
      && x in u.chains[d]
      && forall e | 0 <= e < |u.chains| && x in u.chains[e] :: e == d
  {
    var n, u := |t.chains|, Expand(t, h);
    var d := Slot(h, x, n + n);
    assert ChainWf(t.chains[b], b, t.items, n, h);
    ModDouble(h(x), n, n + n);
    forall e | 0 <= e < |u.chains| ensures x in u.chains[e] <==> x in t.chains[e % n] && d == e {
      RehashFacts(t.chains[e % n], e, n + n, h);
    }
  }

  lemma ExpandLengths<X>(t: Tbl<X>, h: X -> nat)
    requires t.Tbl? && Wf(t, h)
    ensures Sum(Lengths(Expand(t, h).chains)) == |t.items|
  {
    var n := |t.chains|;
    var chains := NewChains(t.chains, h);
    var L := Lengths(chains);
    forall b | 0 <= b < n ensures L[..n][b] + L[n..][b] == Lengths(t.chains)[b] {
      assert ChainWf(t.chains[b], b, t.items, n, h);
      NewChainAt(t.chains, h, b);
      RehashLengths(t.chains[b], b, n, h);
    }
    SumPointwise(L[..n], L[n..], Lengths(t.chains));
    SumConcat(L[..n], L[n..]);
    assert L == L[..n] + L[n..];
  }

  lemma ExpandKeepsWf<X>(t: Tbl<X>, h: X -> nat)
    requires t.Tbl? && Wf(t, h)
    ensures Wf(Expand(t, h), h)
  {
    hide Chained, Covered, Sum, Rehash;
    ExpandLengths(t, h);
    ExpandKeepsChains(t, h);
    ExpandKeepsCoverage(t, h);
    assert Pow2(t.log2 + 1) == 2 * Pow2(t.log2);
  }

  lemma ExpandKeepsCoverage<X>(t: Tbl<X>, h: X -> nat)
    requires t.Tbl? && Wf(t, h)
    ensures Covered(Expand(t, h).chains, t.items, h)
  {
    var n, u := |t.chains|, Expand(t, h);
    forall x | x in u.items ensures x in u.chains[Slot(h, x, |u.chains|)] {
      assert x in t.chains[Slot(h, x, n)];
      ExpandSplits(t, h, x, Slot(h, x, n));
      assert |u.chains| == n + n;
    }
  }

  lemma ExpandKeepsChains<X>(t: Tbl<X>, h: X -> nat)
    requires t.Tbl? && Wf(t, h)
    ensures Chained(Expand(t, h).chains, t.items, h)
  {
    var n, u := |t.chains|, Expand(t, h);
    forall b | 0 <= b < |u.chains| ensures ChainWf(u.chains[b], b, u.items, |u.chains|, h) {
      var a := b % n;
      assert ChainWf(t.chains[a], a, t.items, n, h);
      ExpandedChainWf(t.chains[a], t.items, b, n + n, h);
      assert u.chains[b] == Rehash(t.chains[a], b, n + n, h);
    }
  }

  lemma ExpandedChainWf<X>(c: seq<X>, items: seq<X>, b: nat, m: nat, h: X -> nat)
    requires m > 0 && NoDup(c) && forall x | x in c :: x in items
    ensures ChainWf(Rehash(c, b, m, h), b, items, m, h)
  {
    RehashFacts(c, b, m, h);
  }

  /** Items past the ideal length, counted old bucket by old bucket. */
  ghost function PairExcess<X>(chains: seq<seq<X>>, ideal: nat, h: X -> nat): (r: seq<nat>)
    requires |chains| > 0
    ensures |r| == |chains|
  {
    var n := |chains|;
    seq(n, a requires 0 <= a < n =>
          Past(|Rehash(chains[a], a, n + n, h)|, ideal) + Past(|Rehash(chains[a], a + n, n + n, h)|, ideal))
  }

  lemma PairExcessSum<X>(chains: seq<seq<X>>, ideal: nat, h: X -> nat)
    requires |chains| > 0
    ensures Sum(PairExcess(chains, ideal, h)) == Sum(Excess(NewChains(chains, h), ideal))
  {
    hide Sum, Rehash;
    var n := |chains|;
    var E := Excess(NewChains(chains, h), ideal);
    forall a | 0 <= a < n ensures E[..n][a] + E[n..][a] == PairExcess(chains, ideal, h)[a] {
      NewChainAt(chains, h, a);
    }
    SumPointwise(E[..n], E[n..], PairExcess(chains, ideal, h));
    SumConcat(E[..n], E[n..]);
    assert E == E[..n] + E[n..];
  }

  lemma SumPrefixStep(s: seq<nat>, i: nat)
    requires i < |s|
    ensures Sum(s[..i + 1]) == Sum(s[..i]) + s[i]
  {
    assert s[..i + 1] == s[..i] + [s[i]];
    SumConcat(s[..i], [s[i]]);
    assert [s[i]][1..] == [];
    assert Sum([s[i]]) == s[i];
  }

  // ----- every operation keeps the invariant and the load bound

  lemma MakeTableFacts<X>()
    ensures
      var t := MakeTable<X>();
      && |t.chains| == |t.mults| == Pow2(t.log2) == 32
      && t == Tbl([], 5, t.chains, t.mults, 0, 0, 0, false)
      && (forall b | 0 <= b < 32 :: t.chains[b] == [] && t.mults[b] == 0)
      && Sum(Lengths(t.chains)) == 0
      && Sum(Capacity(t.chains, t.mults)) == 9 * 32
  {
    var t := MakeTable<X>();
    assert Pow2(5) == 32 by {
      assert Pow2(2) == 4;
      assert Pow2(4) == 16;
    }
    SumOfEqual(Lengths(t.chains), 0);
    SumOfEqual(Capacity(t.chains, t.mults), 9);
  }

  ghost predicate LinkReady<X>(t: Tbl<X>, h: X -> nat) {
    t.Tbl? && (Wf(t, h) || t == MakeTable())
  }

  lemma LinkKeepsWf<X>(t: Tbl<X>, x: X, h: X -> nat)
    requires LinkReady(t, h) && x !in t.items
    ensures |t.chains| == |t.mults| > 0
    ensures Wf(Link(t, x, h), h)
  {
    hide Chained, Covered, MakeTable, Pow2, Sum, Slot, NoDup;
    ReadyShape(t, h);
    var b := Slot(h, x, |t.chains|);
    var u := Link(t, x, h);
    LinkKeepsChains(t, x, h);
    LinkKeepsNoDup(t.items, x);
    assert Lengths(u.chains) == Lengths(t.chains)[b := |t.chains[b]| + 1];
    SumUpdate(Lengths(t.chains), b, |t.chains[b]| + 1);
  }

  /** A table that can take an element, be it the new empty one. */
  lemma ReadyShape<X>(t: Tbl<X>, h: X -> nat)
    requires LinkReady(t, h)
    ensures |t.chains| == |t.mults| == Pow2(t.log2) > 0 && t.log2 >= INITIAL_LOG2
    ensures NoDup(t.items) && Sum(Lengths(t.chains)) == |t.items|
    ensures Chained(t.chains, t.items, h) && Covered(t.chains, t.items, h)
  {
    MakeTableFacts<X>();
  }

  lemma LinkKeepsChains<X>(t: Tbl<X>, x: X, h: X -> nat)
    requires t.Tbl? && |t.chains| > 0 && x !in t.items
    requires Chained(t.chains, t.items, h) && Covered(t.chains, t.items, h)
    ensures
      var u := Link(t, x, h);
      Chained(u.chains, u.items, h) && Covered(u.chains, u.items, h)
  {
    hide Slot;
    var n, u := |t.chains|, Link(t, x, h);
    forall i | 0 <= i < n ensures ChainWf(u.chains[i], i, u.items, n, h) {
      assert ChainWf(t.chains[i], i, t.items, n, h);
    }
  }

  lemma LinkKeepsNoDup<X>(s: seq<X>, x: X)
    requires NoDup(s) && x !in s
    ensures NoDup(s + [x])
  {
  }

  /** Linking one element raises the granted capacity only if it triggers an expansion. */
  lemma LinkLoad<X>(t: Tbl<X>, x: X, h: X -> nat)
    requires t.Tbl? && |t.chains| == |t.mults| > 0
    requires Sum(Capacity(t.chains, t.mults)) <= 19 * |t.chains|
    ensures
      var u := Link(t, x, h);
      var b := Slot(h, x, |t.chains|);
      && Sum(Lengths(u.chains)) <= 19 * |t.chains| + 1
      && (|u.chains[b]| < (u.mults[b] + 1) * CAPACITY_THRESH ==>
            Sum(Capacity(u.chains, u.mults)) <= 19 * |t.chains|)
  {
    hide Sum, Slot;
    var u := Link(t, x, h);
    var b := Slot(h, x, |t.chains|);
    var C := Capacity(t.chains, t.mults);
    SumBelow(Lengths(t.chains), C);
    assert Lengths(u.chains) == Lengths(t.chains)[b := |t.chains[b]| + 1];
    SumUpdate(Lengths(t.chains), b, |t.chains[b]| + 1);
    if |u.chains[b]| < (u.mults[b] + 1) * CAPACITY_THRESH {
      assert Capacity(u.chains, u.mults) == C;
    }
  }

  /** Expansion re-establishes the bound: the new ideal length is at most 10 and the new multipliers are paid for. */
  lemma ExpandLoad<X>(t: Tbl<X>, h: X -> nat)
    requires t.Tbl? && Wf(t, h) && |t.items| <= 19 * |t.chains| + 1
    ensures
      var u := Expand(t, h);
      && 1 <= u.ideal <= CAPACITY_THRESH
      && Sum(Capacity(u.chains, u.mults)) <= 19 * |u.chains|
  {
    var u := Expand(t, h);
    var m, ideal := |u.chains|, u.ideal;
    assert ideal <= 10 by {
      IdealIsCeiling(|t.items|, m, 10);
    }
    IdealIsCeiling(|t.items|, m, 0);
    var L, Q := Lengths(u.chains), seq(m, i requires 0 <= i < m => |u.chains[i]| / ideal);
    forall i | 0 <= i < m
      ensures Capacity(u.chains, u.mults)[i] <= 9 + 10 * Q[i]
      ensures ideal * Q[i] <= L[i]
    {
      CapacityOfRehashed(|u.chains[i]|, ideal);
    }
    SumAffine(Capacity(u.chains, u.mults), Q, 9, 10);
    SumScaled(Q, L, ideal);
    ExpandLengths(t, h);
    if Sum(Q) > m {
      MulMonotone(ideal, m, Sum(Q));
      assert false;
    }
  }

  lemma CapacityOfRehashed(len: nat, ideal: nat)
    requires 1 <= ideal <= 10
    ensures Larger(len, CAPACITY_THRESH * (MultOf(len, ideal) + 1) - 1) <= 9 + 10 * (len / ideal)
    ensures ideal * (len / ideal) <= len
  {
    var q, r := len / ideal, len % ideal;
    assert len == ideal * q + r;
    assert ideal * q <= 10 * q;
    if len == ideal { DivModUnique(len, ideal, 1, 0); }
  }

  lemma AddKeeps<X>(t: Tbl<X>, x: X, h: X -> nat)
    requires Wf(t, h) && LoadOk(t) && x !in Items(t)
    ensures Wf(Add(t, x, h), h) && LoadOk(Add(t, x, h))
    ensures Add(t, x, h).Tbl? && Add(t, x, h).items == Items(t) + [x]
  {
    MakeTableFacts<X>();
    var t0 := if t.NoTable? then MakeTable() else t;
    var t1 := Link(t0, x, h);
    LinkKeepsWf(t0, x, h);
    if !t0.noexpand {
      LinkLoad(t0, x, h);
      if Triggers(t1, Slot(h, x, |t0.chains|)) {
        ExpandKeepsWf(t1, h);
        ExpandLoad(t1, h);
      }
    }
  }

  lemma DeleteKeepsWf<X>(t: Tbl<X>, x: X, h: X -> nat)
    requires Wf(t, h) && x in Items(t)
    ensures Wf(Delete(t, x, h), h)
  {
    RemoveFacts(t.items, x);
    if |t.items| > 1 {
      DeleteKeepsChains(t, x, h);
      DeleteKeepsSums(t, x, h);
    }
  }

  lemma DeleteKeeps<X>(t: Tbl<X>, x: X, h: X -> nat)
    requires Wf(t, h) && LoadOk(t) && x in Items(t)
    ensures Wf(Delete(t, x, h), h) && LoadOk(Delete(t, x, h))
    ensures Items(Delete(t, x, h)) == Remove(Items(t), x)
  {
    DeleteKeepsWf(t, x, h);
    RemoveFacts(t.items, x);
    if |t.items| > 1 {
      DeleteKeepsSums(t, x, h);
    }
  }

  lemma RemoveFacts<X>(s: seq<X>, x: X)
    requires NoDup(s) && x in s
    ensures NoDup(Remove(s, x)) && |Remove(s, x)| == |s| - 1
    ensures forall y :: y in Remove(s, x) <==> y in s && y != x
  {
    var k :| 0 <= k < |s| && s[k] == x;
    RemoveAt(s, k);
  }

  lemma DeleteKeepsSums<X>(t: Tbl<X>, x: X, h: X -> nat)
    requires Wf(t, h) && x in Items(t) && |t.items| > 1
    ensures
      var u := Delete(t, x, h);
      && Sum(Lengths(u.chains)) == |t.items| - 1
      && Sum(Capacity(u.chains, u.mults)) <= Sum(Capacity(t.chains, t.mults))
  {
    var b := Slot(h, x, |t.chains|);
    var u := Delete(t, x, h);
    var c := t.chains[b];
    assert ChainWf(c, b, t.items, |t.chains|, h);
    RemoveFacts(c, x);
    assert Lengths(u.chains) == Lengths(t.chains)[b := |c| - 1];
    SumUpdate(Lengths(t.chains), b, |c| - 1);
    SumBelow(Capacity(u.chains, u.mults), Capacity(t.chains, t.mults));
  }

  lemma DeleteKeepsChains<X>(t: Tbl<X>, x: X, h: X -> nat)
    requires Wf(t, h) && x in Items(t) && |t.items| > 1
    ensures
      var u := Delete(t, x, h);
      && Chained(u.chains, u.items, h)
      && Covered(u.chains, u.items, h)
  {
    var u := Delete(t, x, h);
    var b := Slot(h, x, |t.chains|);
    assert ChainWf(t.chains[b], b, t.items, |t.chains|, h);
    RemoveFacts(t.items, x);
    RemoveFacts(t.chains[b], x);
    forall i | 0 <= i < |u.chains| ensures ChainWf(u.chains[i], i, u.items, |u.chains|, h) {
      assert ChainWf(t.chains[i], i, t.items, |t.chains|, h);
    }
  }

  // ----- whole runs

  datatype Op<X> = AddOp(x: X) | DeleteOp(x: X)

  /** What the caller owes: additions are of elements not in the table, deletions of elements in it. */
  ghost predicate Legal<X>(items: seq<X>, op: Op<X>) {
    match op
    case AddOp(x) => x !in items
    case DeleteOp(x) => x in items
  }

  /** The insertion-ordered sequence a table stands for. */
  ghost function Abstract<X>(ops: seq<Op<X>>): seq<X> {
    if ops == [] then []
    else
      var s := Abstract(ops[..|ops| - 1]);
      match ops[|ops| - 1]
      case AddOp(x) => s + [x]
      case DeleteOp(x) => Remove(s, x)
  }

  ghost predicate LegalRun<X>(ops: seq<Op<X>>) {
    ops == [] || (LegalRun(ops[..|ops| - 1]) && Legal(Abstract(ops[..|ops| - 1]), ops[|ops| - 1]))
  }

  ghost function Step<X>(t: Tbl<X>, op: Op<X>, h: X -> nat): Tbl<X>
    requires t.Tbl? ==> |t.chains| == |t.mults| > 0
  {
    match op
    case AddOp(x) => Add(t, x, h)
    case DeleteOp(x) => Delete(t, x, h)
  }

  lemma {:induction false} StepShape<X>(t: Tbl<X>, op: Op<X>, h: X -> nat)
    requires t.Tbl? ==> |t.chains| == |t.mults| > 0
    ensures Step(t, op, h).Tbl? ==> |Step(t, op, h).chains| == |Step(t, op, h).mults| > 0
  {
    MakeTableFacts<X>();
  }

  ghost function Run<X>(ops: seq<Op<X>>, h: X -> nat): (t: Tbl<X>)
    ensures t.Tbl? ==> |t.chains| == |t.mults| > 0
  {
    if ops == [] then NoTable
    else
      var t := Run(ops[..|ops| - 1], h);
      StepShape(t, ops[|ops| - 1], h);
      Step(t, ops[|ops| - 1], h)
  }

  /** Every reachable table satisfies the whole invariant, obeys the load bound
      and stands for the insertion-ordered sequence. */
  lemma {:induction false} ReachableTables<X>(ops: seq<Op<X>>, h: X -> nat)
    requires LegalRun(ops)
    ensures Wf(Run(ops, h), h)
    ensures LoadOk(Run(ops, h))
    ensures Items(Run(ops, h)) == Abstract(ops)
  {
    if ops != [] {
      var prior, op := ops[..|ops| - 1], ops[|ops| - 1];
      ReachableTables(prior, h);
      match op {
        case AddOp(x) => AddKeeps(Run(prior, h), x, h);
        case DeleteOp(x) => DeleteKeeps(Run(prior, h), x, h);
      }
    }
  }

  /**
   While expansion is not inhibited a reachable table holds at most 19 items per bucket, whatever
   the hash function.
   */
  lemma ReachableLoad<X>(ops: seq<Op<X>>, h: X -> nat)
    requires LegalRun(ops) && Run(ops, h).Tbl? && !Run(ops, h).noexpand
    ensures |Run(ops, h).items| <= 19 * |Run(ops, h).chains|
  {
    ReachableTables(ops, h);
    LoadBoundsItems(Run(ops, h), h);
  }

  lemma LoadBoundsItems<X>(t: Tbl<X>, h: X -> nat)
    requires t.Tbl? && !t.noexpand && Wf(t, h) && LoadOk(t)
    ensures |t.items| <= 19 * |t.chains|
  {
    SumBelow(Lengths(t.chains), Capacity(t.chains, t.mults));
  }

  /** Every ideal chain length ever computed is at most the capacity threshold, 10. */
  lemma {:induction false} ReachableIdeal<X>(ops: seq<Op<X>>, h: X -> nat)
    requires LegalRun(ops)
    ensures Run(ops, h).Tbl? ==> Run(ops, h).ideal <= CAPACITY_THRESH
  {
    if ops != [] {
      var prior, op := ops[..|ops| - 1], ops[|ops| - 1];
      ReachableIdeal(prior, h);
      ReachableTables(prior, h);
      var t := Run(prior, h);
      MakeTableFacts<X>();
      if op.AddOp? && !(t.Tbl? && t.noexpand) {
        var t0 := if t.NoTable? then MakeTable() else t;
        LinkKeepsWf(t0, op.x, h);
        LinkLoad(t0, op.x, h);
        var t1 := Link(t0, op.x, h);
        ExpandLoad(t1, h);
      }
    }
  }

  // ----- when the table expands, and when it stops

  /** The smallest whole number of which `m` make at least `n`. */
  function Ceiling(n: nat, m: nat): nat
    requires m > 0
  {
    (n + m - 1) / m
  }

  lemma CeilingIsIdeal(n: nat, m: nat)
    requires m > 0
    ensures IdealLength(n, m) == Ceiling(n, m)
  {
    var q, r := n / m, n % m;
    assert n == m * q + r;
    if r == 0 {
      DivModUnique(n + m - 1, m, q, m - 1);
    } else {
      assert m * (q + 1) == m * q + m;
      DivModUnique(n + m - 1, m, q + 1, r - 1);
    }
  }

  /** How many elements have `m` or more before them in their chain. */
  ghost function Beyond<X>(chains: seq<seq<X>>, m: nat): nat {
    if chains == [] then 0
    else (if |chains[0]| > m then |chains[0]| - m else 0) + Beyond(chains[1..], m)
  }

  lemma {:induction false} BeyondIsExcess<X>(chains: seq<seq<X>>, m: nat)
    ensures Beyond(chains, m) == Sum(Excess(chains, m))
  {
    if chains != [] {
      BeyondIsExcess(chains[1..], m);
      assert Excess(chains, m)[1..] == Excess(chains[1..], m);
    }
  }

  /** More than half of the elements are past the ideal length of their chain. */
  ghost predicate Poor<X>(t: Tbl<X>) {
    t.Tbl? && |t.chains| > 0 && 2 * Beyond(t.chains, Ceiling(|t.items|, |t.chains|)) > |t.items|
  }

  /** How many buckets a table has, or will have when it is made. */
  ghost function Buckets<X>(t: Tbl<X>): nat {
    if t.Tbl? then |t.chains| else 32
  }

  ghost predicate NoExpand<X>(t: Tbl<X>) {
    t.Tbl? && t.noexpand
  }

  /** The length a bucket must reach for the table to expand. */
  ghost function Threshold<X>(t: Tbl<X>, b: nat): nat {
    if t.Tbl? && b < |t.mults| then 10 * (t.mults[b] + 1) else 10
  }

  ghost function Length<X>(t: Tbl<X>, b: nat): nat {
    if t.Tbl? && b < |t.chains| then |t.chains[b]| else 0
  }

  /** An addition of `x` doubles the buckets: its bucket gets full, and expansion is not inhibited. */
  ghost predicate Doubles<X>(t: Tbl<X>, x: X, h: X -> nat)
    requires Buckets(t) > 0
  {
    var b := h(x) % Buckets(t);
    !NoExpand(t) && Length(t, b) + 1 >= Threshold(t, b)
  }

  /**
   What an expansion sets: the ideal length, how many elements are past it, and the multipliers, which
   are a bucket's length over the ideal one if it is longer, and 0 otherwise.
   */
  ghost predicate CountsSet<X>(t: Tbl<X>) {
    t.Tbl? && |t.mults| == |t.chains| > 0 &&
    var ideal := Ceiling(|t.items|, |t.chains|);
    t.ideal == ideal > 0 && t.nonideal == Beyond(t.chains, ideal) && forall b | 0 <= b < |t.mults| ::
                   t.mults[b] == if |t.chains[b]| > ideal then |t.chains[b]| / ideal else 0
  }

  ghost predicate CountsKept<X>(t: Tbl<X>, u: Tbl<X>) {
    u.Tbl? && |u.mults| == Buckets(t)
    && (u.ideal, u.nonideal) == (if t.Tbl? then (t.ideal, t.nonideal) else (0, 0))
    && forall b | 0 <= b < |u.mults| :: u.mults[b] == if t.Tbl? && b < |t.mults| then t.mults[b] else 0
  }

  /** The elements from the last to the first. */
  ghost function Reverse<X>(c: seq<X>): seq<X> {
    if c == [] then [] else [c[|c| - 1]] + Reverse(c[..|c| - 1])
  }

  function InBucket<X>(h: X -> nat, n: nat, b: nat): X -> bool
    requires n > 0
  {
    x => h(x) % n == b
  }

  lemma {:induction false} RehashExactly<X>(c: seq<X>, b: nat, m: nat, h: X -> nat)
    requires m > 0
    ensures Rehash(c, b, m, h) == Filter(Reverse(c), InBucket(h, m, b))
  {
    if c != [] {
      var k := |c| - 1;
      RehashExactly(c[..k], b, m, h);
      assert Reverse(c)[1..] == Reverse(c[..k]);
    }
  }

  /** Chain `b` with `x` pushed in front if it hashes there. */
  ghost function Pushed<X>(t: Tbl<X>, x: X, h: X -> nat, b: nat): seq<X>
    requires Buckets(t) > 0
  {
    (if h(x) % Buckets(t) == b then [x] else []) + if t.Tbl? && b < |t.chains| then t.chains[b] else []
  }

  /**
   The chains after an addition: `x` is in front of its chain; if the buckets double, each new chain takes
   from the old one, last first, what hashes to it.
   */
  ghost predicate ChainsAre<X>(t: Tbl<X>, x: X, h: X -> nat, u: Tbl<X>)
    requires Buckets(t) > 0
  {
    u.Tbl? && forall b | 0 <= b < |u.chains| ::
                u.chains[b] ==
                  if Doubles(t, x, h) then
                    Filter(Reverse(Pushed(t, x, h, b % Buckets(t))), InBucket(h, 2 * Buckets(t), b))
                  else Pushed(t, x, h, b)
  }

  lemma PushedIsLink<X>(t: Tbl<X>, x: X, h: X -> nat, b: nat)
    requires Wf(t, h) && Buckets(t) > 0 && b < Buckets(t)
    ensures
      var t0 := if t.NoTable? then MakeTable() else t;
      |t0.chains| == Buckets(t) && Link(t0, x, h).chains[b] == Pushed(t, x, h, b)
  {
    hide Pow2, Chained, Covered, Sum;
    MakeTableFacts<X>();
    var t0 := if t.NoTable? then MakeTable() else t;
    assert [] + t0.chains[b] == t0.chains[b] && [x] + t0.chains[b] == [x] + t0.chains[b];
  }

  /** Where an addition puts every element. */
  lemma AddChains<X>(t: Tbl<X>, x: X, h: X -> nat)
    requires Wf(t, h) && x !in Items(t)
    ensures Buckets(t) > 0 && ChainsAre(t, x, h, Add(t, x, h))
  {
    hide Pow2, Rehash, Excess, Sum, Chained, Covered, Pushed, Filter, Reverse;
    MakeTableFacts<X>();
    var n, u := Buckets(t), Add(t, x, h);
    forall b | 0 <= b < |u.chains|
      ensures u.chains[b] ==
              if Doubles(t, x, h) then Filter(Reverse(Pushed(t, x, h, b % n)), InBucket(h, 2 * n, b))
              else Pushed(t, x, h, b)
    {
      PushedIsLink(t, x, h, b % n);
      RehashExactly(Pushed(t, x, h, b % n), b, 2 * n, h);
      if b < n {
        PushedIsLink(t, x, h, b);
      }
    }
  }

  /**
   An addition doubles the number of buckets, and sets the counts anew, exactly if it fills its
   bucket to ten times one more than the bucket's multiplier; any other leaves both alone.
   */
  lemma AddExactly<X>(t: Tbl<X>, x: X, h: X -> nat)
    requires Wf(t, h) && x !in Items(t)
    ensures Buckets(t) > 0 && Add(t, x, h).Tbl? && Add(t, x, h).items == Items(t) + [x]
    ensures |Add(t, x, h).chains| == if Doubles(t, x, h) then 2 * Buckets(t) else Buckets(t)
    ensures if Doubles(t, x, h) then CountsSet(Add(t, x, h)) else CountsKept(t, Add(t, x, h))
  {
    hide Pow2, NewChains, Excess, Sum, Chained, Covered;
    MakeTableFacts<X>();
    var t0 := if t.NoTable? then MakeTable() else t;
    LinkKeepsWf(t0, x, h);
    var u := Add(t, x, h);
    CeilingIsIdeal(|u.items|, |u.chains|);
    IdealIsCeiling(|u.items|, |u.chains|, 0);
    BeyondIsExcess(u.chains, Ceiling(|u.items|, |u.chains|));
  }

  /** A deletion keeps buckets, multipliers, counts and the flag; deleting the last element drops the table. */
  lemma DeleteExactly<X>(t: Tbl<X>, x: X, h: X -> nat)
    requires Wf(t, h) && x in Items(t)
    ensures
      var u := Delete(t, x, h);
      if Items(t) == [x] then u.NoTable?
      else u.Tbl? && |u.chains| == |t.chains| && u.mults == t.mults && u.noexpand == t.noexpand
             && u.ideal == t.ideal && u.nonideal == t.nonideal
             && forall b | 0 <= b < |u.chains| ::
                  u.chains[b] == if h(x) % |t.chains| == b then Remove(t.chains[b], x) else t.chains[b]
  {
    hide Pow2, Sum, Chained, Covered;
    if |t.items| == 1 {
      assert t.items[0] == x;
    }
  }

  /** For each expansion since the table was made, whether it was a poor one. */
  ghost function Expansions<X>(ops: seq<Op<X>>, h: X -> nat): seq<bool> {
    if ops == [] then []
    else
      var t, u := Run(ops[..|ops| - 1], h), Run(ops, h);
      if u.NoTable? then []
      else Expansions(ops[..|ops| - 1], h) + if |u.chains| > Buckets(t) then [Poor(u)] else []
  }

  ghost predicate TwoPoor(es: seq<bool>) {
    exists i :: 0 <= i < |es| - 1 && es[i] && es[i + 1]
  }

  /** What the flag and the counter of poor expansions say of the history `es`. */
  ghost predicate Tells<X>(t: Tbl<X>, es: seq<bool>) {
    && (t.NoTable? ==> es == [])
    && (t.Tbl? ==>
          && (t.noexpand <==> TwoPoor(es))
          && (!t.noexpand ==> t.ineff == if es != [] && es[|es| - 1] then 1 else 0))
  }

  lemma TwoPoorMore(es: seq<bool>, poor: bool)
    ensures TwoPoor(es + [poor]) <==> TwoPoor(es) || (es != [] && es[|es| - 1] && poor)
  {
    var all := es + [poor];
    if TwoPoor(es) {
      var i :| 0 <= i < |es| - 1 && es[i] && es[i + 1];
      assert all[i] && all[i + 1];
    }
    if es != [] && es[|es| - 1] && poor {
      assert all[|es| - 1] && all[|es|];
    }
  }

  lemma ExpandTells<X>(t: Tbl<X>, h: X -> nat, es: seq<bool>)
    requires t.Tbl? && |t.chains| > 0 && !t.noexpand && Tells(t, es)
    ensures Tells(Expand(t, h), es + [Poor(Expand(t, h))])
  {
    hide NewChains, TwoPoor, Sum, Excess, Beyond;
    var u := Expand(t, h);
    CeilingIsIdeal(|t.items|, |u.chains|);
    BeyondIsExcess(u.chains, u.ideal);
    TwoPoorMore(es, Poor(u));
  }

  lemma AddTells<X>(t: Tbl<X>, x: X, h: X -> nat, es: seq<bool>)
    requires Wf(t, h) && x !in Items(t) && Tells(t, es)
    ensures
      var u := Add(t, x, h);
      u.Tbl? && Tells(u, es + if |u.chains| > Buckets(t) then [Poor(u)] else [])
  {
    hide Expand, Pow2, Poor, Chained, Covered, Sum;
    MakeTableFacts<X>();
    var t0 := if t.NoTable? then MakeTable() else t;
    var t1 := Link(t0, x, h);
    assert !TwoPoor([]);
    assert es + [] == es;
    if Triggers(t1, Slot(h, x, |t0.chains|)) {
      ExpandTells(t1, h, es);
      Doubled(t1, h);
    }
  }

  lemma Doubled<X>(t: Tbl<X>, h: X -> nat)
    requires t.Tbl? && |t.chains| > 0
    ensures Expand(t, h).Tbl? && |Expand(t, h).chains| == 2 * |t.chains|
  {
  }

  lemma {:induction false} RunTells<X>(ops: seq<Op<X>>, h: X -> nat)
    requires LegalRun(ops)
    ensures Tells(Run(ops, h), Expansions(ops, h))
  {
    hide TwoPoor, Poor;
    if ops != [] {
      var prior, op := ops[..|ops| - 1], ops[|ops| - 1];
      RunTells(prior, h);
      ReachableTables(prior, h);
      var es := Expansions(prior, h);
      assert es + [] == es;
      if op.AddOp? {
        AddTells(Run(prior, h), op.x, h, es);
      }
    }
  }

  /**
   Over every run, expansion is inhibited exactly if two expansions in a row, since the table was made,
   each left more than half of the elements past the ideal length.
   */
  lemma NoexpandExactly<X>(ops: seq<Op<X>>, h: X -> nat)
    requires LegalRun(ops) && Run(ops, h).Tbl?
    ensures Run(ops, h).noexpand <==> TwoPoor(Expansions(ops, h))
  {
    RunTells(ops, h);
  }

  /** So a run without two such expansions in a row has at most 19 items per bucket. */
  lemma LoadWithoutTwoPoor<X>(ops: seq<Op<X>>, h: X -> nat)
    requires LegalRun(ops) && Run(ops, h).Tbl? && !TwoPoor(Expansions(ops, h))
    ensures |Run(ops, h).items| <= 19 * |Run(ops, h).chains|
  {
    NoexpandExactly(ops, h);
    ReachableLoad(ops, h);
  }
}
