/**
 The bottom-up merge sort of HASH_SRT on sequences: the passes it makes, and why their
 result is a stable sorted permutation. ListSort.dfy proves the linked version computes it.
 */
module SortSpec {
  import opened Seqs

  /** `cmp` is the application's comparison; only the sign of its result matters, on the elements of `S`. */
  ghost predicate TotalPreorder<X>(cmp: (X, X) -> int, S: set<X>) {
    && (forall a, b | a in S && b in S :: cmp(a, b) <= 0 || cmp(b, a) <= 0)
    && (forall a, b, c | a in S && b in S && c in S :: cmp(a, b) <= 0 && cmp(b, c) <= 0 ==> cmp(a, c) <= 0)
  }

  ghost predicate Within<X>(s: seq<X>, S: set<X>) {
    forall x | x in s :: x in S
  }

  ghost predicate Sorted<X>(s: seq<X>, cmp: (X, X) -> int) {
    forall i, j | 0 <= i < j < |s| :: cmp(s[i], s[j]) <= 0
  }

  ghost function Take<X>(s: seq<X>, k: nat): seq<X> {
    if k <= |s| then s[..k] else s
  }

  ghost function Drop<X>(s: seq<X>, k: nat): seq<X> {
    if k <= |s| then s[k..] else []
  }

  /** Merge two runs, preferring the first on ties. */
  ghost function Merge<X>(p: seq<X>, q: seq<X>, cmp: (X, X) -> int): (r: seq<X>)
    ensures |r| == |p| + |q|
    decreases |p| + |q|
  {
    if p == [] then q
    else if q == [] then p
    else if cmp(p[0], q[0]) <= 0 then [p[0]] + Merge(p[1..], q, cmp)
    else [q[0]] + Merge(p, q[1..], cmp)
  }

  /** One pass: merge adjacent runs of length `k` pairwise. */
  ghost function Pass<X>(s: seq<X>, k: nat, cmp: (X, X) -> int): (r: seq<X>)
    requires k > 0
    ensures |r| == |s|
    decreases |s|
  {
    if s == [] then []
    else
      var rest := Drop(s, k);
      Merge(Take(s, k), Take(rest, k), cmp) + Pass(Drop(rest, k), k, cmp)
  }

  /** How many merges a pass makes. */
  ghost function Merges<X>(s: seq<X>, k: nat): (n: nat)
    requires k > 0
    ensures n <= 1 <==> |s| <= k + k
    decreases |s|
  {
    if s == [] then 0 else 1 + Merges(Drop(Drop(s, k), k), k)
  }

  /** Passes with doubling run length until one pass makes at most one merge. */
  ghost function Passes<X>(s: seq<X>, k: nat, cmp: (X, X) -> int): (r: seq<X>)
    requires k > 0
    ensures |r| == |s|
    decreases if k < |s| then |s| - k else 0
  {
    if Merges(s, k) <= 1 then Pass(s, k, cmp) else Passes(Pass(s, k, cmp), k + k, cmp)
  }

  ghost function MergeSort<X>(s: seq<X>, cmp: (X, X) -> int): seq<X> {
    Passes(s, 1, cmp)
  }

  // ----- permutation

  lemma MergeUnfold<X>(p: seq<X>, q: seq<X>, cmp: (X, X) -> int)
    requires p != [] && q != []
    ensures Merge(p, q, cmp) ==
            if cmp(p[0], q[0]) <= 0 then [p[0]] + Merge(p[1..], q, cmp) else [q[0]] + Merge(p, q[1..], cmp)
    ensures p == [p[0]] + p[1..] && q == [q[0]] + q[1..]
  {
    HeadTail(p);
    HeadTail(q);
  }

  lemma {:induction false} MergePermutes<X>(p: seq<X>, q: seq<X>, cmp: (X, X) -> int)
    ensures multiset(Merge(p, q, cmp)) == multiset(p) + multiset(q)
    decreases |p| + |q|, 1
  {
    if p != [] && q != [] {
      MergePermutesStep(p, q, cmp);
    }
  }

  lemma {:induction false} MergePermutesStep<X>(p: seq<X>, q: seq<X>, cmp: (X, X) -> int)
    requires p != [] && q != []
    ensures multiset(Merge(p, q, cmp)) == multiset(p) + multiset(q)
    decreases |p| + |q|, 0
  {
    hide Merge;
    MergeUnfold(p, q, cmp);
    if cmp(p[0], q[0]) <= 0 {
      MergePermutes(p[1..], q, cmp);
    } else {
      MergePermutes(p, q[1..], cmp);
    }
  }

  lemma Split<X>(s: seq<X>, k: nat)
    ensures s == Take(s, k) + Drop(s, k)
  {
  }

  lemma {:induction false} PassPermutes<X>(s: seq<X>, k: nat, cmp: (X, X) -> int)
    requires k > 0
    ensures multiset(Pass(s, k, cmp)) == multiset(s)
    decreases |s|
  {
    if s != [] {
      var rest := Drop(s, k);
      Split(s, k);
      Split(rest, k);
      MergePermutes(Take(s, k), Take(rest, k), cmp);
      PassPermutes(Drop(rest, k), k, cmp);
    }
  }

  lemma {:induction false} PassesPermute<X>(s: seq<X>, k: nat, cmp: (X, X) -> int)
    requires k > 0
    ensures multiset(Passes(s, k, cmp)) == multiset(s)
    decreases if k < |s| then |s| - k else 0
  {
    hide Pass, Merges;
    PassPermutes(s, k, cmp);
    if Merges(s, k) > 1 {
      PassesPermute(Pass(s, k, cmp), k + k, cmp);
    }
  }

  lemma PassWithin<X>(s: seq<X>, k: nat, cmp: (X, X) -> int, S: set<X>)
    requires k > 0 && Within(s, S)
    ensures Within(Pass(s, k, cmp), S)
  {
    hide Pass;
    PassPermutes(s, k, cmp);
    forall x | x in Pass(s, k, cmp) ensures x in S {
      assert x in multiset(s);
    }
  }

  // ----- sortedness

  /** Every aligned run of length `k` is sorted. */
  ghost predicate RunsSorted<X>(s: seq<X>, k: nat, cmp: (X, X) -> int)
    requires k > 0
    decreases |s|
  {
    s == [] || (Sorted(Take(s, k), cmp) && RunsSorted(Drop(s, k), k, cmp))
  }

  lemma {:induction false} MergeSorted<X>(p: seq<X>, q: seq<X>, cmp: (X, X) -> int, S: set<X>)
    requires TotalPreorder(cmp, S) && Within(p, S) && Within(q, S) && Sorted(p, cmp) && Sorted(q, cmp)
    ensures Sorted(Merge(p, q, cmp), cmp)
    decreases |p| + |q|
  {
    if p != [] && q != [] {
      hide Merge, Sorted, TotalPreorder, Within;
      MergeUnfold(p, q, cmp);
      SortedTail(p, cmp, S);
      SortedTail(q, cmp, S);
      TotalAt(p[0], q[0], cmp, S);
      if cmp(p[0], q[0]) <= 0 {
        MergeSorted(p[1..], q, cmp, S);
        BelowAll(p[0], q, cmp, S);
        MergeBounded(p[0], p[1..], q, cmp);
        SortedCons(p[0], Merge(p[1..], q, cmp), cmp);
      } else {
        MergeSorted(p, q[1..], cmp, S);
        BelowAll(q[0], p, cmp, S);
        MergeBounded(q[0], p, q[1..], cmp);
        SortedCons(q[0], Merge(p, q[1..], cmp), cmp);
      }
    } else {
      MergeEmpty(p, q, cmp);
    }
  }

  lemma SortedTail<X>(s: seq<X>, cmp: (X, X) -> int, S: set<X>)
    requires s != [] && Sorted(s, cmp) && Within(s, S)
    ensures s[0] in S && Within(s[1..], S) && Sorted(s[1..], cmp)
    ensures forall y | y in s[1..] :: cmp(s[0], y) <= 0
  {
  }

  lemma TotalAt<X>(a: X, b: X, cmp: (X, X) -> int, S: set<X>)
    requires TotalPreorder(cmp, S) && a in S && b in S
    ensures cmp(a, b) <= 0 || cmp(b, a) <= 0
  {
  }

  /** What is not above the head of a sorted run is not above any of it. */
  lemma BelowAll<X>(x: X, s: seq<X>, cmp: (X, X) -> int, S: set<X>)
    requires TotalPreorder(cmp, S) && Within(s, S) && Sorted(s, cmp)
    requires x in S && s != [] && cmp(x, s[0]) <= 0
    ensures forall y | y in s :: cmp(x, y) <= 0
  {
    forall y | y in s ensures cmp(x, y) <= 0 {
      var i :| 0 <= i < |s| && s[i] == y;
      if i > 0 {
        assert cmp(s[0], s[i]) <= 0;
      }
    }
  }

  lemma SortedCons<X>(x: X, s: seq<X>, cmp: (X, X) -> int)
    requires Sorted(s, cmp) && forall y | y in s :: cmp(x, y) <= 0
    ensures Sorted([x] + s, cmp)
  {
  }

  /** A lower bound of both runs is a lower bound of their merge. */
  lemma MergeBounded<X>(x: X, p: seq<X>, q: seq<X>, cmp: (X, X) -> int)
    requires forall y | y in p :: cmp(x, y) <= 0
    requires forall y | y in q :: cmp(x, y) <= 0
    ensures forall y | y in Merge(p, q, cmp) :: cmp(x, y) <= 0
  {
    MergePermutes(p, q, cmp);
    forall y | y in Merge(p, q, cmp) ensures cmp(x, y) <= 0 {
      assert y in multiset(Merge(p, q, cmp));
    }
  }

  lemma DropConcat<X>(a: seq<X>, b: seq<X>, k: nat)
    requires |a| == k || (|a| <= k && b == [])
    ensures Take(a + b, k) == a && Drop(a + b, k) == b
  {
  }

  lemma {:induction false} PassMakesRuns<X>(s: seq<X>, k: nat, cmp: (X, X) -> int, S: set<X>)
    requires k > 0 && TotalPreorder(cmp, S) && Within(s, S) && RunsSorted(s, k, cmp)
    ensures RunsSorted(Pass(s, k, cmp), k + k, cmp)
    decreases |s|
  {
    if s != [] {
      var p, rest := Take(s, k), Drop(s, k);
      var q := Take(rest, k);
      assert Sorted(q, cmp);
      MergeSorted(p, q, cmp, S);
      PassMakesRuns(Drop(rest, k), k, cmp, S);
      DropConcat(Merge(p, q, cmp), Pass(Drop(rest, k), k, cmp), k + k);
    }
  }

  lemma PassShort<X>(s: seq<X>, k: nat, cmp: (X, X) -> int)
    requires k > 0 && RunsSorted(Pass(s, k, cmp), k + k, cmp)
    ensures |s| <= k + k ==> Sorted(Pass(s, k, cmp), cmp)
  {
  }

  lemma {:induction false} PassesSort<X>(s: seq<X>, k: nat, cmp: (X, X) -> int, S: set<X>)
    requires k > 0 && TotalPreorder(cmp, S) && Within(s, S) && RunsSorted(s, k, cmp)
    ensures Sorted(Passes(s, k, cmp), cmp)
    decreases if k < |s| then |s| - k else 0
  {
    hide Pass, Merges, RunsSorted, TotalPreorder, Within;
    PassMakesRuns(s, k, cmp, S);
    PassShort(s, k, cmp);
    if Merges(s, k) > 1 {
      PassWithin(s, k, cmp, S);
      PassesSort(Pass(s, k, cmp), k + k, cmp, S);
    }
  }

  lemma {:induction false} SingletonRuns<X>(s: seq<X>, cmp: (X, X) -> int)
    ensures RunsSorted(s, 1, cmp)
    decreases |s|
  {
    if s != [] {
      SingletonRuns(s[1..], cmp);
    }
  }

  // ----- stability

  /** Elements the comparison does not tell apart from `x`. */
  ghost function Ties<X>(x: X, cmp: (X, X) -> int): X -> bool {
    (y: X) => cmp(x, y) <= 0 && cmp(y, x) <= 0
  }

  lemma {:induction false} MergeStable<X>(x: X, p: seq<X>, q: seq<X>, cmp: (X, X) -> int, S: set<X>)
    requires TotalPreorder(cmp, S) && x in S && Within(p, S) && Within(q, S) && Sorted(p, cmp)
    ensures Filter(Merge(p, q, cmp), Ties(x, cmp)) == Filter(p, Ties(x, cmp)) + Filter(q, Ties(x, cmp))
    decreases |p| + |q|
  {
    hide TotalPreorder, Merge, Ties;
    var f := Ties(x, cmp);
    if p == [] || q == [] {
      MergeEmpty(p, q, cmp);
      FilterConcat(p, q, f);
    } else {
      MergeUnfold(p, q, cmp);
      if cmp(p[0], q[0]) <= 0 {
        MergeStable(x, p[1..], q, cmp, S);
      } else {
        MergeStable(x, p, q[1..], cmp, S);
        if f(q[0]) {
          NoTiesAbove(x, p, q[0], cmp, S);
        }
      }
    }
  }

  lemma MergeEmpty<X>(p: seq<X>, q: seq<X>, cmp: (X, X) -> int)
    requires p == [] || q == []
    ensures Merge(p, q, cmp) == p + q
  {
  }

  /** A sorted run that starts above a tie of `x` has no tie of `x`. */
  lemma NoTiesAbove<X>(x: X, p: seq<X>, b: X, cmp: (X, X) -> int, S: set<X>)
    requires TotalPreorder(cmp, S) && x in S && b in S && Within(p, S) && Sorted(p, cmp) && p != []
    requires cmp(p[0], b) > 0 && Ties(x, cmp)(b)
    ensures Filter(p, Ties(x, cmp)) == []
  {
    forall y | y in p ensures !Ties(x, cmp)(y) {
      var i :| 0 <= i < |p| && p[i] == y;
      assert cmp(p[0], y) <= 0;
    }
    FilterNone(p, Ties(x, cmp));
  }

  lemma {:induction false} FilterNone<X>(s: seq<X>, f: X -> bool)
    requires forall y | y in s :: !f(y)
    ensures Filter(s, f) == []
  {
    if s != [] {
      FilterNone(s[1..], f);
    }
  }

  lemma SplitSize<X>(s: seq<X>, k: nat)
    requires k > 0 && s != []
    ensures |Drop(s, k)| < |s| && |Drop(Drop(s, k), k)| < |s|
  {
  }

  lemma RunsUnfold<X>(s: seq<X>, k: nat, cmp: (X, X) -> int)
    requires k > 0 && RunsSorted(s, k, cmp) && s != []
    ensures Sorted(Take(s, k), cmp) && RunsSorted(Drop(Drop(s, k), k), k, cmp)
  {
  }

  lemma {:induction false} PassStable<X>(x: X, s: seq<X>, k: nat, cmp: (X, X) -> int, S: set<X>)
    requires k > 0 && TotalPreorder(cmp, S) && x in S && Within(s, S) && RunsSorted(s, k, cmp)
    ensures Filter(Pass(s, k, cmp), Ties(x, cmp)) == Filter(s, Ties(x, cmp))
    decreases |s|
  {
    hide Merge, Filter, TotalPreorder, Sorted, Take, Drop, Ties;
    if s != [] {
      var f := Ties(x, cmp);
      var p, rest := Take(s, k), Drop(s, k);
      var q, more := Take(rest, k), Drop(rest, k);
      SplitSize(s, k);
      Split(s, k);
      Split(rest, k);
      RunsUnfold(s, k, cmp);
      MergeStable(x, p, q, cmp, S);
      PassStable(x, more, k, cmp, S);
      FilterConcat(Merge(p, q, cmp), Pass(more, k, cmp), f);
      FilterConcat(p, rest, f);
      FilterConcat(q, more, f);
    }
  }

  lemma {:induction false} PassesStable<X>(x: X, s: seq<X>, k: nat, cmp: (X, X) -> int, S: set<X>)
    requires k > 0 && TotalPreorder(cmp, S) && x in S && Within(s, S) && RunsSorted(s, k, cmp)
    ensures Filter(Passes(s, k, cmp), Ties(x, cmp)) == Filter(s, Ties(x, cmp))
    decreases if k < |s| then |s| - k else 0
  {
    hide Pass, Merges, RunsSorted, TotalPreorder, Within, Filter;
    PassStable(x, s, k, cmp, S);
    if Merges(s, k) > 1 {
      PassMakesRuns(s, k, cmp, S);
      PassWithin(s, k, cmp, S);
      PassesStable(x, Pass(s, k, cmp), k + k, cmp, S);
    }
  }

  /** HASH_SRT sorts, loses and invents nothing, and keeps the order of ties. */
  lemma MergeSortCorrect<X>(s: seq<X>, cmp: (X, X) -> int, S: set<X>)
    requires TotalPreorder(cmp, S) && Within(s, S)
    ensures Sorted(MergeSort(s, cmp), cmp)
    ensures multiset(MergeSort(s, cmp)) == multiset(s)
    ensures forall x | x in S :: Filter(MergeSort(s, cmp), Ties(x, cmp)) == Filter(s, Ties(x, cmp))
  {
    SingletonRuns(s, cmp);
    PassesSort(s, 1, cmp, S);
    PassesPermute(s, 1, cmp);
    forall x | x in S ensures Filter(MergeSort(s, cmp), Ties(x, cmp)) == Filter(s, Ties(x, cmp)) {
      PassesStable(x, s, 1, cmp, S);
    }
  }
}
