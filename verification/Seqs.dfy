/** Sequence facts shared by the models: absence of duplicates, removal, sums. */
module Seqs {

  ghost predicate NoDup<X>(s: seq<X>) {
    forall i, j | 0 <= i < j < |s| :: s[i] != s[j]
  }

  function Sum(s: seq<nat>): nat {
    if s == [] then 0 else s[0] + Sum(s[1..])
  }

  lemma SumUpdate(s: seq<nat>, i: nat, v: nat)
    requires i < |s|
    ensures Sum(s[i := v]) + s[i] == Sum(s) + v
  {
    if i == 0 {
      assert s[i := v][1..] == s[1..];
    } else {
      assert s[i := v][1..] == s[1..][i - 1 := v];
      SumUpdate(s[1..], i - 1, v);
    }
  }

  lemma SumConcat(s: seq<nat>, t: seq<nat>)
    ensures Sum(s + t) == Sum(s) + Sum(t)
  {
    if s == [] {
      assert s + t == t;
    } else {
      assert (s + t)[1..] == s[1..] + t;
      SumConcat(s[1..], t);
    }
  }

  /** Pointwise addition of two equally long sequences adds their sums. */
  lemma SumPointwise(s: seq<nat>, t: seq<nat>, u: seq<nat>)
    requires |s| == |t| == |u|
    requires forall i | 0 <= i < |s| :: u[i] == s[i] + t[i]
    ensures Sum(u) == Sum(s) + Sum(t)
  {
    if s != [] {
      SumPointwise(s[1..], t[1..], u[1..]);
    }
  }

  lemma SumBelow(s: seq<nat>, t: seq<nat>)
    requires |s| == |t|
    requires forall i | 0 <= i < |s| :: s[i] <= t[i]
    ensures Sum(s) <= Sum(t)
  {
    if s != [] {
      SumBelow(s[1..], t[1..]);
    }
  }

  lemma Distribute(c: nat, x: nat, y: nat)
    ensures c * (x + y) == c * x + c * y
  {
  }

  /** An affine bound on every entry bounds the sum. */
  lemma {:induction false} SumAffine(s: seq<nat>, q: seq<nat>, a: nat, c: nat)
    requires |s| == |q|
    requires forall i | 0 <= i < |s| :: s[i] <= a + c * q[i]
    ensures Sum(s) <= a * |s| + c * Sum(q)
  {
    if s != [] {
      SumAffine(s[1..], q[1..], a, c);
      Distribute(c, q[0], Sum(q[1..]));
      Distribute(a, 1, |s| - 1);
    }
  }

  lemma {:induction false} SumScaled(q: seq<nat>, s: seq<nat>, d: nat)
    requires |s| == |q|
    requires forall i | 0 <= i < |s| :: d * q[i] <= s[i]
    ensures d * Sum(q) <= Sum(s)
  {
    if s != [] {
      SumScaled(q[1..], s[1..], d);
      Distribute(d, q[0], Sum(q[1..]));
    }
  }

  lemma SumOfEqual(s: seq<nat>, v: nat)
    requires forall i | 0 <= i < |s| :: s[i] == v
    ensures Sum(s) == v * |s|
  {
    if s != [] {
      SumOfEqual(s[1..], v);
    }
  }

  /** `s` without the first occurrence of `x`. */
  ghost function Remove<X>(s: seq<X>, x: X): (r: seq<X>)
    ensures forall y | y in r :: y in s
  {
    if s == [] then []
    else if s[0] == x then s[1..]
    else [s[0]] + Remove(s[1..], x)
  }

  lemma {:induction false} RemoveIsSlice<X>(s: seq<X>, k: nat)
    requires k < |s| && NoDup(s)
    ensures Remove(s, s[k]) == s[..k] + s[k + 1..]
  {
    if k > 0 {
      RemoveIsSlice(s[1..], k - 1);
      assert s[1..][..k - 1] == s[1..k];
      assert s[1..][k..] == s[k + 1..];
      assert [s[0]] + s[1..k] == s[..k];
    }
  }

  /** `r` is `s` without position `k`. */
  ghost predicate Without<X>(s: seq<X>, k: nat, r: seq<X>) {
    && k < |s| == |r| + 1
    && forall i {:trigger r[i]} | 0 <= i < |r| :: r[i] == s[if i < k then i else i + 1]
  }

  lemma RemoveIsWithout<X>(s: seq<X>, k: nat)
    requires k < |s| && NoDup(s)
    ensures Without(s, k, Remove(s, s[k]))
  {
    hide Remove, NoDup;
    RemoveIsSlice(s, k);
    SliceIsWithout(s, k);
  }

  lemma SliceIsWithout<X>(s: seq<X>, k: nat)
    requires k < |s|
    ensures Without(s, k, s[..k] + s[k + 1..])
  {
  }

  lemma RemoveAt<X>(s: seq<X>, k: nat)
    requires k < |s| && NoDup(s)
    ensures Remove(s, s[k]) == s[..k] + s[k + 1..]
    ensures NoDup(Remove(s, s[k]))
    ensures s[k] !in Remove(s, s[k])
    ensures forall y | y in s && y != s[k] :: y in Remove(s, s[k])
  {
    RemoveIsSlice(s, k);
    RemoveIsWithout(s, k);
    WithoutFacts(s, k, Remove(s, s[k]));
  }

  lemma WithoutFacts<X>(s: seq<X>, k: nat, r: seq<X>)
    requires Without(s, k, r) && NoDup(s)
    ensures NoDup(r) && s[k] !in r
    ensures forall y | y in s && y != s[k] :: y in r
  {
    forall y | y in s && y != s[k] ensures y in r {
      var i :| 0 <= i < |s| && s[i] == y;
      assert r[if i < k then i else i - 1] == y;
    }
  }

  /** The elements of `s` that satisfy `p`, in order. */
  ghost function Filter<X>(s: seq<X>, p: X -> bool): seq<X> {
    if s == [] then []
    else if p(s[0]) then [s[0]] + Filter(s[1..], p)
    else Filter(s[1..], p)
  }

  lemma FilterConcat<X>(s: seq<X>, t: seq<X>, p: X -> bool)
    ensures Filter(s + t, p) == Filter(s, p) + Filter(t, p)
  {
    if s == [] {
      assert s + t == t;
    } else {
      assert (s + t)[1..] == s[1..] + t;
      FilterConcat(s[1..], t, p);
    }
  }

  /** A filtered sequence is a subsequence: membership and distinctness carry over. */
  lemma FilterSub<X>(s: seq<X>, p: X -> bool)
    ensures forall x :: x in Filter(s, p) <==> x in s && p(x)
    ensures NoDup(s) ==> NoDup(Filter(s, p))
    ensures |Filter(s, p)| <= |s|
  {
    if s != [] {
      FilterSub(s[1..], p);
      assert s == [s[0]] + s[1..];
    }
  }

  /** The positions that a filter keeps, in increasing order. */
  ghost predicate Selects<X>(ps: seq<nat>, s: seq<X>, r: seq<X>, p: X -> bool) {
    && |ps| == |r| && (forall i, j | 0 <= i < j < |ps| :: ps[i] < ps[j])
    && (forall i | 0 <= i < |ps| :: ps[i] < |s| && r[i] == s[ps[i]])
    && (forall k: nat | k < |s| :: k in ps <==> p(s[k]))
  }

  lemma {:induction false} FilterSelects<X>(s: seq<X>, p: X -> bool) returns (ps: seq<nat>)
    ensures Selects(ps, s, Filter(s, p), p)
  {
    ps := [];
    if s != [] {
      var n := |s| - 1;
      ps := FilterSelects(s[..n], p);
      FilterLast(s, p);
      ps := ps + if p(s[n]) then [n] else [];
    }
  }

  lemma FilterLast<X>(s: seq<X>, p: X -> bool)
    requires s != []
    ensures Filter(s, p) == Filter(s[..|s| - 1], p) + if p(s[|s| - 1]) then [s[|s| - 1]] else []
  {
    var n := |s| - 1;
    assert s == s[..n] + [s[n]];
    FilterConcat(s[..n], [s[n]], p);
    assert [s[n]][1..] == [];
  }

  lemma FilterAgrees<X>(s: seq<X>, p: X -> bool, q: X -> bool)
    requires forall x | x in s :: p(x) == q(x)
    ensures Filter(s, p) == Filter(s, q)
  {
    if s != [] {
      FilterAgrees(s[1..], p, q);
    }
  }

  lemma RemoveMiddle<X>(a: seq<X>, x: X, b: seq<X>)
    requires NoDup(a + [x] + b)
    ensures Remove(a + [x] + b, x) == a + b
  {
    var s := a + [x] + b;
    assert s[|a|] == x;
    RemoveIsSlice(s, |a|);
    assert s[..|a|] == a && s[|a| + 1..] == b;
  }

  lemma HeadTail<X>(s: seq<X>)
    requires s != []
    ensures s == [s[0]] + s[1..]
  {
  }
}
