/**
 HASH_SRT on the links: an in-place bottom-up merge sort of the application-order list.
 Only `prev` and `next` are written, so the bucket chains are untouched.
 */
module ListSort {
  import opened Seqs
  import opened Handles
  import opened SortSpec

  /** Consecutive elements of `s` point forward to each other; the last one points anywhere. */
  ghost predicate Forward<T>(s: seq<Elem<T>>)
    reads Elems(s)`next
  {
    forall i {:trigger s[i].next} | 0 <= i < |s| - 1 :: s[i].next == s[i + 1]
  }

  /** As Forward, and the last element points to NULL. */
  ghost predicate Ended<T>(s: seq<Elem<T>>)
    reads Elems(s)`next
  {
    forall i {:trigger s[i].next} | 0 <= i < |s| :: s[i].next == At(s, i + 1)
  }

  ghost predicate Backward<T>(s: seq<Elem<T>>)
    reads Elems(s)`prev
  {
    forall i {:trigger s[i].prev} | 0 <= i < |s| :: s[i].prev == At(s, i - 1)
  }

  /** The list built so far: elements `out` from `list` to `tail`. */
  ghost predicate Output<T>(out: seq<Elem<T>>, list: Elem?<T>, tail: Elem?<T>)
    reads Elems(out)`prev, Elems(out)`next
  {
    Forward(out) && Backward(out) && list == At(out, 0) && tail == At(out, |out| - 1)
  }

  /** Append `e` to the output; the elements `p` and `q` still to come keep their links. */
  method Emit<T>(e: Elem<T>, list: Elem?<T>, tail: Elem?<T>,
                 ghost out: seq<Elem<T>>, ghost p: seq<Elem<T>>, ghost q: seq<Elem<T>>)
    returns (list': Elem?<T>)
    requires Output(out, list, tail) && Forward(p) && Ended(q)
    requires NoDup(out) && e !in out
    requires forall x | x in p :: x !in out && x != e
    requires forall x | x in q :: x !in out && x != e
    modifies Elems(out)`next, e`prev
    ensures Output(out + [e], list', e) && Forward(p) && Ended(q)
    ensures e.next == old(e.next)
  {
    if tail != null {
      tail.next := e;
      list' := list;
    } else {
      list' := e;
    }
    e.prev := tail;
  }

  /** Step over a run of at most `insize` elements. */
  method Skip<T>(p: Elem<T>, insize: nat, ghost s: seq<Elem<T>>) returns (psize: nat, q: Elem?<T>)
    requires insize > 0 && s != [] && p == s[0] && Ended(s)
    ensures psize == |Take(s, insize)| && q == At(s, psize)
    ensures Ended(s)
  {
    q, psize := p, 0;
    var i := 0;
    while i < insize
      invariant 0 <= i == psize <= insize && psize < |s| && q == s[psize]
    {
      psize := psize + 1;
      q := q.next;
      if q == null {
        break;
      }
      i := i + 1;
    }
  }

  /** The three sequences together hold no element twice and stay inside `S`. */
  ghost predicate Apart<T>(out: seq<Elem<T>>, p: seq<Elem<T>>, q: seq<Elem<T>>, S: set<Elem<T>>) {
    && NoDup(out) && NoDup(p) && NoDup(q)
    && (forall x | x in p :: x !in out)
    && (forall x | x in q :: x !in out && x !in p)
    && Elems(out) <= S && Elems(p) <= S && Elems(q) <= S
  }

  lemma TakeP<T>(out: seq<Elem<T>>, p: seq<Elem<T>>, q: seq<Elem<T>>, S: set<Elem<T>>)
    requires Apart(out, p, q, S) && p != []
    ensures p[0] !in out && p[0] in S && p[0] !in p[1..] && p[0] !in q
    ensures Apart(out + [p[0]], p[1..], q, S) && Apart(out, p[1..], q, S)
  {
    assert forall x | x in p[1..] :: x in p;
  }

  lemma TakeQ<T>(out: seq<Elem<T>>, p: seq<Elem<T>>, q: seq<Elem<T>>, S: set<Elem<T>>)
    requires Apart(out, p, q, S) && q != []
    ensures q[0] !in out && q[0] in S && q[0] !in q[1..] && q[0] !in p
    ensures Apart(out + [q[0]], p, q[1..], S) && Apart(out, p, q[1..], S)
  {
    assert forall x | x in q[1..] :: x in q;
  }

  /** What one step of the merge does to the specification, for either choice of element. */
  lemma StepP<T>(out: seq<Elem<T>>, p: seq<Elem<T>>, q: seq<Elem<T>>, k: nat, cmp: (Elem<T>, Elem<T>) -> int)
    requires p != [] && (k == 0 || q == [] || cmp(p[0], q[0]) <= 0)
    ensures out + Merge(p, Take(q, k), cmp) == (out + [p[0]]) + Merge(p[1..], Take(q, k), cmp)
  {
  }

  lemma StepQ<T>(out: seq<Elem<T>>, p: seq<Elem<T>>, q: seq<Elem<T>>, k: nat, cmp: (Elem<T>, Elem<T>) -> int)
    requires q != [] && k > 0 && (p == [] || cmp(p[0], q[0]) > 0)
    ensures out + Merge(p, Take(q, k), cmp) == (out + [q[0]]) + Merge(p, Take(q[1..], k - 1), cmp)
    ensures Drop(q, k) == Drop(q[1..], k - 1)
  {
    var t := Take(q, k);
    assert t[0] == q[0] && t[1..] == Take(q[1..], k - 1);
    if p != [] {
      MergeUnfold(p, t, cmp);
    }
  }

  lemma Rest<T>(s: seq<Elem<T>>)
    requires s != []
    ensures Forward(s) ==> Forward(s[1..]) && (|s| > 1 ==> s[0].next == s[1])
    ensures Ended(s) ==> Ended(s[1..]) && s[0].next == At(s[1..], 0)
  {
    forall i | 0 <= i < |s[1..]| ensures s[1..][i] == s[i + 1] {}
  }

  /** Merge the run `p` with the first `qsize` elements of `q` onto the output. */
  method MergeRuns<T>(p0: Elem?<T>, psize0: nat, q0: Elem?<T>, qsize0: nat,
                      list0: Elem?<T>, tail0: Elem?<T>, cmp: (Elem<T>, Elem<T>) -> int,
                      ghost out0: seq<Elem<T>>, ghost P0: seq<Elem<T>>, ghost Q0: seq<Elem<T>>, ghost S: set<Elem<T>>)
    returns (list: Elem?<T>, tail: Elem?<T>, q: Elem?<T>)
    requires Output(out0, list0, tail0) && Forward(P0) && Ended(Q0) && Apart(out0, P0, Q0, S)
    requires psize0 == |P0| && p0 == At(P0, 0) && q0 == At(Q0, 0)
    modifies S`next, S`prev
    ensures Output(out0 + Merge(P0, Take(Q0, qsize0), cmp), list, tail)
    ensures Ended(Drop(Q0, qsize0)) && q == At(Drop(Q0, qsize0), 0)
    ensures Apart(out0 + Merge(P0, Take(Q0, qsize0), cmp), [], Drop(Q0, qsize0), S)
  {
    hide Merge, Forward, Backward, Ended, Output, NoDup, Apart, Take, Drop;
    var p, psize, qsize := p0, psize0, qsize0;
    list, tail, q := list0, tail0, q0;
    ghost var out: seq<Elem<T>>, P: seq<Elem<T>>, Q: seq<Elem<T>> := out0, P0, Q0;
    while psize > 0 || (qsize > 0 && q != null)
      invariant Output(out, list, tail) && Forward(P) && Ended(Q) && Apart(out, P, Q, S)
      invariant psize == |P| && (P != [] ==> p == P[0]) && q == At(Q, 0)
      invariant out + Merge(P, Take(Q, qsize), cmp) == out0 + Merge(P0, Take(Q0, qsize0), cmp)
      invariant Drop(Q, qsize) == Drop(Q0, qsize0)
      decreases psize + qsize
    {
      if psize > 0 && (qsize == 0 || q == null || cmp(p, q) <= 0) {
        var e: Elem<T> := p;
        Rest(P);
        TakeP(out, P, Q, S);
        StepP(out, P, Q, qsize, cmp);
        p := p.next;
        psize := psize - 1;
        list := EmitIn(e, list, tail, out, P[1..], Q, S);
        tail := e;
        out, P := out + [e], P[1..];
      } else {
        var e: Elem<T> := q;
        Rest(Q);
        TakeQ(out, P, Q, S);
        StepQ(out, P, Q, qsize, cmp);
        q := q.next;
        qsize := qsize - 1;
        list := EmitIn(e, list, tail, out, P, Q[1..], S);
        tail := e;
        out, Q := out + [e], Q[1..];
      }
    }
    MergeDone(Q, qsize, cmp);
    assert P == [];
    assert out + [] == out;
  }

  lemma MergeDone<T>(q: seq<Elem<T>>, k: nat, cmp: (Elem<T>, Elem<T>) -> int)
    requires k == 0 || q == []
    ensures Merge([], Take(q, k), cmp) == []
    ensures Drop(q, k) == q
  {
  }

  method EmitIn<T>(e: Elem<T>, list: Elem?<T>, tail: Elem?<T>,
                   ghost out: seq<Elem<T>>, ghost p: seq<Elem<T>>, ghost q: seq<Elem<T>>, ghost S: set<Elem<T>>)
    returns (list': Elem?<T>)
    requires Output(out, list, tail) && Forward(p) && Ended(q) && Apart(out, p, q, S)
    requires e !in out && e !in p && e !in q && e in S
    modifies S`next, S`prev
    ensures Output(out + [e], list', e) && Forward(p) && Ended(q)
  {
    list' := Emit(e, list, tail, out, p, q);
  }

  lemma SplitRun<T>(out: seq<Elem<T>>, rest: seq<Elem<T>>, k: nat, S: set<Elem<T>>)
    requires Ended(rest) && Apart(out, [], rest, S)
    ensures Forward(Take(rest, k)) && Ended(Drop(rest, k))
    ensures Apart(out, Take(rest, k), Drop(rest, k), S)
    ensures k > 0 && rest != [] ==> |Take(rest, k)| > 0 && Take(rest, k)[0] == rest[0] && |Drop(rest, k)| < |rest|
    ensures At(rest, |Take(rest, k)|) == At(Drop(rest, k), 0)
  {
    var p, q := Take(rest, k), Drop(rest, k);
    forall i | 0 <= i < |p| ensures p[i] == rest[i] && p[i] in rest {}
    forall i | 0 <= i < |q| ensures q[i] == rest[i + k] && q[i] in rest {}
  }

  lemma PassStep<T>(out: seq<Elem<T>>, rest: seq<Elem<T>>, k: nat, cmp: (Elem<T>, Elem<T>) -> int)
    requires k > 0 && rest != []
    ensures
      var q := Drop(rest, k);
      && out + Pass(rest, k, cmp) == (out + Merge(Take(rest, k), Take(q, k), cmp)) + Pass(Drop(q, k), k, cmp)
      && Merges(rest, k) == 1 + Merges(Drop(q, k), k)
      && |Drop(q, k)| < |rest|
  {
    hide Merge, Take;
    var q := Drop(rest, k);
    var m, more := Merge(Take(rest, k), Take(q, k), cmp), Pass(Drop(q, k), k, cmp);
    assert Pass(rest, k, cmp) == m + more;
    assert out + (m + more) == (out + m) + more;
  }

  /** One pass over the list: returns the new list, its last element and the number of merges. */
  method RunPass<T>(list0: Elem<T>, insize: nat, cmp: (Elem<T>, Elem<T>) -> int,
                    ghost s: seq<Elem<T>>, ghost S: set<Elem<T>>)
    returns (list: Elem?<T>, tail: Elem?<T>, nmerges: nat)
    requires insize > 0 && s != [] && list0 == s[0] && Ended(s) && Apart([], [], s, S)
    modifies S`next, S`prev
    ensures Output(Pass(s, insize, cmp), list, tail) && Apart(Pass(s, insize, cmp), [], [], S)
    ensures nmerges == Merges(s, insize)
  {
    hide Merge, Pass, Merges, Forward, Ended, Backward, Output, NoDup, Apart, Take, Drop;
    var p: Elem?<T> := list0;
    list, tail, nmerges := null, null, 0;
    ghost var out: seq<Elem<T>>, rest: seq<Elem<T>> := [], s;
    EmptyOutput<T>();
    assert out + Pass(rest, insize, cmp) == Pass(s, insize, cmp);
    while p != null
      invariant Output(out, list, tail) && Ended(rest) && p == At(rest, 0) && Apart(out, [], rest, S)
      invariant out + Pass(rest, insize, cmp) == Pass(s, insize, cmp)
      invariant nmerges + Merges(rest, insize) == Merges(s, insize)
      decreases |rest|
    {
      nmerges := nmerges + 1;
      var psize, q := Skip(p, insize, rest);
      SplitRun(out, rest, insize, S);
      PassStep(out, rest, insize, cmp);
      ghost var P, Q := Take(rest, insize), Drop(rest, insize);
      list, tail, q := MergeRuns(p, psize, q, insize, list, tail, cmp, out, P, Q, S);
      out, rest := out + Merge(P, Take(Q, insize), cmp), Drop(Q, insize);
      p := q;
    }
    PassEmpty(out, rest, insize, cmp);
  }

  lemma EmptyOutput<T>()
    ensures Output<T>([], null, null)
  {
  }

  lemma PassEmpty<T>(out: seq<Elem<T>>, rest: seq<Elem<T>>, k: nat, cmp: (Elem<T>, Elem<T>) -> int)
    requires k > 0 && rest == []
    ensures out + Pass(rest, k, cmp) == out && Merges(rest, k) == 0
  {
  }

  /** Clearing the last forward link completes the list. */
  method Terminate<T>(tail: Elem<T>, list: Elem?<T>, ghost out: seq<Elem<T>>, ghost S: set<Elem<T>>)
    requires Output(out, list, tail) && out != [] && NoDup(out) && tail in S
    modifies S`next
    ensures Output(out, list, tail) && Ended(out) && ListLinked(out)
  {
    tail.next := null;
  }

  lemma PassFacts<T>(s: seq<Elem<T>>, k: nat, cmp: (Elem<T>, Elem<T>) -> int, S: set<Elem<T>>)
    requires k > 0 && s != [] && Apart(Pass(s, k, cmp), [], [], S)
    ensures Pass(s, k, cmp) != [] && NoDup(Pass(s, k, cmp))
    ensures Apart([], [], Pass(s, k, cmp), S)
    ensures Merges(s, k) <= 1 ==> Passes(s, k, cmp) == Pass(s, k, cmp)
    ensures Merges(s, k) > 1 ==> Passes(s, k, cmp) == Passes(Pass(s, k, cmp), k + k, cmp)
    ensures |Pass(s, k, cmp)| == |s| && (Merges(s, k) > 1 ==> |s| > k + k)
  {
    hide Pass, Merges;
  }

  /** HASH_SRT: sort the list that starts at `head`; returns its new head and tail. */
  method SortList<T>(head: Elem<T>, cmp: (Elem<T>, Elem<T>) -> int, ghost s: seq<Elem<T>>)
    returns (newHead: Elem<T>, newTail: Elem<T>)
    requires s != [] && head == s[0] && ListLinked(s) && NoDup(s)
    modifies Elems(s)`next, Elems(s)`prev
    ensures ListLinked(MergeSort(s, cmp))
    ensures MergeSort(s, cmp) != [] && newHead == MergeSort(s, cmp)[0]
    ensures newTail == MergeSort(s, cmp)[|s| - 1]
  {
    hide Pass, Passes, Merges, Forward, Ended, Backward, Output, NoDup, Apart, ListLinked;
    ghost var S := Elems(s);
    StartFacts(s);
    var insize: nat := 1;
    var looping := true;
    newHead, newTail := head, head;
    ghost var cur := s;
    while looping
      invariant insize > 0 && cur != [] && |cur| == |s|
      invariant newHead == cur[0] && ListLinked(cur)
      invariant looping ==> Ended(cur) && Apart([], [], cur, S)
      invariant MergeSort(s, cmp) == if looping then Passes(cur, insize, cmp) else cur
      invariant !looping ==> newTail == cur[|s| - 1]
      decreases looping, if insize < |cur| then |cur| - insize else 0
    {
      var list, tail, nmerges := RunPass(newHead, insize, cmp, cur, S);
      PassFacts(cur, insize, cmp, S);
      OutputEnds(Pass(cur, insize, cmp), list, tail, S);
      Terminate(tail, list, Pass(cur, insize, cmp), S);
      cur := Pass(cur, insize, cmp);
      newHead := list;
      if nmerges <= 1 {
        looping := false;
        newTail := tail;
      }
      insize := insize * 2;
    }
  }

  lemma StartFacts<T>(s: seq<Elem<T>>)
    requires ListLinked(s) && NoDup(s)
    ensures Ended(s) && Apart([], [], s, Elems(s))
  {
  }

  lemma OutputEnds<T>(out: seq<Elem<T>>, list: Elem?<T>, tail: Elem?<T>, S: set<Elem<T>>)
    requires Output(out, list, tail) && out != [] && Apart(out, [], [], S)
    ensures list == out[0] && tail == out[|out| - 1] && tail in S
  {
  }
}
