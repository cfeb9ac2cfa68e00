/**
 The intrusive hash table of src/uthash.h on its real links: every element sits in the
 application-order list (`prev`/`next`) and in one bucket chain (`hhPrev`/`hhNext`).
 `Hash.t` is the value the links stand for; each method is proved to change it exactly
 as TableSpec says.
 */
module UtHash {
  import opened Bits
  import opened Seqs
  import opened TableSpec
  import opened Handles
  import opened SortSpec
  import ListSort

  datatype Bucket<T> = Bucket(hhHead: Elem?<T>, count: nat, expandMult: nat)

  ghost predicate ChainLinked<T>(c: seq<Elem<T>>, first: Elem?<T>)
    reads Elems(c)`hhPrev, Elems(c)`hhNext
  {
    && first == At(c, 0)
    && forall i {:trigger c[i].hhPrev} {:trigger c[i].hhNext} | 0 <= i < |c| ::
         c[i].hhPrev == At(c, i - 1) && c[i].hhNext == At(c, i + 1)
  }

  /** Bucket `k` describes chain `c`. */
  ghost predicate BucketOk<T>(k: Bucket<T>, c: seq<Elem<T>>, mult: nat)
    reads Elems(c)`hhPrev, Elems(c)`hhNext
  {
    k.count == |c| && k.expandMult == mult && ChainLinked(c, k.hhHead)
  }

  class Hash<T> {
    const hashFcn: string -> nat
    var head: Elem?<T>
    // the fields of the table that `head` owns; meaningless while `head` is NULL
    var buckets: array<Bucket<T>>
    var numBuckets: nat
    var log2NumBuckets: nat
    var numItems: nat
    var tail: Elem?<T>
    var idealChainMaxlen: nat
    var nonidealItems: nat
    var ineffExpands: nat
    var noexpand: bool

    ghost var t: Tbl<Elem<T>>

    ghost function H(): Elem<T> -> nat {
      (e: Elem<T>) => hashFcn(e.key)
    }

    /** Array `nb` holds the buckets of table value `u`. */
    ghost predicate Holds(nb: array<Bucket<T>>, u: Tbl<Elem<T>>)
      requires u.Tbl? && Chained(u.chains, u.items, H())
      reads nb, Elems(u.items)`hhPrev, Elems(u.items)`hhNext
    {
      && |u.mults| == |u.chains| == nb.Length
      && forall b | 0 <= b < nb.Length ::
           ChainWf(u.chains[b], b, u.items, |u.chains|, H()) && BucketOk(nb[b], u.chains[b], u.mults[b])
    }

    ghost predicate ScalarsBut(t: Tbl<Elem<T>>)
      requires t.Tbl?
      reads this, buckets
    {
      && numBuckets == buckets.Length == |t.chains|
      && log2NumBuckets == t.log2
      && idealChainMaxlen == t.ideal
      && nonidealItems == t.nonideal
      && ineffExpands == t.ineff
      && noexpand == t.noexpand
    }

    ghost predicate Scalars(t: Tbl<Elem<T>>)
      requires t.Tbl?
      reads this, buckets
    {
      ScalarsBut(t) && numItems == |t.items|
    }

    /** The links, counters and bucket array are those of table value `t`. */
    ghost predicate Represents(t: Tbl<Elem<T>>)
      reads this, buckets, Elems(Items(t))`prev, Elems(Items(t))`next
      reads Elems(Items(t))`hhPrev, Elems(Items(t))`hhNext, Elems(Items(t))`hashv
    {
      && t.Tbl? && t.items != []
      && Scalars(t)
      && head == t.items[0]
      && tail == t.items[|t.items| - 1]
      && ListLinked(t.items)
      && (forall x | x in t.items :: x.hashv == hashFcn(x.key))
      && Chained(t.chains, t.items, H())
      && Holds(buckets, t)
    }

    ghost predicate Valid()
      reads this, buckets, Elems(Items(t))`prev, Elems(Items(t))`next
      reads Elems(Items(t))`hhPrev, Elems(Items(t))`hhNext, Elems(Items(t))`hashv
    {
      && Wf(t, H())
      && LoadOk(t)
      && if head == null then t.NoTable? else Represents(t)
    }

    constructor (hashFcn: string -> nat)
      ensures Valid() && t == NoTable && this.hashFcn == hashFcn
      ensures fresh(buckets)
    {
      this.hashFcn := hashFcn;
      head, tail, t := null, null, NoTable;
      buckets := new Bucket<T>[0];
      numBuckets, log2NumBuckets, numItems := 0, 0, 0;
      idealChainMaxlen, nonidealItems, ineffExpands, noexpand := 0, 0, 0, false;
    }

    /** Elements of different buckets are different. */
    lemma ChainsApart(i: nat)
      requires t.Tbl? && |t.chains| > 0 && Chained(t.chains, t.items, H()) && i < |t.chains|
      ensures forall a, x | 0 <= a < |t.chains| && a != i && x in t.chains[a] :: x !in t.chains[i]
      ensures forall a, x | 0 <= a < |t.chains| && x in t.chains[a] :: x in t.items && Slot(H(), x, |t.chains|) == a
      ensures NoDup(t.chains[i])
    {
      assert forall a | 0 <= a < |t.chains| :: ChainWf(t.chains[a], a, t.items, |t.chains|, H());
    }

    lemma MaskIsSlot(x: Elem<T>)
      requires t.Tbl? && LinkReady(t, H()) && |t.chains| == Pow2(t.log2)
      ensures |t.chains| > 0 && BitAnd(hashFcn(x.key), |t.chains| - 1) == Slot(H(), x, |t.chains|)
    {
      MaskIsMod(hashFcn(x.key), t.log2);
    }

    // ----- HASH_FIND

    method Find(key: string) returns (out: Elem?<T>)
      requires Valid()
      ensures out == null <==> forall x | x in Items(t) :: x.key != key
      ensures out != null ==> out in Items(t) && out.key == key
    {
      out := null;
      if head != null {
        var bkt := BitAnd(hashFcn(key), numBuckets - 1);
        MaskIsMod(hashFcn(key), log2NumBuckets);
        out := FindInBkt(bkt, key);
      }
    }

    method FindInBkt(bkt: nat, key: string) returns (out: Elem?<T>)
      requires Valid() && t.Tbl? && bkt == hashFcn(key) % |t.chains|
      ensures out == null <==> forall x | x in t.items :: x.key != key
      ensures out != null ==> out in t.items && out.key == key
    {
      ghost var c := t.chains[bkt];
      assert ChainWf(c, bkt, t.items, |t.chains|, H());
      assert BucketOk(buckets[bkt], c, t.mults[bkt]);
      assert forall x | x in t.items && x.key == key :: H()(x) == hashFcn(key) && x in c;
      out := buckets[bkt].hhHead;
      ghost var k := 0;
      while out != null
        invariant 0 <= k <= |c| && out == At(c, k)
        invariant forall i | 0 <= i < k :: c[i].key != key
        decreases |c| - k
      {
        if out.key == key {
          break;
        }
        out, k := out.hhNext, k + 1;
      }
    }

    // ----- HASH_EXPAND_BUCKETS

    /** Push `x` on the front of new bucket `d`, whose chain so far is `c`. */
    method PushNew(nb: array<Bucket<T>>, d: nat, x: Elem<T>, ghost c: seq<Elem<T>>)
      requires d < nb.Length && nb != buckets && idealChainMaxlen > 0
      requires NoDup(c) && x !in c
      requires BucketOk(nb[d], c, MultOf(|c|, idealChainMaxlen))
      modifies nb, this`nonidealItems, x`hhPrev, x`hhNext, Elems(c)`hhPrev
      ensures BucketOk(nb[d], [x] + c, MultOf(|c| + 1, idealChainMaxlen))
      ensures forall b | 0 <= b < nb.Length && b != d :: nb[b] == old(nb[b])
      ensures nonidealItems == old(nonidealItems) + (if |c| + 1 > idealChainMaxlen then 1 else 0)
    {
      var k := nb[d];
      var count, mult := k.count + 1, k.expandMult;
      if count > idealChainMaxlen {
        nonidealItems := nonidealItems + 1;
        mult := count / idealChainMaxlen;
      }
      x.hhPrev := null;
      x.hhNext := k.hhHead;
      if k.hhHead != null {
        k.hhHead.hhPrev := x;
      }
      nb[d] := Bucket(x, count, mult);
    }

    /** As PushNew, keeping the bucket `e` with chain `other` intact. */
    method PushBeside(nb: array<Bucket<T>>, d: nat, x: Elem<T>, ghost c: seq<Elem<T>>,
                      ghost e: nat, ghost other: seq<Elem<T>>)
      requires d < nb.Length && nb != buckets && idealChainMaxlen > 0
      requires e < nb.Length && e != d
      requires NoDup(c) && x !in c && x !in other && forall y | y in c :: y !in other
      requires BucketOk(nb[d], c, MultOf(|c|, idealChainMaxlen))
      requires BucketOk(nb[e], other, MultOf(|other|, idealChainMaxlen))
      modifies nb, this`nonidealItems, x`hhPrev, x`hhNext, Elems(c)`hhPrev
      ensures BucketOk(nb[d], [x] + c, MultOf(|c| + 1, idealChainMaxlen))
      ensures BucketOk(nb[e], other, MultOf(|other|, idealChainMaxlen))
      ensures forall b | 0 <= b < nb.Length && b != d :: nb[b] == old(nb[b])
      ensures nonidealItems + Past(|c|, idealChainMaxlen) == old(nonidealItems) + Past(|c| + 1, idealChainMaxlen)
    {
      PushNew(nb, d, x, c);
    }

    /** What has been built of bucket `b` after `k` elements of old chain `c`. */
    ghost predicate Built(nb: array<Bucket<T>>, b: nat, c: seq<Elem<T>>, k: nat, m: nat)
      requires k <= |c| && m > 0
      reads this`idealChainMaxlen, nb, Elems(c)`hhPrev, Elems(c)`hhNext
    {
      b < nb.Length && BuiltBucket(nb[b], b, c, k, m)
    }

    ghost predicate BuiltBucket(bucket: Bucket<T>, b: nat, c: seq<Elem<T>>, k: nat, m: nat)
      requires k <= |c| && m > 0
      reads this`idealChainMaxlen, Elems(c)`hhPrev, Elems(c)`hhNext
    {
      RehashFacts(c[..k], b, m, H());
      var r := Rehash(c[..k], b, m, H());
      (forall x | x in r :: x in c) && BucketOk(bucket, r, MultOf(|r|, idealChainMaxlen))
    }

    ghost function BuiltLength(b: nat, c: seq<Elem<T>>, k: nat, m: nat): nat
      requires k <= |c| && m > 0
    {
      |Rehash(c[..k], b, m, H())|
    }

    lemma BuiltStep(b: nat, c: seq<Elem<T>>, k: nat, m: nat)
      requires k < |c| && m > 0 && NoDup(c)
      ensures
        var r := Rehash(c[..k], b, m, H());
        && Rehash(c[..k + 1], b, m, H()) == (if Slot(H(), c[k], m) == b then [c[k]] + r else r)
        && NoDup(r) && c[k] !in r
      ensures forall x | x in Rehash(c[..k], b, m, H()) :: x in c
      ensures forall x | x in Rehash(c[..k], b, m, H()) :: Slot(H(), x, m) == b
    {
      RehashStep(c, k, b, m, H());
      RehashFacts(c[..k], b, m, H());
      forall x | x in Rehash(c[..k], b, m, H()) ensures x in c && x != c[k] {
        RehashMember(c, k, b, m, H(), x);
      }
    }

    /** Move the element at position `k` of old chain `c` to its new bucket `d`; its chain also feeds bucket `e`. */
    method PushBuilt(x: Elem<T>, d: nat, nb: array<Bucket<T>>, ghost c: seq<Elem<T>>, ghost k: nat, ghost e: nat)
      requires d < nb.Length && nb != buckets && idealChainMaxlen > 0 && e != d
      requires k < |c| && NoDup(c) && x == c[k] && Slot(H(), x, nb.Length) == d
      requires Built(nb, d, c, k, nb.Length) && Built(nb, e, c, k, nb.Length)
      modifies nb, this`nonidealItems, Elems(c)`hhPrev, x`hhNext
      ensures Built(nb, d, c, k + 1, nb.Length) && Built(nb, e, c, k + 1, nb.Length)
      ensures forall b | 0 <= b < nb.Length && b != d :: nb[b] == old(nb[b])
      ensures nonidealItems + Past(BuiltLength(d, c, k, nb.Length), idealChainMaxlen)
              == old(nonidealItems) + Past(BuiltLength(d, c, k + 1, nb.Length), idealChainMaxlen)
      ensures BuiltLength(e, c, k + 1, nb.Length) == BuiltLength(e, c, k, nb.Length)
    {
      hide Rehash, MultOf, Slot, Past, BucketOk, NoDup;
      BuiltStep(d, c, k, nb.Length);
      BuiltStep(e, c, k, nb.Length);
      PushBeside(nb, d, x, Rehash(c[..k], d, nb.Length, H()), e, Rehash(c[..k], e, nb.Length, H()));
    }

    /**
     Old bucket `i` of `n` after `k` of its elements have been moved, `base` items having been past
     the ideal before.
     */
    ghost predicate Moved(nb: array<Bucket<T>>, i: nat, n: nat, c: seq<Elem<T>>, k: nat, base: nat)
      requires k <= |c| && n > 0
      reads this`idealChainMaxlen, this`nonidealItems, nb, Elems(c)`hhPrev, Elems(c)`hhNext
    {
      && Built(nb, i, c, k, n + n) && Built(nb, i + n, c, k, n + n)
      && nonidealItems == base + Past(BuiltLength(i, c, k, n + n), idealChainMaxlen)
                          + Past(BuiltLength(i + n, c, k, n + n), idealChainMaxlen)
    }

    method MoveOne(x: Elem<T>, i: nat, n: nat, nb: array<Bucket<T>>,
                   ghost c: seq<Elem<T>>, ghost k: nat, ghost base: nat)
      requires i < n == Pow2(log2NumBuckets)
      requires nb.Length == n + n && nb != buckets && idealChainMaxlen > 0
      requires NoDup(c) && k < |c| && x == c[k] && x.hashv == hashFcn(x.key) && Slot(H(), x, n) == i
      requires Moved(nb, i, n, c, k, base)
      modifies nb, this`nonidealItems, Elems(c)`hhPrev, x`hhNext
      ensures Moved(nb, i, n, c, k + 1, base)
      ensures forall b | 0 <= b < nb.Length && b != i && b != i + n :: nb[b] == old(nb[b])
    {
      hide Built, Past, BuiltLength, Slot, Pow2, BitAnd;
      var d := BitAnd(x.hashv, n + n - 1);
      Destination(x, n, i, log2NumBuckets);
      PushBuilt(x, d, nb, c, k, if d == i then i + n else i);
    }

    /** Distribute old chain `c` of bucket `i` over new buckets i and i + n. */
    method MoveChain(i: nat, n: nat, nb: array<Bucket<T>>, ghost c: seq<Elem<T>>)
      requires i < n == Pow2(log2NumBuckets) && n <= buckets.Length
      requires nb.Length == n + n && nb != buckets && idealChainMaxlen > 0
      requires NoDup(c) && Waiting(buckets[i], nb[i], nb[i + n], c)
      requires forall x | x in c :: x.hashv == hashFcn(x.key) && Slot(H(), x, n) == i
      modifies nb, this`nonidealItems, Elems(c)`hhPrev, Elems(c)`hhNext
      ensures Done(nb[i], nb[i + n], i, n, c)
      ensures nonidealItems == old(nonidealItems)
              + Past(|Rehash(c, i, n + n, H())|, idealChainMaxlen)
              + Past(|Rehash(c, i + n, n + n, H())|, idealChainMaxlen)
      ensures forall b | 0 <= b < nb.Length && b != i && b != i + n :: nb[b] == old(nb[b])
    {
      hide Moved, Done, Slot, Pow2, BitAnd, Rehash, Past;
      MovedNone(i, n, nb, c);
      ghost var k := 0;
      var thh := buckets[i].hhHead;
      while thh != null
        invariant 0 <= k <= |c| && thh == At(c, k)
        invariant forall j {:trigger c[j].hhNext} | k <= j < |c| :: c[j].hhNext == At(c, j + 1)
        invariant Moved(nb, i, n, c, k, old(nonidealItems))
        invariant forall b | 0 <= b < nb.Length && b != i && b != i + n :: nb[b] == old(nb[b])
        decreases |c| - k
      {
        var nxt := thh.hhNext;
        MoveOne(thh, i, n, nb, c, k, old(nonidealItems));
        thh, k := nxt, k + 1;
      }
      MovedIsDone(nb, i, n, c, old(nonidealItems));
    }

    /** Old bucket `i` of `n`, with chain `c`, is fully moved: `lo` and `hi` are its two new buckets. */
    ghost predicate Done(lo: Bucket<T>, hi: Bucket<T>, i: nat, n: nat, c: seq<Elem<T>>)
      requires n > 0
      reads this`idealChainMaxlen, Elems(c)`hhPrev, Elems(c)`hhNext
    {
      BuiltBucket(lo, i, c, |c|, n + n) && BuiltBucket(hi, i + n, c, |c|, n + n)
    }

    lemma MovedNone(i: nat, n: nat, nb: array<Bucket<T>>, c: seq<Elem<T>>)
      requires i < n && i + n < nb.Length && nb[i] == nb[i + n] == Bucket(null, 0, 0)
      ensures Moved(nb, i, n, c, 0, nonidealItems)
    {
    }

    lemma MovedIsDone(nb: array<Bucket<T>>, i: nat, n: nat, c: seq<Elem<T>>, base: nat)
      requires n > 0 && i + n < nb.Length && Moved(nb, i, n, c, |c|, base)
      ensures Done(nb[i], nb[i + n], i, n, c)
      ensures nonidealItems == base
              + Past(|Rehash(c, i, n + n, H())|, idealChainMaxlen)
              + Past(|Rehash(c, i + n, n + n, H())|, idealChainMaxlen)
    {
      assert c[..|c|] == c;
    }

    /** Old bucket `bucket`, with chain `c`, has not been reached, and its two new buckets are empty. */
    ghost predicate Waiting(bucket: Bucket<T>, lo: Bucket<T>, hi: Bucket<T>, c: seq<Elem<T>>)
      reads Elems(c)`hhPrev, Elems(c)`hhNext
    {
      ChainLinked(c, bucket.hhHead) && lo == hi == Bucket(null, 0, 0)
    }

    ghost predicate Progress(nb: array<Bucket<T>>, i: nat, chains: seq<seq<Elem<T>>>, items: seq<Elem<T>>)
      requires 0 < numBuckets == |chains| && Chained(chains, items, H())
      requires buckets.Length == numBuckets && nb.Length == numBuckets + numBuckets
      reads this`numBuckets, this`idealChainMaxlen, this`buckets, buckets, nb, Elems(items)`hhPrev, Elems(items)`hhNext
    {
      forall a | 0 <= a < |chains| ::
        ChainWf(chains[a], a, items, |chains|, H()) &&
        if a < i then Done(nb[a], nb[a + numBuckets], a, numBuckets, chains[a])
        else Waiting(buckets[a], nb[a], nb[a + numBuckets], chains[a])
    }

    lemma ProgressStart(nb: array<Bucket<T>>)
      requires t.Tbl? && Wf(t, H()) && Holds(buckets, t) && numBuckets == |t.chains|
      requires nb.Length == numBuckets + numBuckets
      requires forall b | 0 <= b < nb.Length :: nb[b] == Bucket(null, 0, 0)
      ensures Progress(nb, 0, t.chains, t.items)
    {
    }

    method MoveBucket(i: nat, nb: array<Bucket<T>>)
      requires t.Tbl? && Wf(t, H()) && i < numBuckets == |t.chains| && log2NumBuckets == t.log2
      requires buckets.Length == numBuckets
      requires forall x | x in t.items :: x.hashv == hashFcn(x.key)
      requires nb != buckets && nb.Length == numBuckets + numBuckets && idealChainMaxlen > 0
      requires Progress(nb, i, t.chains, t.items)
      modifies nb, this`nonidealItems, Elems(t.items)`hhPrev, Elems(t.items)`hhNext
      ensures Progress(nb, i + 1, t.chains, t.items)
      ensures nonidealItems == old(nonidealItems) + PairExcess(t.chains, idealChainMaxlen, H())[i]
    {
      hide Done, Waiting, ChainLinked, Slot, Rehash, Past, Pow2, Covered, Sum, ChainWf, NoDup;
      ChainsApart(i);
      label before:
      MoveChain(i, numBuckets, nb, t.chains[i]);
      forall a | 0 <= a < numBuckets && a != i
        ensures a < i ==> Done(nb[a], nb[a + numBuckets], a, numBuckets, t.chains[a])
        ensures i < a ==> Waiting(buckets[a], nb[a], nb[a + numBuckets], t.chains[a])
      {
        assert Elems(t.chains[a]) !! Elems(t.chains[i]);
        assert a < i ==> old@before(Done(nb[a], nb[a + numBuckets], a, numBuckets, t.chains[a]));
        assert i < a ==> old@before(Waiting(buckets[a], nb[a], nb[a + numBuckets], t.chains[a]));
      }
    }

    /** Redistribute every old chain over the doubled bucket array. */
    method Redistribute(nb: array<Bucket<T>>)
      requires t.Tbl? && Wf(t, H()) && Holds(buckets, t)
      requires numBuckets == |t.chains| == buckets.Length && log2NumBuckets == t.log2
      requires forall x | x in t.items :: x.hashv == hashFcn(x.key)
      requires nb != buckets && nb.Length == numBuckets + numBuckets
      requires idealChainMaxlen > 0 && nonidealItems == 0
      requires forall b | 0 <= b < nb.Length :: nb[b] == Bucket(null, 0, 0)
      modifies nb, this`nonidealItems, Elems(t.items)`hhPrev, Elems(t.items)`hhNext
      ensures Progress(nb, numBuckets, t.chains, t.items)
      ensures nonidealItems == Sum(PairExcess(t.chains, idealChainMaxlen, H()))
    {
      hide Progress, Holds, PairExcess;
      ghost var E := PairExcess(t.chains, idealChainMaxlen, H());
      ProgressStart(nb);
      var i := 0;
      while i < numBuckets
        invariant 0 <= i <= numBuckets
        invariant Progress(nb, i, t.chains, t.items)
        invariant nonidealItems == Sum(E[..i])
      {
        MoveBucket(i, nb);
        SumPrefixStep(E, i);
        i := i + 1;
      }
      assert E[..i] == E;
    }

    lemma Destination(x: Elem<T>, n: nat, i: nat, k: nat)
      requires n == Pow2(k) && Slot(H(), x, n) == i
      ensures n > 0
      ensures Slot(H(), x, n + n) == BitAnd(hashFcn(x.key), n + n - 1)
      ensures Slot(H(), x, n + n) == i || Slot(H(), x, n + n) == i + n
    {
      MaskIsMod(hashFcn(x.key), k + 1);
      ModDouble(hashFcn(x.key), n, n + n);
    }

    lemma DoneBuckets(lo: Bucket<T>, hi: Bucket<T>, a: nat, n: nat, c: seq<Elem<T>>)
      requires n > 0 && Done(lo, hi, a, n, c)
      ensures
        var r, q := Rehash(c, a, n + n, H()), Rehash(c, a + n, n + n, H());
        && BucketOk(lo, r, MultOf(|r|, idealChainMaxlen))
        && BucketOk(hi, q, MultOf(|q|, idealChainMaxlen))
    {
      assert c[..|c|] == c;
    }

    /** After redistribution the new array describes the expanded chains. */
    lemma Redistributed(nb: array<Bucket<T>>, chains: seq<seq<Elem<T>>>, mults: seq<nat>)
      requires t.Tbl? && Chained(t.chains, t.items, H()) && 0 < numBuckets == |t.chains|
      requires buckets.Length == numBuckets && nb.Length == numBuckets + numBuckets
      requires Progress(nb, numBuckets, t.chains, t.items)
      requires chains == NewChains(t.chains, H()) && mults == NewMults(chains, idealChainMaxlen)
      ensures forall b | 0 <= b < nb.Length :: BucketOk(nb[b], chains[b], mults[b])
    {
      hide Done, Rehash, NewChains, ChainLinked, MultOf, BucketOk, Slot, Chained, ChainWf;
      var n := numBuckets;
      forall b | 0 <= b < nb.Length ensures BucketOk(nb[b], chains[b], mults[b]) {
        var a := if b < n then b else b - n;
        assert Done(nb[a], nb[a + n], a, n, t.chains[a]);
        DoneBuckets(nb[a], nb[a + n], a, n, t.chains[a]);
        NewChainAt(t.chains, H(), a);
      }
    }

    method SetIdeal()
      requires t.Tbl? && Wf(t, H()) && Scalars(t)
      modifies this`idealChainMaxlen, this`nonidealItems
      ensures idealChainMaxlen == IdealLength(|t.items|, |t.chains| + |t.chains|) > 0
      ensures nonidealItems == 0
    {
      hide BitAnd, ShiftRight, IdealLength, Pow2, Wf;
      ExpandedSize();
      idealChainMaxlen := ShiftRight(numItems, log2NumBuckets + 1)
                        + (if BitAnd(numItems, numBuckets + numBuckets - 1) != 0 then 1 else 0);
      nonidealItems := 0;
    }

    lemma ExpandedSize()
      requires t.Tbl? && Wf(t, H())
      ensures
        var m := |t.chains| + |t.chains|;
        && m > 0
        && IdealLength(|t.items|, m) > 0
        && IdealLength(|t.items|, m)
           == ShiftRight(|t.items|, t.log2 + 1) + (if BitAnd(|t.items|, m - 1) != 0 then 1 else 0)
    {
      hide BitAnd, ShiftRight, IdealLength;
      assert Pow2(t.log2 + 1) == |t.chains| + |t.chains|;
      IdealByShiftAndMask(|t.items|, t.log2 + 1);
    }

    /** Swap in the new bucket array and judge whether the expansion was effective. */
    method SwapBuckets(nb: array<Bucket<T>>)
      requires t.Tbl? && |t.chains| > 0 && numBuckets == |t.chains| && log2NumBuckets == t.log2
      requires numItems == |t.items| && ineffExpands == t.ineff && noexpand == t.noexpand
      requires nb.Length == numBuckets + numBuckets
      requires idealChainMaxlen == Expand(t, H()).ideal && nonidealItems == Expand(t, H()).nonideal
      modifies this`t, this`numBuckets, this`log2NumBuckets, this`buckets, this`ineffExpands, this`noexpand
      ensures t == old(Expand(t, H())) && Scalars(t) && buckets == nb
    {
      t := Expand(t, H());
      numBuckets := numBuckets + numBuckets;
      log2NumBuckets := log2NumBuckets + 1;
      buckets := nb;
      assert ShiftRight(numItems, 1) == numItems / 2;
      ineffExpands := if nonidealItems > ShiftRight(numItems, 1) then ineffExpands + 1 else 0;
      if ineffExpands > 1 {
        noexpand := true;
      }
    }

    method BuildBuckets() returns (nb: array<Bucket<T>>)
      requires Represents(t) && Wf(t, H())
      modifies this`idealChainMaxlen, this`nonidealItems, Elems(t.items)`hhPrev, Elems(t.items)`hhNext
      ensures Wf(Expand(t, H()), H()) && Holds(nb, Expand(t, H()))
      ensures idealChainMaxlen == Expand(t, H()).ideal && nonidealItems == Expand(t, H()).nonideal
      ensures fresh(nb) && nb.Length == numBuckets + numBuckets
    {
      hide Holds, ListLinked, Progress, Chained, Covered, NoDup, Excess, PairExcess, BucketOk;
      ghost var u := Expand(t, H());
      ExpandKeepsWf(t, H());
      nb := new Bucket<T>[numBuckets + numBuckets](_ => Bucket(null, 0, 0));
      SetIdeal();
      Redistribute(nb);
      PairExcessSum(t.chains, idealChainMaxlen, H());
      Redistributed(nb, u.chains, u.mults);
      HoldsFromChains(nb, u);
    }

    lemma HoldsFromChains(nb: array<Bucket<T>>, u: Tbl<Elem<T>>)
      requires u.Tbl? && Wf(u, H()) && nb.Length == |u.chains|
      requires forall b | 0 <= b < nb.Length :: BucketOk(nb[b], u.chains[b], u.mults[b])
      ensures Holds(nb, u)
    {
    }

    method ExpandBuckets()
      requires Represents(t) && Wf(t, H())
      modifies this, Elems(t.items)`hhPrev, Elems(t.items)`hhNext
      ensures t == old(Expand(t, H())) && Represents(t) && Wf(t, H())
      ensures fresh(buckets)
    {
      hide Holds, BucketOk, ListLinked, Chained, Covered, Sum, NoDup, Pow2, NewChains, NewMults, IdealLength, Excess;
      var nb := BuildBuckets();
      SwapBuckets(nb);
    }

    // ----- HASH_ADD_KEYPTR

    lemma EmptyHolds(nb: array<Bucket<T>>)
      requires nb.Length == 32 && forall b | 0 <= b < 32 :: nb[b] == Bucket(null, 0, 0)
      ensures Chained(TableSpec.MakeTable<Elem<T>>().chains, TableSpec.MakeTable<Elem<T>>().items, H())
      ensures Holds(nb, TableSpec.MakeTable())
    {
      hide TableSpec.MakeTable;
      MakeTableFacts<Elem<T>>();
    }

    lemma NewTable()
      ensures
        var t := TableSpec.MakeTable<Elem<T>>();
        LinkReady(t, H()) && |t.chains| == |t.mults| == 32 && t == Tbl([], 5, t.chains, t.mults, 0, 0, 0, false)
    {
      hide TableSpec.MakeTable, Wf;
      MakeTableFacts<Elem<T>>();
    }

    method MakeTable(add: Elem<T>)
      requires t == NoTable
      modifies this
      ensures t == TableSpec.MakeTable() && LinkReady(t, H()) && Scalars(t) && Holds(buckets, t) && tail == add
      ensures head == old(head) && fresh(buckets)
    {
      hide Holds, Chained, LinkReady, TableSpec.MakeTable;
      NewTable();
      tail := add;
      numBuckets, log2NumBuckets, numItems := 32, 5, 0;
      idealChainMaxlen, nonidealItems, ineffExpands, noexpand := 0, 0, 0, false;
      buckets := EmptyBuckets();
      t := TableSpec.MakeTable();
    }

    /** The zeroed memory of the first buckets. */
    method EmptyBuckets() returns (nb: array<Bucket<T>>)
      ensures fresh(nb) && nb.Length == 32
      ensures Chained(TableSpec.MakeTable<Elem<T>>().chains, TableSpec.MakeTable<Elem<T>>().items, H())
      ensures Holds(nb, TableSpec.MakeTable())
    {
      hide Holds, TableSpec.MakeTable, Chained;
      nb := new Bucket<T>[32](_ => Bucket(null, 0, 0));
      EmptyHolds(nb);
    }

    /** HASH_ADD_TO_BKT up to the expansion test, on the bucket alone. */
    method PushOld(bkt: nat, add: Elem<T>, ghost c: seq<Elem<T>>, ghost mult: nat)
      requires bkt < buckets.Length && NoDup(c) && add !in c && BucketOk(buckets[bkt], c, mult)
      modifies buckets, add`hhPrev, add`hhNext, Elems(c)`hhPrev
      ensures BucketOk(buckets[bkt], [add] + c, mult)
      ensures forall b | 0 <= b < buckets.Length && b != bkt :: buckets[b] == old(buckets[b])
    {
      var k := buckets[bkt];
      add.hhNext := k.hhHead;
      add.hhPrev := null;
      if k.hhHead != null {
        k.hhHead.hhPrev := add;
      }
      buckets[bkt] := Bucket(add, k.count + 1, k.expandMult);
    }

    method LinkInBkt(bkt: nat, add: Elem<T>)
      requires LinkReady(t, H()) && add !in t.items && Holds(buckets, t)
      requires |t.chains| > 0 && bkt == Slot(H(), add, |t.chains|)
      requires ListLinked(t.items + [add])
      modifies buckets, this`t, add`hhPrev, add`hhNext, Elems(t.items)`hhPrev
      ensures t == old(Link(t, add, H())) && Wf(t, H()) && Holds(buckets, t) && ListLinked(t.items)
    {
      hide Covered, Sum, Slot, BucketOk, TableSpec.MakeTable, Pow2;
      ghost var c := t.chains[bkt];
      ghost var u := Link(t, add, H());
      LinkKeepsWf(t, add, H());
      ChainsApart(bkt);
      label before:
      PushOld(bkt, add, c, t.mults[bkt]);
      forall b | 0 <= b < buckets.Length ensures BucketOk(buckets[b], u.chains[b], u.mults[b]) {
        if b != bkt {
          assert Elems(t.chains[b]) !! Elems([add] + c);
          assert old@before(BucketOk(buckets[b], t.chains[b], t.mults[b]));
        }
      }
      t := u;
      HoldsFromChains(buckets, u);
    }

    /** Everything but the bucket links agrees with the items of `t` followed by `add`. */
    ghost predicate Appended(add: Elem<T>)
      reads this, buckets, add, Elems(Items(t))
    {
      && LinkReady(t, H()) && add !in t.items
      && numItems == |t.items| + 1
      && ScalarsBut(t)
      && head == (t.items + [add])[0] && tail == add
      && ListLinked(t.items + [add])
      && (forall x | x in t.items :: x.hashv == hashFcn(x.key))
    }

    /** The first element gets a new table. */
    method StartTable(add: Elem<T>)
      requires t == NoTable
      modifies this, add`prev
      requires add.next == null
      ensures t == TableSpec.MakeTable() && Appended(add) && Holds(buckets, t) && fresh(buckets)
    {
      hide Wf, Holds, TableSpec.MakeTable;
      head := add;
      add.prev := null;
      MakeTable(add);
      MakeTableFacts<Elem<T>>();
      numItems := numItems + 1;
    }

    method LinkLast(last: Elem<T>, add: Elem<T>, ghost s: seq<Elem<T>>)
      requires ListLinked(s) && NoDup(s) && s != [] && last == s[|s| - 1]
      requires add !in s && add.next == null
      modifies last`next, add`prev
      ensures ListLinked(s + [add])
    {
      last.next := add;
      add.prev := last;
    }

    lemma WfItems()
      requires t.Tbl? && Wf(t, H())
      ensures t.items != [] && NoDup(t.items) && |t.chains| > 0
      ensures Chained(t.chains, t.items, H())
    {
    }

    /** A later one goes behind the tail. */
    method LinkTail(add: Elem<T>)
      requires Represents(t) && Wf(t, H()) && add !in t.items && add.next == null
      modifies this`tail, this`numItems, add`prev, Elems(t.items)`next
      ensures Appended(add) && Holds(buckets, t)
    {
      hide Wf, Holds, ListLinked, NoDup, Chained;
      WfItems();
      LinkLast(tail, add, t.items);
      tail := add;
      numItems := numItems + 1;
    }

    method AppendToList(add: Elem<T>)
      requires Valid() && add !in Items(t)
      modifies this, add`next, add`prev, Elems(Items(t))`next
      ensures t == old(if t.NoTable? then TableSpec.MakeTable() else t)
      ensures Appended(add) && Holds(buckets, t)
      ensures buckets == old(buckets) || fresh(buckets)
    {
      hide Wf, LoadOk, Holds, Scalars, ListLinked, TableSpec.MakeTable;
      add.next := null;
      if head == null {
        StartTable(add);
      } else {
        LinkTail(add);
      }
    }

    lemma TriggerTest(bkt: nat)
      requires t.Tbl? && Chained(t.chains, t.items, H()) && Holds(buckets, t) && bkt < |t.chains|
      ensures buckets[bkt].count >= (buckets[bkt].expandMult + 1) * CAPACITY_THRESH && !t.noexpand <==> Triggers(t, bkt)
    {
      assert BucketOk(buckets[bkt], t.chains[bkt], t.mults[bkt]);
    }

    /** HASH_ADD_TO_BKT. */
    method AddToBkt(bkt: nat, add: Elem<T>)
      requires Appended(add) && Holds(buckets, t) && add.hashv == hashFcn(add.key)
      requires |t.chains| > 0 && bkt == Slot(H(), add, |t.chains|)
      modifies this, buckets, add`hhPrev, add`hhNext, Elems(t.items)`hhPrev, Elems(t.items)`hhNext
      ensures
        var t1 := old(Link(t, add, H()));
        t == if Triggers(t1, bkt) then Expand(t1, H()) else t1
      ensures Represents(t) && Wf(t, H())
      ensures buckets == old(buckets) || fresh(buckets)
    {
      hide Holds, ListLinked, Slot, Triggers, Expand, TableSpec.MakeTable, Covered, Sum, NoDup, Chained;
      LinkInBkt(bkt, add);
      WfItems();
      TriggerTest(bkt);
      if buckets[bkt].count >= (buckets[bkt].expandMult + 1) * CAPACITY_THRESH && !noexpand {
        ExpandBuckets();
      }
    }

    method Add(add: Elem<T>)
      requires Valid() && add !in Items(t)
      modifies this, buckets, add`next, add`prev, add`hhPrev, add`hhNext, add`hashv
      modifies Elems(Items(t))`next, Elems(Items(t))`hhPrev, Elems(Items(t))`hhNext
      ensures Valid()
      ensures t == old(TableSpec.Add(t, add, H()))
      ensures Items(t) == old(Items(t)) + [add]
      ensures buckets == old(buckets) || fresh(buckets)
    {
      hide Wf, LoadOk, Holds, ListLinked, TableSpec.MakeTable, Expand, Link, Triggers, Scalars, Slot;
      AddKeeps(t, add, H());
      AppendToList(add);
      MakeTableFacts<Elem<T>>();
      WfShape();
      add.hashv := hashFcn(add.key);
      var bkt := BitAnd(add.hashv, numBuckets - 1);
      MaskIsSlot(add);
      AddToBkt(bkt, add);
    }

    lemma WfShape()
      requires LinkReady(t, H())
      ensures |t.chains| == |t.mults| == Pow2(t.log2) > 0
    {
      MakeTableFacts<Elem<T>>();
    }

    // ----- HASH_DELETE

    /** `s` is linked except that its neighbours bypass position `k`. */
    static ghost predicate ListBypasses(s: seq<Elem<T>>, k: nat)
      reads Elems(s)`prev, Elems(s)`next
    {
      forall i {:trigger s[i].prev} {:trigger s[i].next} | 0 <= i < |s| && i != k ::
        && s[i].prev == At(s, if i == k + 1 then k - 1 else i - 1)
        && s[i].next == At(s, if i + 1 == k then k + 1 else i + 1)
    }

    static ghost predicate ChainBypasses(c: seq<Elem<T>>, k: nat)
      reads Elems(c)`hhPrev, Elems(c)`hhNext
    {
      forall i {:trigger c[i].hhPrev} {:trigger c[i].hhNext} | 0 <= i < |c| && i != k ::
        && c[i].hhPrev == At(c, if i == k + 1 then k - 1 else i - 1)
        && c[i].hhNext == At(c, if i + 1 == k then k + 1 else i + 1)
    }

    static lemma CutList(s: seq<Elem<T>>, k: nat, r: seq<Elem<T>>)
      requires Without(s, k, r) && ListBypasses(s, k)
      ensures ListLinked(r)
    {
      forall i | 0 <= i < |r| ensures r[i].prev == At(r, i - 1) && r[i].next == At(r, i + 1) {
        CutAt(s, k, r, i - 1);
        CutAt(s, k, r, i);
        CutAt(s, k, r, i + 1);
      }
    }

    static lemma CutAt(s: seq<Elem<T>>, k: nat, r: seq<Elem<T>>, i: int)
      requires Without(s, k, r)
      ensures At(r, i) == At(s, if i < k then i else i + 1)
    {
    }

    static lemma CutChain(c: seq<Elem<T>>, k: nat, r: seq<Elem<T>>)
      requires Without(c, k, r) && ChainBypasses(c, k)
      ensures ChainLinked(r, At(c, if k == 0 then 1 else 0))
    {
      hide Without;
      CutAt(c, k, r, 0);
      forall i | 0 <= i < |r| ensures r[i].hhPrev == At(r, i - 1) && r[i].hhNext == At(r, i + 1) {
        CutAt(c, k, r, i - 1);
        CutAt(c, k, r, i);
        CutAt(c, k, r, i + 1);
      }
    }

    /** Patch the application list around `e`, the element at position `k` of `s`. */
    method UnlinkList(e: Elem<T>, ghost s: seq<Elem<T>>, ghost k: nat)
      requires ListLinked(s) && NoDup(s) && |s| > 1 && k < |s| && s[k] == e
      requires head == s[0] && tail == s[|s| - 1]
      modifies this`head, this`tail, Elems(s)`prev, Elems(s)`next
      ensures ListBypasses(s, k)
      ensures head == s[if k == 0 then 1 else 0]
      ensures tail == s[if k == |s| - 1 then |s| - 2 else |s| - 1]
    {
      if e == tail {
        tail := e.prev;
      }
      if e.prev != null {
        e.prev.next := e.next;
      } else {
        head := e.next;
      }
      if e.next != null {
        e.next.prev := e.prev;
      }
    }

    method UnlinkApp(e: Elem<T>, ghost s: seq<Elem<T>>, ghost k: nat, ghost r: seq<Elem<T>>)
      requires ListLinked(s) && NoDup(s) && |s| > 1 && k < |s| && s[k] == e && Without(s, k, r)
      requires head == s[0] && tail == s[|s| - 1]
      modifies this`head, this`tail, Elems(s)`prev, Elems(s)`next
      ensures ListLinked(r) && r != [] && head == r[0] && tail == r[|r| - 1]
    {
      hide ListLinked, NoDup, ListBypasses;
      UnlinkList(e, s, k);
      CutList(s, k, r);
      CutAt(s, k, r, 0);
      CutAt(s, k, r, |r| - 1);
    }

    /** HASH_DEL_IN_BKT: patch the chain around `e`, the element at position `j` of `c`. */
    method DelInBkt(bkt: nat, e: Elem<T>, ghost c: seq<Elem<T>>, ghost j: nat,
                    ghost mult: nat, ghost order: seq<Elem<T>>)
      requires ListLinked(order)
      requires bkt < buckets.Length && NoDup(c) && j < |c| && c[j] == e && BucketOk(buckets[bkt], c, mult)
      modifies buckets, Elems(c)`hhPrev, Elems(c)`hhNext
      ensures buckets[bkt] == Bucket(At(c, if j == 0 then 1 else 0), |c| - 1, mult)
      ensures ChainBypasses(c, j)
      ensures forall b | 0 <= b < buckets.Length && b != bkt :: buckets[b] == old(buckets[b])
      ensures ListLinked(order)
    {
      hide ListLinked;
      var k := buckets[bkt];
      buckets[bkt] := Bucket(if k.hhHead == e then e.hhNext else k.hhHead, k.count - 1, k.expandMult);
      if e.hhPrev != null {
        e.hhPrev.hhNext := e.hhNext;
      }
      if e.hhNext != null {
        e.hhNext.hhPrev := e.hhPrev;
      }
    }

    /** Take `e` out of its bucket, all other buckets staying as they are. */
    method UnlinkBkt(bkt: nat, e: Elem<T>)
      requires t.Tbl? && Wf(t, H()) && Holds(buckets, t) && e in t.items && |t.items| > 1
      requires |t.chains| > 0 && bkt == Slot(H(), e, |t.chains|)
      requires ListLinked(Remove(t.items, e))
      modifies buckets, this`t, Elems(t.items)`hhPrev, Elems(t.items)`hhNext
      ensures t == old(TableSpec.Delete(t, e, H()))
      ensures t.Tbl? && Wf(t, H())
      ensures Holds(buckets, t) && ListLinked(t.items)
    {
      hide Sum, Slot, BucketOk, Pow2, Capacity, Lengths, Covered, ListLinked, Remove;
      ghost var c := t.chains[bkt];
      ghost var u := TableSpec.Delete(t, e, H());
      DeleteKeepsWf(t, e, H());
      ChainsApart(bkt);
      ghost var j := PositionInChain(e, bkt);
      label before:
      DelInBkt(bkt, e, c, j, t.mults[bkt], u.items);
      CutChainBucket(buckets[bkt], c, j, t.mults[bkt], u.chains[bkt]);
      forall b | 0 <= b < buckets.Length ensures BucketOk(buckets[b], u.chains[b], u.mults[b]) {
        if b != bkt {
          assert Elems(t.chains[b]) !! Elems(c);
          assert old@before(BucketOk(buckets[b], t.chains[b], t.mults[b]));
        }
      }
      t := u;
      HoldsFromWf(u);
    }

    lemma PositionInChain(e: Elem<T>, bkt: nat) returns (j: nat)
      requires t.Tbl? && Wf(t, H()) && Holds(buckets, t) && e in t.items
      requires |t.chains| > 0 && bkt == Slot(H(), e, |t.chains|)
      ensures bkt < |t.chains| && j < |t.chains[bkt]| && t.chains[bkt][j] == e
      ensures Without(t.chains[bkt], j, Remove(t.chains[bkt], e))
      ensures BucketOk(buckets[bkt], t.chains[bkt], t.mults[bkt])
    {
      var c := t.chains[bkt];
      assert ChainWf(c, bkt, t.items, |t.chains|, H());
      j :| 0 <= j < |c| && c[j] == e;
      RemoveIsWithout(c, j);
    }

    static lemma CutChainBucket(k: Bucket<T>, c: seq<Elem<T>>, j: nat, mult: nat, r: seq<Elem<T>>)
      requires Without(c, j, r) && ChainBypasses(c, j)
      requires k == Bucket(At(c, if j == 0 then 1 else 0), |c| - 1, mult)
      ensures BucketOk(k, r, mult)
    {
      CutChain(c, j, r);
    }

    lemma HoldsFromWf(u: Tbl<Elem<T>>)
      requires u.Tbl? && Wf(u, H()) && |u.chains| == buckets.Length
      requires forall b | 0 <= b < buckets.Length :: BucketOk(buckets[b], u.chains[b], u.mults[b])
      ensures Holds(buckets, u)
    {
    }

    method Delete(e: Elem<T>)
      requires Valid() && e in Items(t)
      modifies this, buckets, Elems(Items(t))`prev, Elems(Items(t))`next
      modifies Elems(Items(t))`hhPrev, Elems(Items(t))`hhNext
      ensures Valid()
      ensures t == old(TableSpec.Delete(t, e, H()))
      ensures Items(t) == Remove(old(Items(t)), e)
      ensures buckets == old(buckets)
    {
      hide Wf, LoadOk, Holds, ListLinked, Slot, Remove, NoDup, ListBypasses, Pow2, BitAnd;
      DeleteKeeps(t, e, H());
      ghost var k := PositionOf(e);
      if e.prev == null && e.next == null {
        head := null;
        t := NoTable;
      } else {
        Unlink(e, k);
      }
    }

    lemma DeleteShape(t: Tbl<Elem<T>>, e: Elem<T>)
      requires t.Tbl? && |t.chains| > 0 && |t.items| > 1
      ensures
        var u := TableSpec.Delete(t, e, H());
        u.Tbl? && |u.chains| == |t.chains| && u == t.(items := Remove(t.items, e), chains := u.chains)
    {
      hide Slot, Remove;
    }

    lemma WithoutLength(s: seq<Elem<T>>, k: nat, r: seq<Elem<T>>)
      requires Without(s, k, r)
      ensures |r| == |s| - 1
    {
    }

    /** HASH_DELETE of an element that is not alone. */
    method Unlink(e: Elem<T>, ghost k: nat)
      requires Represents(t) && Wf(t, H()) && e in t.items && |t.items| > 1
      requires NoDup(t.items) && k < |t.items| && t.items[k] == e && Without(t.items, k, Remove(t.items, e))
      modifies this, buckets, Elems(t.items)`prev, Elems(t.items)`next
      modifies Elems(t.items)`hhPrev, Elems(t.items)`hhNext
      ensures t == old(TableSpec.Delete(t, e, H()))
      ensures Represents(t) && Wf(t, H()) && buckets == old(buckets)
    {
      hide Wf, Holds, ListLinked, Slot, Remove, NoDup, Pow2, BitAnd, TableSpec.Delete, Without, Chained;
      WithoutLength(t.items, k, Remove(t.items, e));
      UnlinkApp(e, t.items, k, Remove(t.items, e));
      assert Scalars(t);
      assert forall x | x in t.items :: x.hashv == hashFcn(x.key);
      UnlinkRest(e);
    }

    /** The bucket's side of HASH_DELETE, once the application list is patched. */
    method UnlinkRest(e: Elem<T>)
      requires t.Tbl? && Wf(t, H()) && Scalars(t) && Chained(t.chains, t.items, H()) && Holds(buckets, t)
      requires e in t.items && forall x | x in t.items :: x.hashv == hashFcn(x.key)
      requires |Remove(t.items, e)| == |t.items| - 1 > 0 && ListLinked(Remove(t.items, e))
      requires head == Remove(t.items, e)[0] && tail == Remove(t.items, e)[|t.items| - 2]
      modifies this`t, this`numItems, buckets, Elems(t.items)`hhPrev, Elems(t.items)`hhNext
      ensures t == old(TableSpec.Delete(t, e, H()))
      ensures Represents(t) && Wf(t, H())
    {
      hide Wf, Holds, ListLinked, Slot, Remove, NoDup, Pow2, BitAnd, TableSpec.Delete, Chained;
      WfShape();
      ghost var items := t.items;
      DeleteShape(t, e);
      var bkt := BitAnd(e.hashv, numBuckets - 1);
      MaskIsSlot(e);
      UnlinkBkt(bkt, e);
      numItems := numItems - 1;
      WfItems();
      assert forall x | x in t.items :: x in items;
    }

    /** Where `e` is, and how its links tell whether it is alone. */
    lemma PositionOf(e: Elem<T>) returns (k: nat)
      requires t.Tbl? && Wf(t, H()) && ListLinked(t.items) && e in t.items
      ensures k < |t.items| && t.items[k] == e && NoDup(t.items)
      ensures e.prev == null && e.next == null <==> |t.items| == 1
      ensures Without(t.items, k, Remove(t.items, e))
    {
      k :| 0 <= k < |t.items| && t.items[k] == e;
      RemoveIsWithout(t.items, k);
    }

    // ----- HASH_SRT

    /** `after` is in order, and elements the comparison does not tell apart keep the order they had. */
    static ghost predicate SortedStably(before: seq<Elem<T>>, after: seq<Elem<T>>, cmp: (Elem<T>, Elem<T>) -> int) {
      && Sorted(after, cmp)
      && forall x | x in before :: Filter(after, Ties(x, cmp)) == Filter(before, Ties(x, cmp))
    }

    static lemma SortsStably(items: seq<Elem<T>>, cmp: (Elem<T>, Elem<T>) -> int)
      ensures multiset(MergeSort(items, cmp)) == multiset(items)
      ensures TotalPreorder(cmp, Elems(items)) ==> SortedStably(items, MergeSort(items, cmp), cmp)
      ensures items == [] ==> MergeSort(items, cmp) == []
    {
      hide TotalPreorder;
      PassesPermute(items, 1, cmp);
      if TotalPreorder(cmp, Elems(items)) {
        MergeSortCorrect(items, cmp, Elems(items));
      }
    }

    /** Sort the application order; the buckets and all counters stay as they are. */
    method Sort(cmp: (Elem<T>, Elem<T>) -> int)
      requires Valid()
      modifies this`head, this`tail, this`t, Elems(Items(t))`prev, Elems(Items(t))`next
      ensures Valid()
      ensures t == if old(t).NoTable? then NoTable else old(t).(items := MergeSort(old(t).items, cmp))
      ensures multiset(Items(t)) == multiset(old(Items(t)))
      ensures TotalPreorder(cmp, Elems(old(Items(t)))) ==> SortedStably(old(Items(t)), Items(t), cmp)
    {
      hide Wf, LoadOk, Holds, ListLinked, Scalars, NoDup, MergeSort, Chained, TotalPreorder, SortedStably;
      SortsStably(Items(t), cmp);
      if head != null {
        WfItems();
        SortedWf(t, MergeSort(t.items, cmp), cmp);
        SortTable(cmp, MergeSort(t.items, cmp));
      }
    }

    method SortTable(cmp: (Elem<T>, Elem<T>) -> int, ghost items: seq<Elem<T>>)
      requires Represents(t) && NoDup(t.items) && items == MergeSort(t.items, cmp)
      requires Chained(t.chains, items, H()) && Elems(items) == Elems(t.items) && |items| == |t.items|
      modifies this`head, this`tail, this`t, Elems(t.items)`prev, Elems(t.items)`next
      ensures t == old(t).(items := items) && Represents(t) && head != null
    {
      hide Holds, ListLinked, NoDup, MergeSort, Chained;
      SortLinks(cmp, items);
      HoldsReordered(items);
      forall x | x in items ensures x.hashv == hashFcn(x.key) {
        assert x in Elems(items);
      }
      t := t.(items := items);
    }

    method SortLinks(cmp: (Elem<T>, Elem<T>) -> int, ghost items: seq<Elem<T>>)
      requires Represents(t) && NoDup(t.items) && items == MergeSort(t.items, cmp)
      modifies this`head, this`tail, Elems(t.items)`prev, Elems(t.items)`next
      ensures ListLinked(items) && items != [] && head == items[0] && tail == items[|t.items| - 1]
      ensures Chained(t.chains, t.items, H()) && Holds(buckets, t)
    {
      hide Holds, ListLinked, NoDup, MergeSort;
      head, tail := ListSort.SortList(head, cmp, t.items);
    }

    /** A permutation of the items describes the same buckets. */
    lemma SortedWf(t: Tbl<Elem<T>>, items: seq<Elem<T>>, cmp: (Elem<T>, Elem<T>) -> int)
      requires t.Tbl? && Wf(t, H()) && LoadOk(t) && items == MergeSort(t.items, cmp)
      ensures Wf(t.(items := items), H()) && LoadOk(t.(items := items))
      ensures |items| == |t.items| && items != [] && Elems(items) == Elems(t.items)
      ensures Chained(t.chains, items, H())
    {
      hide ChainWf, Sum, Slot, Pow2;
      PassesPermute(t.items, 1, cmp);
      SamePermutation(t.items, items);
      forall b | 0 <= b < |t.chains| ensures ChainWf(t.chains[b], b, items, |t.chains|, H()) {
        assert ChainWf(t.chains[b], b, t.items, |t.chains|, H());
        ChainReordered(t.chains[b], b, t.items, items, |t.chains|);
      }
    }

    lemma ChainReordered(c: seq<Elem<T>>, b: nat, s: seq<Elem<T>>, r: seq<Elem<T>>, n: nat)
      requires n > 0 && ChainWf(c, b, s, n, H()) && forall x | x in s :: x in r
      ensures ChainWf(c, b, r, n, H())
    {
    }

    lemma HoldsReordered(items: seq<Elem<T>>)
      requires t.Tbl? && Chained(t.chains, t.items, H()) && Holds(buckets, t)
      requires Chained(t.chains, items, H())
      ensures Holds(buckets, t.(items := items))
    {
    }
  }

  lemma SamePermutation<X>(s: seq<X>, r: seq<X>)
    requires multiset(s) == multiset(r)
    ensures |s| == |r|
    ensures forall x :: x in s <==> x in r
    ensures NoDup(s) ==> NoDup(r)
  {
    assert |multiset(s)| == |multiset(r)|;
    forall x ensures x in s <==> x in r {
      assert x in s <==> x in multiset(s);
      assert x in r <==> x in multiset(r);
    }
    if NoDup(s) {
      forall i, j | 0 <= i < j < |r| ensures r[i] != r[j] {
        OccursOnce(s, r[i]);
        if r[i] == r[j] {
          OccursTwice(r, i, j);
        }
      }
    }
  }

  lemma {:induction false} OccursOnce<X>(s: seq<X>, x: X)
    requires NoDup(s)
    ensures multiset(s)[x] <= 1
  {
    if s != [] {
      assert s == [s[0]] + s[1..];
      OccursOnce(s[1..], x);
      if s[0] == x {
        assert x !in s[1..];
      }
    }
  }

  lemma OccursTwice<X>(s: seq<X>, i: nat, j: nat)
    requires i < j < |s| && s[i] == s[j]
    ensures multiset(s)[s[i]] >= 2
  {
    assert s == s[..j] + s[j..];
    assert s[..j][i] == s[i] && s[j..][0] == s[j];
    assert s[i] in multiset(s[..j]) && s[j] in multiset(s[j..]);
  }
}
