/**
 get_http_parameter of src/camhttp.c: a tokenizer that cuts, trims and unquotes a
 comma-separated header inside its own buffer, proved to compute ParamSpec.Lookup.
 Pointers are positions in the buffer; -1 is NULL.
 */
module Params {
  import opened ParamSpec
  import opened Texts

  predicate NoNul(s: string, x: nat, y: nat) {
    y <= |s| && forall k | x <= k < y :: s[k] != '\0'
  }

  lemma {:induction false} CStringIs(s: string, p: nat, e: nat)
    requires p <= e < |s| && s[e] == '\0' && NoNul(s, p, e)
    ensures CString(s, p) == s[p..e]
    decreases e - p
  {
    if p < e {
      assert s[p] == s[p..e][0];
      assert s[p + 1..e] == s[p..e][1..];
      CStringIs(s, p + 1, e);
    }
  }

  lemma {:induction false} CStringEnds(s: string, p: nat)
    requires p < |s| && s[|s| - 1] == '\0'
    ensures var e := p + |CString(s, p)|; e < |s| && s[e] == '\0' && NoNul(s, p, e) && CString(s, p) == s[p..e]
    decreases |s| - p
  {
    if s[p] != '\0' {
      CStringEnds(s, p + 1);
      var e := p + |CString(s, p)|;
      assert s[p..e] == [s[p]] + s[p + 1..e];
    }
  }

  /** strlen. */
  method StrLen(a: array<char>, q: nat) returns (n: nat)
    requires q < a.Length && exists e :: q <= e < a.Length && a[e] == '\0'
    ensures q + n < a.Length && a[q + n] == '\0' && NoNul(a[..], q, q + n)
  {
    ghost var e :| q <= e < a.Length && a[e] == '\0';
    n := 0;
    while a[q + n] != '\0'
      invariant q + n <= e && NoNul(a[..], q, q + n)
      decreases e - n
    {
      n := n + 1;
    }
  }

  /**
   strsep for one delimiter: cuts at the first `delim` of the string at `q` and returns the position
   behind it, or -1.
   */
  method StrSep(a: array<char>, q: nat, delim: char, ghost e: nat) returns (rest: int)
    requires q <= e < a.Length && a[e] == '\0' && NoNul(a[..], q, e) && delim != '\0'
    modifies a
    ensures
      var k := IndexOf(old(a[..])[q..e], delim);
      if k == e - q then rest == -1 && a[..] == old(a[..])
      else rest == q + k + 1 && a[..] == old(a[..])[q + k := '\0']
  {
    var k := q;
    ghost var s := a[..][q..e];
    while a[k] != '\0' && a[k] != delim
      invariant q <= k <= e && delim !in s[..k - q] && a[..] == old(a[..])
      decreases e - k
    {
      assert s[k - q] == a[k];
      k := k + 1;
    }
    assert k < e ==> s[k - q] == a[k];
    IndexIs(s, delim, k - q);
    if a[k] == '\0' {
      rest := -1;
    } else {
      a[k] := '\0';
      rest := k + 1;
    }
  }

  lemma {:induction false} TrimLeftAt(s: string, p: nat, r: nat, e: nat)
    requires p <= r <= e <= |s| && forall k | p <= k < r :: Blank(s[k])
    requires r == e || !Blank(s[r])
    ensures TrimLeft(s[p..e]) == s[r..e]
    decreases r - p
  {
    hide TrimLeft;
    if p < r {
      assert s[p..e][0] == s[p] && s[p..e][1..] == s[p + 1..e];
      TrimLeftStep(s[p..e]);
      TrimLeftAt(s, p + 1, r, e);
    } else {
      TrimLeftStep(s[p..e]);
    }
  }

  lemma TrimLeftStep(s: string)
    ensures TrimLeft(s) == if s != "" && Blank(s[0]) then TrimLeft(s[1..]) else s
  {
  }

  lemma {:induction false} TrimRightAt(s: string, p: nat, r: nat, e: nat)
    requires p <= r <= e <= |s| && forall k | r <= k < e :: Blank(s[k])
    requires r == p || !Blank(s[r - 1])
    ensures TrimRight(s[p..e]) == s[p..r]
    decreases e - r
  {
    if r < e {
      assert s[p..e][e - p - 1] == s[e - 1] && s[p..e][..e - p - 1] == s[p..e - 1];
      TrimRightAt(s, p, r, e - 1);
    } else if p < e {
      assert s[p..e][e - p - 1] == s[e - 1];
    }
  }

  /** Skip leading blanks of the string at `p`, which ends at `e`. */
  method SkipBlanks(a: array<char>, p: nat, ghost e: nat) returns (r: nat)
    requires p <= e < a.Length && a[e] == '\0' && NoNul(a[..], p, e)
    ensures p <= r <= e && (forall k | p <= k < r :: Blank(a[k])) && (r == e || !Blank(a[r]))
  {
    r := p;
    while a[r] != '\0' && Blank(a[r])
      invariant p <= r <= e && forall k | p <= k < r :: Blank(a[k])
      decreases e - r
    {
      r := r + 1;
    }
    assert r < e ==> a[..][r] != '\0';
  }

  /** The scan to the terminating NUL that both trimming loops start with. */
  method FindEnd(a: array<char>, p: nat, ghost e: nat) returns (temp: nat)
    requires p <= e < a.Length && a[e] == '\0' && NoNul(a[..], p, e)
    ensures temp == e
  {
    temp := p;
    assert forall k | p <= k < e :: a[..][k] != '\0';
    while a[temp] != '\0'
      invariant p <= temp <= e
      decreases e - temp
    {
      temp := temp + 1;
    }
  }

  /** Cut trailing blanks off the name at `name`. */
  method TrimNameEnd(a: array<char>, name: nat, ghost e: nat)
    requires name <= e < a.Length && a[e] == '\0' && NoNul(a[..], name, e)
    requires name < e ==> !Blank(a[name])
    modifies a
    ensures CString(a[..], name) == TrimRight(old(a[..])[name..e])
    ensures forall k | 0 <= k < a.Length && (k < name || e <= k) :: a[k] == old(a[k])
  {
    ghost var s := a[..];
    var temp := FindEnd(a, name, e);
    while temp > name
      invariant name <= temp <= e
      invariant forall k | 0 <= k < a.Length && (k <= temp || e <= k) :: a[k] == s[k]
      invariant forall k | temp < k <= e :: a[k] == '\0'
      invariant forall k | temp < k < e :: Blank(s[k])
    {
      if a[temp] == '\0' || Blank(a[temp]) {
        a[temp] := '\0';
      } else {
        break;
      }
      temp := temp - 1;
    }
    ghost var r := if temp < e then temp + 1 else e;
    TrimRightAt(s, name, r, e);
    CutAt(s, a[..], name, r, e);
  }

  /** A NUL at `r` cuts the string at `p` there. */
  lemma CutAt(s: string, t: string, p: nat, r: nat, e: nat)
    requires p <= r <= e < |s| == |t| && NoNul(s, p, e) && t[r] == '\0'
    requires forall k | p <= k < r :: t[k] == s[k]
    ensures CString(t, p) == s[p..r]
  {
    CStringIs(t, p, r);
    assert t[p..r] == s[p..r];
  }

  /** Before trailing blanks `r` is where the value closes: at a quote that stands before it, or at `r`. */
  lemma ClosesAt(s: string, p: nat, r: nat, e: nat)
    requires p <= r <= e <= |s| && (forall k | r <= k < e :: Blank(s[k])) && (r == p || !Blank(s[r - 1]))
    ensures CloseValue(s[p..e]) == if r > p && s[r - 1] == '"' then s[p..r - 1] else s[p..r]
  {
    hide TrimRight;
    TrimRightAt(s, p, r, e);
    var u := s[p..r];
    assert r > p ==> u[r - p - 1] == s[r - 1] && u[..r - p - 1] == s[p..r - 1];
  }

  /** Cut trailing blanks and then one closing quote off the value at `value`. */
  method TrimValueEnd(a: array<char>, value: nat, ghost e: nat)
    requires value <= e < a.Length && a[e] == '\0' && NoNul(a[..], value, e)
    modifies a
    ensures CString(a[..], value) == CloseValue(old(a[..])[value..e])
    ensures forall k | 0 <= k < a.Length && (k < value || e <= k) :: a[k] == old(a[k])
  {
    hide CloseValue, TrimRight, CString;
    ghost var s := a[..];
    var temp: int := FindEnd(a, value, e);
    while temp >= value
      invariant value - 1 <= temp <= e
      invariant forall k | 0 <= k < a.Length && (k <= temp || e <= k || k < value) :: a[k] == s[k]
      invariant forall k | temp < k <= e :: a[k] == '\0'
      invariant forall k | temp < k < e :: Blank(s[k])
    {
      if a[temp] == '\0' || Blank(a[temp]) {
        a[temp] := '\0';
      } else if a[temp] == '"' {
        a[temp] := '\0';
        break;
      } else {
        break;
      }
      temp := temp - 1;
    }
    ghost var r := if temp < e then temp + 1 else e;
    ClosesAt(s, value, r, e);
    CutAt(s, a[..], value, if r > value && s[r - 1] == '"' then r - 1 else r, e);
  }

  /** Past leading blanks `r` is where the value opens: behind a quote that stands there, or at `r`. */
  lemma OpensAt(s: string, p: nat, r: nat, e: nat)
    requires p <= r <= e <= |s| && (forall k | p <= k < r :: Blank(s[k])) && (r == e || !Blank(s[r]))
    ensures OpenValue(s[p..e]) == if r < e && s[r] == '"' then s[r + 1..e] else s[r..e]
  {
    hide TrimLeft;
    TrimLeftAt(s, p, r, e);
    var u := s[r..e];
    assert r < e ==> u[0] == s[r] && u[1..] == s[r + 1..e];
  }

  /** Skip leading blanks of a value, and one opening quote after them. */
  method OpenValueAt(a: array<char>, p: nat, ghost e: nat) returns (r: nat)
    requires p <= e < a.Length && a[e] == '\0' && NoNul(a[..], p, e)
    ensures p <= r <= e && a[..][r..e] == OpenValue(a[..][p..e])
  {
    hide OpenValue, TrimLeft;
    r := p;
    ghost var s := a[..];
    while a[r] != '\0' && (Blank(a[r]) || a[r] == '"')
      invariant p <= r <= e && forall k | p <= k < r :: Blank(s[k])
      decreases e - r
    {
      if a[r] == '"' {
        OpensAt(s, p, r, e);
        r := r + 1;
        return;
      }
      assert Blank(s[r]);
      r := r + 1;
    }
    assert r < e ==> s[r] != '\0';
    OpensAt(s, p, r, e);
  }

  /** A C string depends only on the bytes up to its terminator. */
  lemma {:induction false} SameString(s: string, t: string, p: nat, m: nat)
    requires p <= m < |s| && m < |t| && s[m] == '\0'
    requires forall k | p <= k <= m :: s[k] == t[k]
    ensures CString(s, p) == CString(t, p) && p + |CString(s, p)| <= m
    decreases m - p
  {
    if s[p] != '\0' {
      SameString(s, t, p + 1, m);
    }
  }

  /** Trim the name that the cut at `m` ends. */
  method CutName(a: array<char>, q: nat, ghost m: nat) returns (name: nat)
    requires q <= m < a.Length && a[m] == '\0' && NoNul(a[..], q, m)
    modifies a
    ensures q <= name <= m && CString(a[..], name) == TrimName(old(a[..])[q..m])
    ensures forall k | 0 <= k < a.Length && (k < q || m <= k) :: a[k] == old(a[k])
  {
    hide TrimLeft, TrimRight, CString;
    name := SkipBlanks(a, q, m);
    TrimLeftAt(a[..], q, name, m);
    TrimNameEnd(a, name, m);
  }

  /** Trim and unquote the value at `p`. */
  method CutValue(a: array<char>, p: nat, ghost e: nat) returns (value: nat)
    requires p <= e < a.Length && a[e] == '\0' && NoNul(a[..], p, e)
    modifies a
    ensures p <= value <= e && CString(a[..], value) == TrimValue(old(a[..])[p..e])
    ensures forall k | 0 <= k < a.Length && (k < p || e <= k) :: a[k] == old(a[k])
  {
    hide OpenValue, CloseValue, CString;
    value := OpenValueAt(a, p, e);
    TrimValueEnd(a, value, e);
  }

  /** The field at `q`, ending at `e`: positions of its trimmed name and value, or -1 if it has no `=`. */
  method CutField(a: array<char>, q: nat, ghost e: nat) returns (name: nat, value: int)
    requires q <= e < a.Length && a[e] == '\0' && NoNul(a[..], q, e)
    modifies a
    ensures forall k | 0 <= k < a.Length && (k < q || e <= k) :: a[k] == old(a[k])
    ensures
      var f := old(a[..])[q..e];
      var k := IndexOf(f, '=');
      if k == |f| then value == -1
      else
        && q <= value <= e && q <= name <= e
        && CString(a[..], name) == TrimName(f[..k])
        && CString(a[..], value) == TrimValue(f[k + 1..])
  {
    hide TrimName, TrimValue, CString, IndexOf;
    ghost var s := a[..];
    ghost var k := IndexOf(s[q..e], '=');
    name := q;
    value := StrSep(a, q, '=', e);
    if value == -1 {
      return;
    }
    ghost var m := q + k;
    assert a[..][q..m] == s[q..e][..k];
    name := CutName(a, q, m);
    ghost var t := a[..];
    assert t[m + 1..e] == s[q..e][k + 1..];
    value := CutValue(a, value, e);
    SameString(t, a[..], name, m);
  }

  lemma {:induction false} CStringWithin(s: string, p: nat, e: nat)
    requires p <= e < |s| && s[e] == '\0'
    ensures p + |CString(s, p)| <= e && s[p + |CString(s, p)|] == '\0'
    decreases e - p
  {
    if s[p] != '\0' {
      CStringWithin(s, p + 1, e);
    }
  }

  // ----- the field positions

  /** The buffer after the first loop: every comma of the text `src` is a NUL. */
  ghost predicate CommasCut(t: string, src: string, from: nat) {
    && |src| < |t| && t[|src|] == '\0'
    && forall k {:trigger t[k]} | from <= k < |src| :: t[k] == if src[k] == ',' then '\0' else src[k]
  }

  /** The buffer with the commas before `q` cut. */
  ghost predicate CommasCutTo(t: string, src: string, q: nat) {
    && |src| < |t| && t[|src|] == '\0'
    && forall k {:trigger t[k]} | 0 <= k < |src| :: t[k] == if k < q && src[k] == ',' then '\0' else src[k]
  }

  /** Cutting the next comma, if there is one. */
  lemma CutNext(t: string, src: string, q: nat, u: string)
    requires CommasCutTo(t, src, q) && q <= |src|
    requires var n := IndexOf(src[q..], ','); u == if q + n == |src| then t else t[q + n := '\0']
    ensures var n := IndexOf(src[q..], ','); CommasCutTo(u, src, if q + n == |src| then |src| else q + n + 1)
    ensures t[q..|src|] == src[q..]
  {
    var f := src[q..];
    var n := IndexOf(f, ',');
    forall k | q <= k < q + n ensures src[k] != ',' {
      assert src[k] == f[..n][k - q];
    }
    assert n < |f| ==> src[q + n] == ',';
  }

  method CutCommas(a: array<char>, ghost src: string)
    requires |src| < a.Length && a[..|src|] == src && a[|src|] == '\0' && NoNul(src, 0, |src|)
    modifies a
    ensures CommasCut(a[..], src, 0)
    ensures forall k | |src| <= k < a.Length :: a[k] == old(a[k])
  {
    hide IndexOf;
    var q: int := 0;
    while q != -1
      invariant -1 <= q <= |src| && CommasCutTo(a[..], src, if q == -1 then |src| else q)
      invariant forall k | |src| <= k < a.Length :: a[k] == old(a[k])
      decreases if q == -1 then 0 else |src| - q + 1
    {
      ghost var t := a[..];
      ghost var n := IndexOf(src[q..], ',');
      CutNext(t, src, q, if q + n == |src| then t else t[q + n := '\0']);
      q := StrSep(a, q, ',', |src|);
    }
  }

  lemma {:induction false} SkipCommas(src: string, e: nat, q: nat)
    requires e <= q <= |src| && forall k | e <= k < q :: src[k] == ','
    ensures NonEmpty(Split(src[e..])) == NonEmpty(Split(src[q..]))
    decreases q - e
  {
    if e < q {
      SkipCommas(src, e + 1, q);
      assert src[e..] == "" + "," + src[e + 1..];
      SplitFirst("", src[e + 1..]);
    }
  }

  /** The fields from `q` on are the one that ends at `e` and those from the next non-comma `q'` on. */
  lemma FieldStep(src: string, q: nat, e: nat, q': nat)
    requires q < e <= q' <= |src|
    requires forall k | q <= k < e :: src[k] != ','
    requires forall k | e <= k < q' :: src[k] == ','
    requires (e == |src| || src[e] == ',') && (q' == |src| || src[q'] != ',')
    ensures NonEmpty(Split(src[q..])) == [src[q..e]] + NonEmpty(Split(src[q'..]))
  {
    hide Split;
    var f := src[q..e];
    assert forall k | 0 <= k < |f| :: f[k] == src[q + k];
    if e == |src| {
      assert src[q..] == f && src[q'..] == "";
      LastField(f);
    } else {
      assert src[q..] == f + "," + src[e + 1..];
      InnerField(f, src[e + 1..]);
      SkipCommas(src, e + 1, q');
    }
  }

  lemma LastField(f: string)
    requires ',' !in f && f != ""
    ensures NonEmpty(Split(f)) == [f] + NonEmpty(Split(""))
  {
    SplitSingle(f);
    SplitSingle("");
    assert [f][1..] == [] && [""][1..] == [];
    assert NonEmpty([""]) == [];
  }

  lemma InnerField(f: string, t: string)
    requires ',' !in f && f != ""
    ensures NonEmpty(Split(f + "," + t)) == [f] + NonEmpty(Split(t))
  {
    SplitFirst(f, t);
  }

  /** Slot pointer `p` holds `v`, inside the first `bound` bytes. */
  ghost predicate Slot(t: string, p: int, v: Option<string>, bound: nat) {
    if v.None? then p == -1
    else 0 <= p && p + |v.value| < bound <= |t| && t[p + |v.value|] == '\0' && CString(t, p) == v.value
  }

  ghost predicate Slots(t: string, ps: seq<int>, vs: seq<Option<string>>, bound: nat) {
    |ps| == |vs| && forall i | 0 <= i < |ps| :: Slot(t, ps[i], vs[i], bound)
  }

  lemma SlotsKept(s: string, t: string, ps: seq<int>, vs: seq<Option<string>>, bound: nat, bound': nat)
    requires Slots(s, ps, vs, bound) && bound <= bound' <= |t| && bound <= |s|
    requires forall k | 0 <= k < bound :: s[k] == t[k]
    ensures Slots(t, ps, vs, bound')
  {
    forall i | 0 <= i < |ps| ensures Slot(t, ps[i], vs[i], bound') {
      assert Slot(s, ps[i], vs[i], bound);
      if vs[i].Some? {
        SameString(s, t, ps[i], ps[i] + |vs[i].value|);
      }
    }
  }

  /** The loop over the requested keys: those that equal the name get the value pointer. */
  method AssignSlots(a: array<char>, keys: seq<string>, ps: seq<int>, name: nat, value: nat,
                     ghost vs: seq<Option<string>>, ghost bound: nat)
    returns (r: seq<int>)
    requires |keys| == |ps| && Slots(a[..], ps, vs, bound)
    requires Slot(a[..], value, Some(CString(a[..], value)), bound)
    ensures |r| == |keys| && Slots(a[..], r, Assign(keys, vs, CString(a[..], name), CString(a[..], value)), bound)
  {
    hide CString;
    r := ps;
    ghost var w := Assign(keys, vs, CString(a[..], name), CString(a[..], value));
    var i := 0;
    while i < |keys|
      invariant 0 <= i <= |keys| == |r|
      invariant forall k | 0 <= k < i :: Slot(a[..], r[k], w[k], bound)
      invariant forall k | i <= k < |r| :: r[k] == ps[k]
    {
      if CString(a[..], name) == keys[i] {
        r := r[i := value];
      }
      i := i + 1;
    }
  }

  /** The end of the field at `q` and the start of the next one. */
  method NextField(a: array<char>, q: nat, len: nat, ghost src: string) returns (e: nat, q': nat)
    requires len == |src| && q < len && CommasCut(a[..], src, q) && NoNul(src, 0, |src|)
    ensures q <= e <= q' <= len && a[e] == '\0' && NoNul(a[..], q, e) && CommasCut(a[..], src, q')
    ensures (forall k | q <= k < e :: src[k] != ',') && (forall k | e <= k < q' :: src[k] == ',')
    ensures e == |src| || src[e] == ','
    ensures q' == |src| || src[q'] != ','
    ensures a[..][q..e] == src[q..e]
  {
    ghost var t := a[..];
    assert a[len] == '\0';
    var n := StrLen(a, q);
    e := q + n;
    assert t[len] == '\0';
    q' := e;
    while q' < len && a[q'] == '\0'
      invariant e <= q' <= len && forall k | e <= k < q' :: src[k] == ','
    {
      assert t[q'] == a[q'];
      q' := q' + 1;
    }
    assert forall k | q <= k < e :: t[k] != '\0' && t[k] == src[k];
    assert e < len ==> t[e] == a[e];
    assert q' < len ==> t[q'] == a[q'];
  }

  /** What is left to parse from `q` on, `q` being the start of the text or of a later non-empty field. */
  ghost function Remaining(src: string, q: nat): seq<string>
    requires q <= |src|
  {
    if q == 0 then FieldList(src) else NonEmpty(Split(src[q..]))
  }

  ghost predicate AtField(src: string, q: nat) {
    q <= |src| && (0 < q < |src| ==> src[q] != ',')
  }

  lemma RemainingStep(src: string, q: nat, e: nat, q': nat)
    requires q < |src| && AtField(src, q) && q <= e <= q' <= |src|
    requires (forall k | q <= k < e :: src[k] != ',') && (forall k | e <= k < q' :: src[k] == ',')
    requires (e == |src| || src[e] == ',') && (q' == |src| || src[q'] != ',')
    ensures Remaining(src, q) != [] && Remaining(src, q)[0] == src[q..e]
    ensures e > q ==> q' > 0 && AtField(src, q') && Remaining(src, q)[1..] == Remaining(src, q')
  {
    if e > q {
      FieldStep(src, q, e, q');
      assert src[0..] == src;
    }
  }

  lemma RemainingNone(src: string)
    ensures Remaining(src, |src|) == []
  {
    SplitSingle("");
    assert src[|src|..] == "";
    assert NonEmpty([""]) == NonEmpty([""][1..]);
  }

  lemma ParseStep(fs: seq<string>, keys: seq<string>, vals: seq<Option<string>>)
    requires |keys| == |vals| && fs != []
    ensures
      var k := IndexOf(fs[0], '=');
      Parse(fs, keys, vals) ==
        if k == |fs[0]| then vals
        else Parse(fs[1..], keys, Assign(keys, vals, TrimName(fs[0][..k]), TrimValue(fs[0][k + 1..])))
  {
    hide TrimName, TrimValue, Assign, IndexOf;
  }

  lemma LengthIs(t: string, src: string, n: nat)
    requires |src| < |t| && t[..|src|] == src && t[|src|] == '\0' && NoNul(src, 0, |src|)
    requires n < |t| && t[n] == '\0' && NoNul(t, 0, n)
    ensures n == |src|
  {
    assert forall k | 0 <= k < |src| :: t[k] == t[..|src|][k];
  }

  /** How much of the buffer holds finished fields when the next one starts at `q`. */
  function Finished(q: nat, len: nat): nat {
    if q < len then q else len + 1
  }

  /** One turn of the main loop: the field at `q`. */
  method OneField(a: array<char>, keys: seq<string>, ps: seq<int>, q: nat, len: nat,
                  ghost src: string, ghost vs: seq<Option<string>>)
    returns (q': nat, r: seq<int>, more: bool, ghost vs': seq<Option<string>>)
    requires len == |src| < a.Length && NoNul(src, 0, |src|) && |keys| == |ps| == |vs|
    requires q < len && AtField(src, q) && CommasCut(a[..], src, q) && Slots(a[..], ps, vs, q)
    modifies a
    ensures |r| == |vs'| == |keys| && q <= q' <= len && AtField(src, q') && (more ==> q < q')
    ensures CommasCut(a[..], src, q') && Slots(a[..], r, vs', len + 1)
    ensures more ==> Slots(a[..], r, vs', Finished(q', len))
    ensures Parse(Remaining(src, q), keys, vs) == if more then Parse(Remaining(src, q'), keys, vs') else vs'
    ensures forall k | len <= k < a.Length :: a[k] == old(a[k])
  {
    hide Parse, Remaining, Slot, CString, TrimName, TrimValue, IndexOf, CommasCut;
    var end;
    end, q' := NextField(a, q, len, src);
    RemainingStep(src, q, end, q');
    ParseStep(Remaining(src, q), keys, vs);
    ghost var before := a[..];
    var name, value := CutField(a, q, end);
    CutKept(before, a[..], src, q', end);
    r, vs', more := ps, vs, value != -1;
    SlotsKept(before, a[..], ps, vs, q, len + 1);
    if more {
      SlotsKept(before, a[..], ps, vs, q, end + 1);
      ValueSlot(a[..], value, end);
      r := AssignSlots(a, keys, ps, name, value, vs, end + 1);
      vs' := Assign(keys, vs, CString(a[..], name), CString(a[..], value));
      SlotsKept(a[..], a[..], r, vs', end + 1, len + 1);
      SlotsKept(a[..], a[..], r, vs', end + 1, Finished(q', len));
    }
  }

  lemma CutKept(s: string, t: string, src: string, q: nat, e: nat)
    requires CommasCut(s, src, q) && |s| == |t| && e <= q && e <= |src|
    requires forall k | e <= k < |s| :: t[k] == s[k]
    ensures CommasCut(t, src, q)
  {
  }

  lemma ValueSlot(t: string, p: nat, e: nat)
    requires p <= e < |t| && t[e] == '\0'
    ensures Slot(t, p, Some(CString(t, p)), e + 1)
  {
    CStringWithin(t, p, e);
  }

  /** get_http_parameter: whether every key was found, and each slot's position. */
  method GetHttpParameter(a: array<char>, keys: seq<string>, ghost src: string) returns (found: bool, ps: seq<int>)
    requires |src| < a.Length && a[..|src|] == src && a[|src|] == '\0' && NoNul(src, 0, |src|)
    modifies a
    ensures Slots(a[..], ps, Lookup(src, keys), |src| + 1)
    ensures found <==> AllFound(Lookup(src, keys))
    ensures forall k | |src| <= k < a.Length :: a[k] == old(a[k])
  {
    hide CString, Parse, Remaining, CommasCut, IndexOf, AtField, FieldList;
    var len := StrLen(a, 0);
    LengthIs(a[..], src, len);
    CutCommas(a, src);
    AtStart(src);
    ps := seq(|keys|, i => -1);
    ghost var vs := Nothing(|keys|);
    var q, more := 0, true;
    while q < len && more
      invariant q <= len && AtField(src, q) && |vs| == |ps| == |keys|
      invariant CommasCut(a[..], src, q) && Slots(a[..], ps, vs, len + 1)
      invariant more ==> Slots(a[..], ps, vs, Finished(q, len))
      invariant Lookup(src, keys) == if more then Parse(Remaining(src, q), keys, vs) else vs
      invariant forall k | |src| <= k < a.Length :: a[k] == old(a[k])
      decreases more, len - q
    {
      q, ps, more, vs := OneField(a, keys, ps, q, len, src, vs);
    }
    ParseNone(src, keys, vs);
    found := true;
    var i := 0;
    while i < |keys|
      invariant 0 <= i <= |keys|
      invariant forall k | 0 <= k < i :: vs[k].Some?
    {
      assert Slot(a[..], ps[i], vs[i], len + 1);
      if ps[i] == -1 {
        found := false;
        break;
      }
      i := i + 1;
    }
  }

  lemma AtStart(src: string)
    ensures AtField(src, 0) && Remaining(src, 0) == FieldList(src)
  {
  }

  lemma ParseNone(src: string, keys: seq<string>, vs: seq<Option<string>>)
    requires |keys| == |vs|
    ensures Parse(Remaining(src, |src|), keys, vs) == vs
  {
    RemainingNone(src);
  }
}
