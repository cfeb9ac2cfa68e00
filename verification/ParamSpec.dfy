/**
 What get_http_parameter computes from a digest header, as a function of the text, and the
 proof that it undoes the rendering of a parameter list.
 */
module ParamSpec {
  import opened Texts

  predicate Blank(c: char) {
    c == '\t' || c == ' '
  }

  function TrimLeft(s: string): (r: string)
    ensures |r| <= |s| && r == s[|s| - |r|..]
    ensures r != "" ==> !Blank(r[0])
  {
    if s != "" && Blank(s[0]) then TrimLeft(s[1..]) else s
  }

  function TrimRight(s: string): (r: string)
    ensures |r| <= |s| && r == s[..|r|]
    ensures r != "" ==> !Blank(r[|r| - 1])
  {
    if s != "" && Blank(s[|s| - 1]) then TrimRight(s[..|s| - 1]) else s
  }

  function TrimName(s: string): string {
    TrimRight(TrimLeft(s))
  }

  /** Past leading blanks and at most one opening quote. */
  function OpenValue(s: string): (r: string)
    ensures |r| <= |s| && r == s[|s| - |r|..]
  {
    var u := TrimLeft(s);
    if u != "" && u[0] == '"' then u[1..] else u
  }

  /** Without trailing blanks and at most one closing quote before them. */
  function CloseValue(s: string): (r: string)
    ensures |r| <= |s| && r == s[..|r|]
  {
    var u := TrimRight(s);
    if u != "" && u[|u| - 1] == '"' then u[..|u| - 1] else u
  }

  function TrimValue(s: string): string {
    CloseValue(OpenValue(s))
  }

  /** The first position of `c`, or the length. */
  function IndexOf(s: string, c: char): (k: nat)
    ensures k <= |s|
    ensures c !in s[..k]
    ensures k < |s| ==> s[k] == c
  {
    if s == "" || s[0] == c then 0 else 1 + IndexOf(s[1..], c)
  }

  function Split(s: string): (r: seq<string>)
    ensures r != []
    decreases |s|
  {
    var k := IndexOf(s, ',');
    if k == |s| then [s] else [s[..k]] + Split(s[k + 1..])
  }

  function NonEmpty(fs: seq<string>): seq<string> {
    if fs == [] then [] else (if fs[0] == "" then [] else [fs[0]]) + NonEmpty(fs[1..])
  }

  /** The fields in the order they are looked at: empty ones are passed over, except in front. */
  function FieldList(s: string): seq<string> {
    if s == "" then []
    else if s[0] == ',' then [""] + NonEmpty(Split(s))
    else NonEmpty(Split(s))
  }

  /** Give `value` to every requested key called `name`. */
  function Assign(keys: seq<string>, vals: seq<Option<string>>, name: string, value: string): (r: seq<Option<string>>)
    requires |keys| == |vals|
    ensures |r| == |vals|
  {
    seq(|keys|, i requires 0 <= i < |keys| => if keys[i] == name then Some(value) else vals[i])
  }

  /** Later fields overwrite earlier ones; a field without `=` ends the scan. */
  function Parse(fs: seq<string>, keys: seq<string>, vals: seq<Option<string>>): (r: seq<Option<string>>)
    requires |keys| == |vals|
    ensures |r| == |vals|
    decreases |fs|
  {
    if fs == [] then vals
    else
      var k := IndexOf(fs[0], '=');
      if k == |fs[0]| then vals
      else Parse(fs[1..], keys, Assign(keys, vals, TrimName(fs[0][..k]), TrimValue(fs[0][k + 1..])))
  }

  function Nothing(n: nat): (r: seq<Option<string>>)
    ensures |r| == n
  {
    seq(n, i => None)
  }

  function Lookup(src: string, keys: seq<string>): (r: seq<Option<string>>)
    ensures |r| == |keys|
  {
    Parse(FieldList(src), keys, Nothing(|keys|))
  }

  predicate AllFound(vals: seq<Option<string>>) {
    forall i | 0 <= i < |vals| :: vals[i].Some?
  }

  // ----- what the parser does with any text

  predicate BlanksOnly(s: string) {
    forall i | 0 <= i < |s| :: s[i] == ' ' || s[i] == '\t'
  }

  predicate BlankFree(c: char) {
    c != ' ' && c != '\t'
  }

  /** `t` is `s` without the blanks around it. */
  ghost predicate Trimmed(s: string, t: string) {
    && (exists a, b :: s == a + t + b && BlanksOnly(a) && BlanksOnly(b))
    && (t != "" ==> BlankFree(t[0]) && BlankFree(t[|t| - 1]))
  }

  lemma {:induction false} TrimLeftParts(s: string) returns (a: string)
    ensures s == a + TrimLeft(s) && BlanksOnly(a)
  {
    hide TrimLeft, BlanksOnly;
    TrimLeftOne(s);
    a := NoBlanks(s);
    if s != "" && Blank(s[0]) {
      var more := TrimLeftParts(s[1..]);
      a := [s[0]] + more;
      MoreBlanks(s, more, TrimLeft(s[1..]));
    }
  }

  lemma TrimLeftOne(s: string)
    ensures TrimLeft(s) == if s != "" && Blank(s[0]) then TrimLeft(s[1..]) else s
  {
  }

  lemma NoBlanks(s: string) returns (a: string)
    ensures a == "" && a + s == s && BlanksOnly(a)
  {
    a := "";
  }

  lemma MoreBlanks(s: string, more: string, t: string)
    requires s != "" && Blank(s[0]) && s[1..] == more + t && BlanksOnly(more)
    ensures s == ([s[0]] + more) + t && BlanksOnly([s[0]] + more)
  {
    assert s == [s[0]] + (more + t);
  }

  lemma {:induction false} TrimRightParts(s: string) returns (b: string)
    ensures s == TrimRight(s) + b && BlanksOnly(b)
  {
    b := "";
    if s != "" && Blank(s[|s| - 1]) {
      var more := TrimRightParts(s[..|s| - 1]);
      b := more + [s[|s| - 1]];
      assert s == s[..|s| - 1] + [s[|s| - 1]];
    }
  }

  /** A name is trimmed on both sides. */
  lemma TrimNameExactly(s: string)
    ensures Trimmed(s, TrimName(s))
  {
    hide TrimLeft, TrimRight, BlanksOnly;
    var a := TrimLeftParts(s);
    var u := TrimLeft(s);
    var b := TrimRightParts(u);
    var t := TrimRight(u);
    assert s == a + t + b;
    if t != "" {
      assert t[0] == u[0];
    }
  }

  /** `q` is a quote, or nothing at all. */
  predicate MaybeQuote(q: string) {
    q == "" || q == "\""
  }

  /**
   `v` is `s` without the blanks around it and, inside these, without one quote on each side. Where no
   quote is taken off there is none, and no blank either.
   */
  ghost predicate UnquotedBy(s: string, v: string, a: string, q: string, r: string, b: string) {
    && s == a + q + v + r + b && BlanksOnly(a) && BlanksOnly(b) && MaybeQuote(q) && MaybeQuote(r)
    && (q == "" && v + r + b != "" ==> BlankFree((v + r + b)[0]) && (v + r + b)[0] != '"')
    && (r == "" && v != "" ==> BlankFree(v[|v| - 1]) && v[|v| - 1] != '"')
  }

  ghost predicate Unquoted(s: string, v: string) {
    exists a, q, r, b :: UnquotedBy(s, v, a, q, r, b)
  }

  lemma OpenParts(s: string) returns (a: string, q: string)
    ensures s == a + q + OpenValue(s) && BlanksOnly(a) && MaybeQuote(q)
    ensures q == "" && OpenValue(s) != "" ==> BlankFree(OpenValue(s)[0]) && OpenValue(s)[0] != '"'
  {
    hide TrimLeft, BlanksOnly, OpenValue, MaybeQuote, BlankFree;
    a := TrimLeftParts(s);
    OpenIs(s);
    q := QuoteFirst(TrimLeft(s), OpenValue(s));
    Regroup(s, a, TrimLeft(s), q, OpenValue(s));
  }

  lemma Regroup(s: string, a: string, u: string, q: string, o: string)
    requires s == a + u && u == q + o
    ensures s == a + q + o
  {
  }

  lemma OpenIs(s: string)
    ensures
      var u := TrimLeft(s);
      && (u != "" ==> BlankFree(u[0])) && OpenValue(s) == if u != "" && u[0] == '"' then u[1..] else u
  {
    hide TrimLeft;
  }

  lemma QuoteFirst(u: string, o: string) returns (q: string)
    requires (u != "" ==> BlankFree(u[0])) && o == if u != "" && u[0] == '"' then u[1..] else u
    ensures u == q + o && MaybeQuote(q) && (q == "" && o != "" ==> BlankFree(o[0]) && o[0] != '"')
  {
    q := if u != "" && u[0] == '"' then "\"" else "";
  }

  lemma CloseParts(o: string) returns (r: string, b: string)
    ensures o == CloseValue(o) + r + b && BlanksOnly(b) && MaybeQuote(r)
    ensures
      var v := CloseValue(o);
      r == "" && v != "" ==> BlankFree(v[|v| - 1]) && v[|v| - 1] != '"'
  {
    hide TrimRight, BlanksOnly;
    b := TrimRightParts(o);
    var u := TrimRight(o);
    r := if u != "" && u[|u| - 1] == '"' then "\"" else "";
    assert u == CloseValue(o) + r;
  }

  lemma TrimValueExactly(s: string)
    ensures Unquoted(s, TrimValue(s))
  {
    hide BlanksOnly, OpenValue, CloseValue, MaybeQuote;
    var a, q := OpenParts(s);
    var r, b := CloseParts(OpenValue(s));
    var v := TrimValue(s);
    assert a + q + v + r + b == a + q + (v + r + b);
    assert UnquotedBy(s, v, a, q, r, b);
  }

  function JoinAt(ps: seq<string>): string {
    if ps == [] then "" else if |ps| == 1 then ps[0] else ps[0] + "," + JoinAt(ps[1..])
  }

  /** The pieces have no comma, and joined with commas they are the text. */
  lemma {:induction false} SplitExactly(s: string)
    ensures JoinAt(Split(s)) == s && forall p | p in Split(s) :: ',' !in p
    decreases |s|
  {
    hide IndexOf, JoinAt;
    var k := IndexOf(s, ',');
    JoinMore(s[..k], Split(s[if k < |s| then k + 1 else k..]));
    if k < |s| {
      SplitExactly(s[k + 1..]);
      assert s == s[..k] + "," + s[k + 1..];
    } else {
      assert s[..k] == s;
    }
  }

  lemma JoinMore(p: string, ps: seq<string>)
    ensures JoinAt([p]) == p
    ensures ps != [] ==> JoinAt([p] + ps) == p + "," + JoinAt(ps)
  {
  }

  function NameOf(p: string): string
    requires '=' in p
  {
    TrimName(p[..IndexOf(p, '=')])
  }

  function ValueOf(p: string): string
    requires '=' in p
  {
    TrimValue(p[IndexOf(p, '=') + 1..])
  }

  lemma EqualsAt(p: string)
    ensures '=' in p <==> IndexOf(p, '=') < |p|
  {
    assert p[..|p|] == p;
  }

  /** Piece `j` is looked at: it is not empty, and it and all before it that are not empty have an equals sign. */
  predicate Reached(ps: seq<string>, j: nat) {
    j < |ps| && ps[j] != "" && forall t | 0 <= t <= j :: ps[t] != "" ==> '=' in ps[t]
  }

  predicate Names(ps: seq<string>, j: nat, key: string) {
    Reached(ps, j) && NameOf(ps[j]) == key
  }

  /** `r` is the value of the last piece reached that names `key`, or `other` if none does. */
  ghost predicate FromLast(ps: seq<string>, key: string, r: Option<string>, other: Option<string>) {
    && ((forall j: nat :: !Names(ps, j, key)) ==> r == other)
    && (forall j: nat | Names(ps, j, key) && (forall t: nat | t > j :: !Names(ps, t, key)) :: r == Some(ValueOf(ps[j])))
  }

  lemma ReachedNext(ps: seq<string>, j: nat)
    requires ps != []
    ensures Reached(ps, 0) <==> ps[0] != "" && '=' in ps[0]
    ensures Reached(ps, j + 1) <==> (ps[0] == "" || '=' in ps[0]) && Reached(ps[1..], j)
  {
    var more := ps[1..];
    if Reached(ps, j + 1) {
      forall t | 0 <= t <= j ensures more[t] != "" ==> '=' in more[t] {
        assert more[t] == ps[t + 1];
      }
    }
    if Reached(more, j) {
      forall t | 0 < t <= j + 1 ensures ps[t] != "" ==> '=' in ps[t] {
        assert ps[t] == more[t - 1];
      }
    }
  }

  lemma NamesNext(ps: seq<string>, j: nat, key: string)
    requires ps != []
    ensures Names(ps, 0, key) <==> ps[0] != "" && '=' in ps[0] && NameOf(ps[0]) == key
    ensures Names(ps, j + 1, key) <==> (ps[0] == "" || '=' in ps[0]) && Names(ps[1..], j, key)
  {
    hide Reached, NameOf;
    ReachedNext(ps, j);
    InRange(ps, j + 1);
    InRange(ps[1..], j);
  }

  lemma InRange(ps: seq<string>, j: nat)
    ensures Reached(ps, j) ==> j < |ps| && '=' in ps[j]
  {
  }

  lemma FromLastSkip(ps: seq<string>, key: string, r: Option<string>, other: Option<string>)
    requires ps != [] && ps[0] == "" && FromLast(ps[1..], key, r, other)
    ensures FromLast(ps, key, r, other)
  {
    FromLastNext(ps, key, r, other, other);
  }

  /** From the pieces behind the first one: it gives its value where none of them names the key. */
  lemma FromLastNext(ps: seq<string>, key: string, r: Option<string>, first: Option<string>, other: Option<string>)
    requires ps != [] && (ps[0] == "" || '=' in ps[0]) && FromLast(ps[1..], key, r, first)
    requires first == if Names(ps, 0, key) then Some(ValueOf(ps[0])) else other
    ensures FromLast(ps, key, r, other)
  {
    hide Names, ValueOf;
    forall j: nat ensures Names(ps, j + 1, key) <==> Names(ps[1..], j, key) {
      NamesNext(ps, j, key);
    }
    if forall j: nat :: !Names(ps, j, key) {
      assert forall j: nat :: !Names(ps[1..], j, key);
    }
    forall j: nat | Names(ps, j, key) && (forall t: nat | t > j :: !Names(ps, t, key))
      ensures j < |ps| && '=' in ps[j] && r == Some(ValueOf(ps[j]))
    {
      NamesInside(ps, j, key);
      if j > 0 {
        assert Names(ps[1..], j - 1, key);
        assert forall t: nat | t > j - 1 :: !Names(ps[1..], t, key) by {
          forall t: nat | t > j - 1 ensures !Names(ps[1..], t, key) {
            assert !Names(ps, t + 1, key);
          }
        }
      } else {
        assert forall t: nat :: !Names(ps[1..], t, key) by {
          forall t: nat ensures !Names(ps[1..], t, key) {
            assert !Names(ps, t + 1, key);
          }
        }
      }
    }
  }

  lemma NamesInside(ps: seq<string>, j: nat, key: string)
    requires Names(ps, j, key)
    ensures j < |ps| && '=' in ps[j]
  {
  }

  lemma NothingNamed(ps: seq<string>, key: string, r: Option<string>)
    requires ps == [] || (ps[0] != "" && '=' !in ps[0])
    ensures FromLast(ps, key, r, r)
  {
    forall j: nat ensures !Names(ps, j, key) {
    }
  }

  lemma {:induction false} ParsePieces(ps: seq<string>, keys: seq<string>, vals: seq<Option<string>>, i: nat)
    requires |keys| == |vals| && i < |keys|
    ensures FromLast(ps, keys[i], Parse(NonEmpty(ps), keys, vals)[i], vals[i])
    decreases |ps|
  {
    hide FromLast, TrimName, TrimValue, IndexOf;
    if ps == [] {
      NothingNamed(ps, keys[i], vals[i]);
    } else if ps[0] == "" {
      ParsePieces(ps[1..], keys, vals, i);
      assert [] + NonEmpty(ps[1..]) == NonEmpty(ps[1..]);
      FromLastSkip(ps, keys[i], Parse(NonEmpty(ps), keys, vals)[i], vals[i]);
    } else {
      EqualsAt(ps[0]);
      assert NonEmpty(ps)[0] == ps[0] && NonEmpty(ps)[1..] == NonEmpty(ps[1..]);
      if '=' !in ps[0] {
        NothingNamed(ps, keys[i], vals[i]);
      } else {
        var vals' := Assign(keys, vals, NameOf(ps[0]), ValueOf(ps[0]));
        ParsePieces(ps[1..], keys, vals', i);
        NamesNext(ps, 0, keys[i]);
        FromLastNext(ps, keys[i], Parse(NonEmpty(ps), keys, vals)[i], vals'[i], vals[i]);
      }
    }
  }

  /**
   For any text: nothing is found in one that is empty or starts with a comma; otherwise a key has the
   value of the last piece between commas that names it, empty pieces passed over, up to the first
   piece without an equals sign.
   */
  lemma LookupExactly(s: string, keys: seq<string>, i: nat)
    requires i < |keys|
    ensures s == "" || s[0] == ',' ==> Lookup(s, keys)[i] == None
    ensures s != "" && s[0] != ',' ==> FromLast(Split(s), keys[i], Lookup(s, keys)[i], None)
  {
    hide FromLast, Split, NonEmpty;
    if s != "" && s[0] != ',' {
      ParsePieces(Split(s), keys, Nothing(|keys|), i);
    }
  }

  // ----- rendering

  /** One field: blanks, name, blanks, `=`, blanks, value quoted or bare, blanks. */
  datatype Field = Field(b0: string, name: string, b1: string, b2: string, quoted: bool, value: string, b3: string)

  predicate AllBlank(s: string) {
    forall i | 0 <= i < |s| :: Blank(s[i])
  }

  predicate NoneOf(s: string, cs: string) {
    forall i | 0 <= i < |s| :: s[i] !in cs
  }

  predicate Renderable(f: Field) {
    && AllBlank(f.b0) && AllBlank(f.b1) && AllBlank(f.b2) && AllBlank(f.b3)
    && NoneOf(f.name, "=,\"\t ")
    && NoneOf(f.value, ",\"")
    && (!f.quoted && f.value != "" ==> !Blank(f.value[0]) && !Blank(f.value[|f.value| - 1]))
  }

  function Quote(f: Field): string {
    if f.quoted then "\"" + f.value + "\"" else f.value
  }

  function Before(f: Field): string {
    f.b0 + f.name + f.b1
  }

  function After(f: Field): string {
    f.b2 + Quote(f) + f.b3
  }

  function Render(f: Field): string {
    Before(f) + "=" + After(f)
  }

  function Join(fs: seq<Field>): string {
    if fs == [] then ""
    else if |fs| == 1 then Render(fs[0])
    else Render(fs[0]) + "," + Join(fs[1..])
  }

  /** The value rendered last for `key`. */
  function LastValue(fs: seq<Field>, key: string): Option<string> {
    if fs == [] then None
    else if fs[|fs| - 1].name == key then Some(fs[|fs| - 1].value)
    else LastValue(fs[..|fs| - 1], key)
  }

  // ----- trimming undoes padding

  lemma {:induction false} TrimLeftBlanks(b: string, s: string)
    requires AllBlank(b)
    ensures TrimLeft(b + s) == TrimLeft(s)
  {
    if b == "" {
      assert b + s == s;
    } else {
      assert (b + s)[1..] == b[1..] + s;
      TrimLeftBlanks(b[1..], s);
    }
  }

  lemma {:induction false} TrimRightBlanks(s: string, b: string)
    requires AllBlank(b)
    ensures TrimRight(s + b) == TrimRight(s)
  {
    if b == "" {
      assert s + b == s;
    } else {
      assert (s + b)[..|s + b| - 1] == s + b[..|b| - 1];
      TrimRightBlanks(s, b[..|b| - 1]);
    }
  }

  /** Neither end of `s` is a blank. */
  predicate NoEdgeBlank(s: string) {
    s != "" ==> !Blank(s[0]) && !Blank(s[|s| - 1])
  }

  lemma TrimLeftStops(b: string, s: string)
    requires AllBlank(b) && s != "" && !Blank(s[0])
    ensures TrimLeft(b + s) == s
  {
    TrimLeftBlanks(b, s);
  }

  lemma TrimRightStops(s: string, b: string)
    requires AllBlank(b) && s != "" && !Blank(s[|s| - 1])
    ensures TrimRight(s + b) == s
  {
    TrimRightBlanks(s, b);
  }

  lemma TrimAllBlank(b: string)
    requires AllBlank(b)
    ensures TrimLeft(b) == ""
  {
    TrimLeftBlanks(b, "");
    assert b + "" == b;
  }

  lemma TrimPadded(b0: string, s: string, b1: string)
    requires AllBlank(b0) && AllBlank(b1) && NoEdgeBlank(s)
    ensures TrimRight(TrimLeft(b0 + s + b1)) == s
    ensures s != "" ==> TrimLeft(b0 + s + b1) == s + b1
    ensures s == "" ==> TrimLeft(b0 + s + b1) == ""
  {
    hide TrimLeft, TrimRight;
    if s == "" {
      assert b0 + s + b1 == b0 + b1;
      TrimAllBlank(b0 + b1);
      TrimRightEmpty();
    } else {
      assert b0 + s + b1 == b0 + (s + b1);
      TrimLeftStops(b0, s + b1);
      TrimRightStops(s, b1);
    }
  }

  lemma TrimRightEmpty()
    ensures TrimRight("") == ""
  {
  }

  lemma NameEdges(s: string)
    requires NoneOf(s, "=,\"\t ")
    ensures NoEdgeBlank(s)
  {
    if s != "" {
      assert s[0] !in "=,\"\t " && s[|s| - 1] !in "=,\"\t ";
      assert "=,\"\t "[3] == '\t' && "=,\"\t "[4] == ' ';
    }
  }

  lemma NameBack(f: Field)
    requires Renderable(f)
    ensures TrimName(Before(f)) == f.name
  {
    NameEdges(f.name);
    TrimPadded(f.b0, f.name, f.b1);
  }

  lemma NoQuoteEdge(s: string)
    requires NoneOf(s, ",\"") && s != ""
    ensures s[0] != '"' && s[|s| - 1] != '"'
  {
    assert s[0] !in ",\"" && s[|s| - 1] !in ",\"";
    assert ",\""[1] == '"';
  }

  lemma QuotedBack(b2: string, v: string, b3: string)
    requires AllBlank(b2) && AllBlank(b3)
    ensures TrimValue(b2 + ("\"" + v + "\"") + b3) == v
  {
    hide OpenValue, CloseValue;
    assert b2 + ("\"" + v + "\"") + b3 == b2 + ("\"" + (v + "\"" + b3));
    OpenQuoted(b2, v + "\"" + b3);
    CloseQuoted(v, b3);
  }

  lemma OpenQuoted(b: string, s: string)
    requires AllBlank(b)
    ensures OpenValue(b + ("\"" + s)) == s
  {
    hide TrimLeft;
    TrimLeftStops(b, "\"" + s);
  }

  lemma CloseQuoted(s: string, b: string)
    requires AllBlank(b)
    ensures CloseValue(s + "\"" + b) == s
  {
    hide TrimRight;
    TrimRightStops(s + "\"", b);
  }

  lemma BareBack(b2: string, v: string, b3: string)
    requires AllBlank(b2) && AllBlank(b3) && NoEdgeBlank(v) && NoneOf(v, ",\"")
    ensures TrimValue(b2 + v + b3) == v
  {
    hide TrimLeft, TrimRight;
    TrimPadded(b2, v, b3);
    if v != "" {
      NoQuoteEdge(v);
    }
  }

  lemma ValueBack(f: Field)
    requires Renderable(f)
    ensures TrimValue(After(f)) == f.value
  {
    if f.quoted {
      QuotedBack(f.b2, f.value, f.b3);
    } else {
      BareBack(f.b2, f.value, f.b3);
    }
  }

  // ----- splitting undoes joining

  lemma {:induction false} IndexIs(s: string, c: char, k: nat)
    requires k <= |s| && c !in s[..k] && (k < |s| ==> s[k] == c)
    ensures IndexOf(s, c) == k
  {
    var j := IndexOf(s, c);
    assert forall i | 0 <= i < k :: s[..k][i] != c;
    assert forall i | 0 <= i < j :: s[..j][i] != c;
  }

  lemma RenderShape(f: Field)
    requires Renderable(f)
    ensures ',' !in Render(f) && Render(f) != ""
    ensures IndexOf(Render(f), '=') == |Before(f)| < |Render(f)|
    ensures Render(f)[..|Before(f)|] == Before(f) && Render(f)[|Before(f)| + 1..] == After(f)
  {
    var r, b := Render(f), Before(f);
    assert r[..|b|] == b && r[|b|] == '=';
    assert forall i | 0 <= i < |b| :: b[i] != '=' && b[i] != ',';
    assert forall i | 0 <= i < |After(f)| :: After(f)[i] != ',';
    IndexIs(r, '=', |b|);
  }

  lemma {:induction false} SplitJoin(fs: seq<Field>)
    requires fs != [] && forall i | 0 <= i < |fs| :: Renderable(fs[i])
    ensures Split(Join(fs)) == Rendered(fs)
    ensures Join(fs) != "" && Join(fs)[0] != ','
  {
    hide Renderable, Render, IndexOf;
    RenderShape(fs[0]);
    var r := Render(fs[0]);
    if |fs| == 1 {
      SplitSingle(r);
      assert Rendered(fs[1..]) == [];
    } else {
      SplitJoin(fs[1..]);
      SplitFirst(r, Join(fs[1..]));
    }
    assert r[0] in r;
  }

  lemma SplitSingle(r: string)
    requires ',' !in r
    ensures Split(r) == [r]
  {
    assert r[..|r|] == r;
    IndexIs(r, ',', |r|);
  }

  lemma SplitFirst(r: string, t: string)
    requires ',' !in r
    ensures Split(r + "," + t) == [r] + Split(t)
  {
    var s := r + "," + t;
    assert s[..|r|] == r && s[|r|] == ',' && s[|r| + 1..] == t;
    IndexIs(s, ',', |r|);
  }

  function Rendered(fs: seq<Field>): (r: seq<string>)
    ensures |r| == |fs|
  {
    if fs == [] then [] else [Render(fs[0])] + Rendered(fs[1..])
  }

  lemma {:induction false} RenderedNonEmpty(fs: seq<Field>)
    requires forall i | 0 <= i < |fs| :: Renderable(fs[i])
    ensures NonEmpty(Rendered(fs)) == Rendered(fs)
  {
    if fs != [] {
      RenderShape(fs[0]);
      RenderedNonEmpty(fs[1..]);
    }
  }

  /** Overlay the last rendered values on `vals`. */
  function Overlay(fs: seq<Field>, keys: seq<string>, vals: seq<Option<string>>): (r: seq<Option<string>>)
    requires |keys| == |vals|
    ensures |r| == |keys|
  {
    seq(|keys|, i requires 0 <= i < |keys| =>
          if LastValue(fs, keys[i]).Some? then LastValue(fs, keys[i]) else vals[i])
  }

  lemma {:induction false} LastOfCons(fs: seq<Field>, key: string)
    requires fs != []
    ensures LastValue(fs, key) ==
            if LastValue(fs[1..], key).Some? then LastValue(fs[1..], key)
            else if fs[0].name == key then Some(fs[0].value) else None
  {
    if |fs| > 1 {
      assert fs[1..][..|fs| - 2] == fs[..|fs| - 1][1..];
      LastOfCons(fs[..|fs| - 1], key);
    } else {
      assert fs[..0] == [];
    }
  }

  lemma OverlayNone(fs: seq<Field>, keys: seq<string>, vals: seq<Option<string>>)
    requires |keys| == |vals|
    ensures fs == [] ==> Overlay(fs, keys, vals) == vals
  {
  }

  lemma {:induction false} ParseRendered(fs: seq<Field>, keys: seq<string>, vals: seq<Option<string>>)
    requires |keys| == |vals| && forall i | 0 <= i < |fs| :: Renderable(fs[i])
    ensures Parse(Rendered(fs), keys, vals) == Overlay(fs, keys, vals)
    decreases |fs|
  {
    hide Renderable, Render, TrimName, TrimValue, Before, After, LastValue, IndexOf;
    OverlayNone(fs, keys, vals);
    if fs != [] {
      RenderShape(fs[0]);
      NameBack(fs[0]);
      ValueBack(fs[0]);
      var vals' := Assign(keys, vals, fs[0].name, fs[0].value);
      ParseRendered(fs[1..], keys, vals');
      assert Rendered(fs)[1..] == Rendered(fs[1..]);
      forall i | 0 <= i < |keys| ensures Overlay(fs[1..], keys, vals')[i] == Overlay(fs, keys, vals)[i] {
        LastOfCons(fs, keys[i]);
      }
    }
  }

  lemma LookupIsOverlay(fs: seq<Field>, keys: seq<string>)
    requires forall i | 0 <= i < |fs| :: Renderable(fs[i])
    ensures Lookup(Join(fs), keys) == Overlay(fs, keys, Nothing(|keys|))
  {
    hide Renderable, Split, NonEmpty, Parse, Overlay, LastValue;
    ParseRendered(fs, keys, Nothing(|keys|));
    if fs == [] {
      ParseNone(keys, Nothing(|keys|));
    } else {
      SplitJoin(fs);
      RenderedNonEmpty(fs);
    }
  }

  lemma ParseNone(keys: seq<string>, vals: seq<Option<string>>)
    requires |keys| == |vals|
    ensures Parse([], keys, vals) == vals
  {
  }

  /**
   Looking up keys in a rendered list gives each the value rendered last for it, and succeeds iff
   every key occurs.
   */
  lemma LookupInvertsRendering(fs: seq<Field>, keys: seq<string>)
    requires forall i | 0 <= i < |fs| :: Renderable(fs[i])
    ensures forall i | 0 <= i < |keys| :: Lookup(Join(fs), keys)[i] == LastValue(fs, keys[i])
    ensures AllFound(Lookup(Join(fs), keys)) <==>
            forall i | 0 <= i < |keys| :: exists f :: f in fs && f.name == keys[i]
  {
    hide Renderable, Lookup, Join, LastValue;
    LookupIsOverlay(fs, keys);
    forall i | 0 <= i < |keys| ensures Lookup(Join(fs), keys)[i].Some? <==> exists f :: f in fs && f.name == keys[i] {
      LastValueFound(fs, keys[i]);
    }
  }

  lemma {:induction false} LastValueFound(fs: seq<Field>, key: string)
    ensures LastValue(fs, key).Some? <==> exists f :: f in fs && f.name == key
  {
    if fs != [] {
      var n := |fs| - 1;
      LastValueFound(fs[..n], key);
      assert fs == fs[..n] + [fs[n]];
    }
  }
}
