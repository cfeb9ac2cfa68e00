/** The request header as a stream of characters: CRLF-separated lines up to the first empty one. */
module HeaderSpec {
  import opened Texts

  const MAX_STRING: nat := 2048

  /** What the line parser makes of a line. */
  datatype LineKind = GetLine | PostLine | OtherLine

  predicate CrlfAt(s: string, j: nat) {
    j + 1 < |s| && s[j] == '\r' && s[j + 1] == '\n'
  }

  /** The first CRLF, or the length. */
  function FindCrlf(s: string): (k: nat)
    ensures k <= |s|
    ensures k < |s| ==> CrlfAt(s, k)
    ensures forall j: nat | j < k :: !CrlfAt(s, j)
  {
    if |s| < 2 then |s|
    else if CrlfAt(s, 0) then 0
    else
      assert forall j: nat | CrlfAt(s, j) && j > 0 :: CrlfAt(s[1..], j - 1);
      1 + FindCrlf(s[1..])
  }

  /** The lines of a header, whether it is complete, and the unfinished line. */
  datatype Header = Header(lines: seq<string>, complete: bool, rest: string)

  /** Split at CRLF; the first empty line completes the header, and what follows it is dropped. */
  function Scan(s: string): Header
    decreases |s|
  {
    var k := FindCrlf(s);
    if k == |s| then Header([], false, s)
    else if k == 0 then Header([], true, "")
    else
      var h := Scan(s[k + 2..]);
      Header([s[..k]] + h.lines, h.complete, h.rest)
  }

  /** Lines as the C strings they are passed as. */
  function CStrings(ls: seq<string>): (r: seq<string>)
    ensures |r| == |ls|
  {
    seq(|ls|, i requires 0 <= i < |ls| => CString(ls[i], 0))
  }

  /** The request method: what the last GET or POST line said. */
  function MethodOf(ls: seq<string>, kind: string -> LineKind): LineKind {
    if ls == [] then OtherLine
    else
      var k := kind(ls[|ls| - 1]);
      if k == OtherLine then MethodOf(ls[..|ls| - 1], kind) else k
  }

  lemma {:induction false} ScanSize(s: string)
    ensures |Scan(s).rest| <= |s|
    ensures Scan(s).complete ==> Scan(s).rest == ""
    decreases |s|
  {
    var k := FindCrlf(s);
    if 0 < k < |s| {
      ScanSize(s[k + 2..]);
    }
  }

  // ----- what the scan and the method are

  function Prepend(ls: seq<string>, h: Header): Header {
    Header(ls + h.lines, h.complete, h.rest)
  }

  /** Each line with its end. */
  function Ended(ls: seq<string>): string {
    if ls == [] then "" else ls[0] + "\r\n" + Ended(ls[1..])
  }

  /** `s` has no carriage return with a line feed behind it. */
  predicate NoLineEnd(s: string) {
    forall j | 0 <= j < |s| - 1 :: !(s[j] == '\r' && s[j + 1] == '\n')
  }

  /**
   `s` is the lines with their ends, none of them empty or divisible, and then an empty line, or what
   is not ended yet.
   */
  predicate Splits(s: string, h: Header) {
    && (forall i | 0 <= i < |h.lines| :: h.lines[i] != "" && NoLineEnd(h.lines[i]))
    && (if h.complete then h.rest == "" && Ended(h.lines) + "\r\n" <= s
        else s == Ended(h.lines) + h.rest && NoLineEnd(h.rest))
  }

  lemma {:induction false} ScanExactly(s: string)
    ensures Splits(s, Scan(s))
    decreases |s|
  {
    hide FindCrlf, Scan, Splits;
    var k := FindCrlf(s);
    ScanStep(s);
    if k == |s| {
      SplitsNone(s);
    } else if k == 0 {
      SplitsEmpty(s);
    } else {
      ScanExactly(s[k + 2..]);
      SplitsCons(s, k, Scan(s[k + 2..]));
    }
  }

  lemma SplitsNone(s: string)
    requires forall j: nat | j < |s| :: !CrlfAt(s, j)
    ensures Splits(s, Header([], false, s))
  {
    NoEndBefore(s, |s|);
    assert s[..|s|] == s && "" + s == s;
  }

  lemma NoEndBefore(s: string, k: nat)
    requires k <= |s| && forall j: nat | j < k :: !CrlfAt(s, j)
    ensures NoLineEnd(s[..k])
  {
    forall j | 0 <= j < k - 1 ensures !(s[..k][j] == '\r' && s[..k][j + 1] == '\n') {
      assert !CrlfAt(s, j);
    }
  }

  lemma SplitsEmpty(s: string)
    requires CrlfAt(s, 0)
    ensures Splits(s, Header([], true, ""))
  {
    assert s[..2] == "\r\n" && "" + "\r\n" == "\r\n";
  }

  lemma SplitsCons(s: string, k: nat, h: Header)
    requires 0 < k && CrlfAt(s, k) && forall j: nat | j < k :: !CrlfAt(s, j)
    requires Splits(s[k + 2..], h)
    ensures Splits(s, Prepend([s[..k]], h))
  {
    var l, more := s[..k], s[k + 2..];
    NoEndBefore(s, k);
    assert s == l + "\r\n" + more;
    EndedCons(l, h.lines);
    if h.complete {
      Leads(l + "\r\n", Ended(h.lines) + "\r\n", more);
      assert l + "\r\n" + (Ended(h.lines) + "\r\n") == l + "\r\n" + Ended(h.lines) + "\r\n";
    } else {
      assert l + "\r\n" + (Ended(h.lines) + h.rest) == l + "\r\n" + Ended(h.lines) + h.rest;
    }
  }

  lemma Leads(a: string, b: string, c: string)
    requires b <= c
    ensures a + b <= a + c
  {
  }

  lemma EndedCons(l: string, ls: seq<string>)
    ensures Ended([l] + ls) == l + "\r\n" + Ended(ls)
  {
  }

  /** Line `i` is the last one that is recognised as a GET or a POST. */
  predicate LastKnown(ls: seq<string>, kind: string -> LineKind, i: nat) {
    i < |ls| && kind(ls[i]) != OtherLine && forall j | i < j < |ls| :: kind(ls[j]) == OtherLine
  }

  lemma LastKnownNext(ls: seq<string>, l: string, kind: string -> LineKind, i: nat)
    ensures LastKnown(ls + [l], kind, i) <==>
            if i == |ls| then kind(l) != OtherLine else LastKnown(ls, kind, i) && kind(l) == OtherLine
  {
    var all := ls + [l];
    assert forall j | 0 <= j < |ls| :: all[j] == ls[j];
    if LastKnown(all, kind, i) && i < |ls| {
      assert all[|ls|] == l;
    }
  }

  /** The method is what the last line recognised says; there is none exactly if no line is. */
  lemma {:induction false} MethodExactly(ls: seq<string>, kind: string -> LineKind)
    ensures forall i: nat | LastKnown(ls, kind, i) :: MethodOf(ls, kind) == kind(ls[i])
    ensures MethodOf(ls, kind) == OtherLine <==> forall i | 0 <= i < |ls| :: kind(ls[i]) == OtherLine
  {
    if ls != [] {
      var n := |ls| - 1;
      var prior := ls[..n];
      MethodExactly(prior, kind);
      assert ls == prior + [ls[n]];
      forall i: nat | LastKnown(ls, kind, i) ensures MethodOf(ls, kind) == kind(ls[i]) {
        LastKnownNext(prior, ls[n], kind, i);
        assert i < n ==> prior[i] == ls[i];
      }
      assert forall i | 0 <= i < n :: ls[i] == prior[i];
    }
  }

  /** A line is handed on up to its first NUL, so one without NUL unchanged. */
  lemma CStringsExactly(ls: seq<string>, i: nat)
    requires i < |ls|
    ensures
      var r := CStrings(ls)[i];
      && r <= ls[i] && '\0' !in r
      && (|r| < |ls[i]| ==> ls[i][|r|] == '\0')
  {
    CStringIs(ls[i], 0);
  }

  lemma {:induction false} CStringIs(s: string, p: nat)
    requires p <= |s|
    ensures
      var r := CString(s, p);
      && p + |r| <= |s| && r == s[p..p + |r|] && '\0' !in r
      && (p + |r| < |s| ==> s[p + |r|] == '\0')
    decreases |s| - p
  {
    if p < |s| && s[p] != '\0' {
      CStringIs(s, p + 1);
    }
  }

  // ----- independence of the division into reads

  /** What does not end a line may be read again with what follows. */
  lemma {:induction false} FindInPrefix(a: string, b: string)
    ensures FindCrlf(a) < |a| ==> FindCrlf(a + b) == FindCrlf(a)
  {
    if |a| >= 2 && !CrlfAt(a, 0) {
      assert (a + b)[1..] == a[1..] + b;
      FindInPrefix(a[1..], b);
    }
  }

  lemma ScanStep(s: string)
    ensures FindCrlf(s) == |s| ==> Scan(s) == Header([], false, s)
    ensures FindCrlf(s) == 0 < |s| ==> Scan(s) == Header([], true, "")
    ensures 0 < FindCrlf(s) < |s| ==> Scan(s) == Prepend([s[..FindCrlf(s)]], Scan(s[FindCrlf(s) + 2..]))
  {
    hide FindCrlf, CrlfAt;
  }

  lemma PrependTwice(a: seq<string>, b: seq<string>, h: Header)
    ensures Prepend(a, Prepend(b, h)) == Prepend(a + b, h)
    ensures Prepend([], h) == h
  {
    assert a + (b + h.lines) == (a + b) + h.lines;
  }

  /** Scanning everything at once is scanning the first part, and then its unfinished line with the second. */
  lemma {:induction false} ScanConcat(a: string, b: string)
    ensures Scan(a).complete ==> Scan(a + b) == Scan(a)
    ensures !Scan(a).complete ==> Scan(a + b) == Prepend(Scan(a).lines, Scan(Scan(a).rest + b))
    decreases |a|
  {
    hide Scan, FindCrlf, Prepend;
    var k := FindCrlf(a);
    ScanStep(a);
    PrependTwice([], [], Scan(a + b));
    if k < |a| {
      FindInPrefix(a, b);
      ScanStep(a + b);
      if k > 0 {
        var tail := a[k + 2..];
        assert (a + b)[..k] == a[..k] && (a + b)[k + 2..] == tail + b;
        ScanConcat(tail, b);
        PrependTwice([a[..k]], Scan(tail).lines, Scan(Scan(tail).rest + b));
        PrependFields([a[..k]], Scan(tail));
      }
    }
  }

  lemma PrependFields(ls: seq<string>, h: Header)
    ensures Prepend(ls, h).complete == h.complete && Prepend(ls, h).rest == h.rest
    ensures Prepend(ls, h).lines == ls + h.lines
  {
  }

  /** The header read so far, and whether reading overflowed its buffer. */
  datatype Reading = Reading(header: Header, overflow: bool)

  /** Readable events with these arrivals, until the header is complete or the buffer overflows. */
  function ReadAll(parts: seq<string>): Reading {
    if parts == [] then Reading(Header([], false, ""), false)
    else
      var n := |parts| - 1;
      var r := ReadAll(parts[..n]);
      if r.overflow || r.header.complete then r
      else
        var s := r.header.rest + parts[n];
        if |s| >= MAX_STRING then r.(overflow := true)
        else
          var h := Scan(s);
          r.(header := Header(r.header.lines + h.lines, h.complete, h.rest))
  }

  /**
   For every division of the input into readable events that does not fill the buffer, the lines
   are those of the whole stream up to the first empty line.
   */
  lemma {:induction false} ChunkIndependence(parts: seq<string>)
    ensures !ReadAll(parts).overflow ==> ReadAll(parts).header == Scan(Concat(parts))
  {
    if parts != [] {
      var n := |parts| - 1;
      ChunkIndependence(parts[..n]);
      if !ReadAll(parts[..n]).overflow {
        ScanConcat(Concat(parts[..n]), parts[n]);
      }
    }
  }

  // ----- scanning in place

  lemma FindIs(s: string, k: nat)
    requires CrlfAt(s, k) && forall j: nat | j < k :: !CrlfAt(s, j)
    ensures FindCrlf(s) == k
  {
  }

  lemma FindNone(s: string)
    requires forall j: nat :: !CrlfAt(s, j)
    ensures FindCrlf(s) == |s|
  {
  }

  /**
   `t` is buffer `s` partly scanned in place: `done` are the lines up to `wrap`, from where on the
   buffer is as it was, and there is no CRLF between `wrap` and `i`.
   */
  ghost predicate Scanned(s: string, t: string, wrap: nat, i: nat, done: seq<string>) {
    && |t| == |s| && wrap <= i && wrap <= |s|
    && (forall j | wrap <= j < |s| :: t[j] == s[j])
    && (wrap > 0 ==> t[wrap - 1] == '\n')
    && (forall j: nat | wrap <= j && j + 1 < i :: !CrlfAt(s, j))
    && Scan(s) == Prepend(done, Scan(s[wrap..]))
  }

  lemma ScannedNone(s: string)
    ensures Scanned(s, s, 0, 1, [])
  {
    assert s[0..] == s;
    PrependTwice([], [], Scan(s));
  }

  lemma ScannedOn(s: string, t: string, wrap: nat, i: nat, done: seq<string>)
    requires Scanned(s, t, wrap, i, done) && 0 < i < |s| && !(t[i] == '\n' && t[i - 1] == '\r')
    ensures Scanned(s, t, wrap, i + 1, done)
  {
    hide Scan, Prepend;
  }

  lemma CrlfBehind(s: string, wrap: nat)
    requires wrap <= |s|
    ensures forall j: nat :: CrlfAt(s[wrap..], j) == CrlfAt(s, wrap + j)
  {
  }

  /** A line feed at `i` behind a carriage return is not part of an earlier line end. */
  lemma LineEnd(s: string, t: string, wrap: nat, i: nat, done: seq<string>)
    requires Scanned(s, t, wrap, i, done) && 0 < i < |s| && t[i] == '\n' && t[i - 1] == '\r'
    ensures wrap <= i - 1 && FindCrlf(s[wrap..]) == i - 1 - wrap
  {
    hide Scan, Prepend, FindCrlf;
    assert i != wrap;
    var r := s[wrap..];
    assert CrlfAt(s, i - 1);
    CrlfBehind(s, wrap);
    FindIs(r, i - 1 - wrap);
  }

  /** It ends the line that starts at `wrap`; an empty line ends the header. */
  lemma ScannedLine(s: string, t: string, wrap: nat, i: nat, done: seq<string>, u: string)
    requires Scanned(s, t, wrap, i, done) && 0 < i < |s| && t[i] == '\n' && t[i - 1] == '\r' && u == t[i - 1 := '\0']
    ensures wrap <= i - 1
    ensures wrap == i - 1 ==> Scan(s) == Header(done, true, "")
    ensures wrap < i - 1 ==> Scanned(s, u, i + 1, i + 1, done + [s[wrap..i - 1]])
    ensures |u| == |s| && u[i - 1] == '\0' && forall j | wrap <= j < i - 1 :: u[j] == s[j]
  {
    hide Scan, Prepend, FindCrlf;
    LineEnd(s, t, wrap, i, done);
    var r := s[wrap..];
    var k := i - 1 - wrap;
    ScanStep(r);
    PrependFields(done, Header([], true, ""));
    assert done + [] == done;
    assert r[..k] == s[wrap..i - 1] && r[k + 2..] == s[i + 1..];
    PrependTwice(done, [r[..k]], Scan(r[k + 2..]));
  }

  /** The string at `wrap`, once its CRLF is cut, is the line. */
  lemma LineString(s: string, t: string, wrap: nat, e: nat)
    requires wrap <= e < |s| <= |t| && t[e] == '\0' && forall j | wrap <= j < e :: t[j] == s[j]
    ensures CString(t, wrap) == CString(s[wrap..e], 0)
  {
    assert t[wrap..e] == s[wrap..e];
    CStringPiece(t, wrap, e);
  }

  lemma ScannedAll(s: string, t: string, wrap: nat, i: nat, done: seq<string>)
    requires Scanned(s, t, wrap, i, done) && i >= |s|
    ensures Scan(s) == Header(done, false, t[wrap..])
  {
    hide Scan, Prepend, FindCrlf;
    CrlfBehind(s, wrap);
    FindNone(s[wrap..]);
    ScanStep(s[wrap..]);
    PrependFields(done, Header([], false, s[wrap..]));
    assert t[wrap..] == s[wrap..] && done + [] == done;
  }
}
