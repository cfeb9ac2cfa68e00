/** Optional values, C strings inside buffers, and texts in pieces. */
module Texts {

  datatype Option<+T> = None | Some(value: T)

  /** The C string that starts at position `p`. */
  function CString(s: string, p: nat): string
    decreases |s| - p
  {
    if p >= |s| || s[p] == '\0' then "" else [s[p]] + CString(s, p + 1)
  }

  lemma {:induction false} CStringShift(s: string, p: nat)
    requires p <= |s|
    ensures CString(s, p) == CString(s[p..], 0)
    decreases |s| - p
  {
    if p < |s| {
      CStringShift(s, p + 1);
      CStringShift(s[p..], 1);
      assert s[p..][1..] == s[p + 1..];
    }
  }

  /** A string that ends inside the buffer, at or before `e`, is a string of that piece of it. */
  lemma {:induction false} CStringUntil(x: string, y: string)
    ensures CString(x + ['\0'] + y, 0) == CString(x, 0)
  {
    var t := x + ['\0'] + y;
    if x != "" {
      assert t[1..] == x[1..] + ['\0'] + y;
      CStringUntil(x[1..], y);
      CStringShift(t, 1);
      CStringShift(x, 1);
    }
  }

  lemma CStringPiece(t: string, p: nat, e: nat)
    requires p <= e < |t| && t[e] == '\0'
    ensures CString(t, p) == CString(t[p..e], 0)
  {
    hide CString;
    CStringShift(t, p);
    assert t[p..] == t[p..e] + ['\0'] + t[e + 1..];
    CStringUntil(t[p..e], t[e + 1..]);
  }

  /** All pieces one after another. */
  function Concat<X>(parts: seq<seq<X>>): seq<X> {
    if parts == [] then [] else Concat(parts[..|parts| - 1]) + parts[|parts| - 1]
  }
}
