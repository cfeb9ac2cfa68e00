/** hex2string of src/camhttp.c: bytes to lower-case hexadecimal text. */
module Hex {
  import opened Md5Spec

  const DICT: string := "0123456789abcdef"

  function Digit(n: nat): char
    requires n < 16
  {
    if n < 10 then ('0' as int + n) as char else ('a' as int + (n - 10)) as char
  }

  function HexOf(b: seq<Byte>): (r: string)
    ensures |r| == 2 * |b|
  {
    if b == [] then ""
    else HexOf(b[..|b| - 1]) + [Digit(b[|b| - 1] / 16), Digit(b[|b| - 1] % 16)]
  }

  /** Different bytes give different text. */
  lemma {:induction false} HexInjective(a: seq<Byte>, b: seq<Byte>)
    requires HexOf(a) == HexOf(b)
    ensures a == b
  {
    hide HexOf, Digit;
    HexParts(a);
    HexParts(b);
    if a != [] {
      var n := |a| - 1;
      HexInjective(a[..n], b[..n]);
      DigitsDiffer(a[n], b[n]);
    }
  }

  lemma HexParts(a: seq<Byte>)
    ensures |HexOf(a)| == 2 * |a|
    ensures
      a != [] ==>
        var n := |a| - 1;
        && HexOf(a)[..2 * n] == HexOf(a[..n]) && a == a[..n] + [a[n]]
        && HexOf(a)[2 * n] == Digit(a[n] / 16) && HexOf(a)[2 * n + 1] == Digit(a[n] % 16)
  {
    if a != [] {
      hide HexOf, Digit;
      var n := |a| - 1;
      HexLast(a);
      LastApart(a);
      PairBehind(HexOf(a[..n]), Digit(a[n] / 16), Digit(a[n] % 16), n);
    }
  }

  lemma HexLast(a: seq<Byte>)
    requires a != []
    ensures
      var n := |a| - 1;
      HexOf(a) == HexOf(a[..n]) + [Digit(a[n] / 16), Digit(a[n] % 16)]
  {
    hide Digit;
  }

  lemma LastApart(a: seq<Byte>)
    requires a != []
    ensures a == a[..|a| - 1] + [a[|a| - 1]]
  {
  }

  lemma PairBehind(s: string, c: char, d: char, n: nat)
    requires |s| == 2 * n
    ensures var t := s + [c, d]; t[..2 * n] == s && t[2 * n] == c && t[2 * n + 1] == d
  {
  }

  lemma DigitsDiffer(x: Byte, y: Byte)
    requires Digit(x / 16) == Digit(y / 16) && Digit(x % 16) == Digit(y % 16)
    ensures x == y
  {
    assert x / 16 == y / 16 && x % 16 == y % 16;
  }

  /** The value of a hexadecimal digit, as text is read. */
  function ValueOf(c: char): int {
    if '0' <= c <= '9' then c as int - '0' as int
    else if 'a' <= c <= 'f' then 10 + (c as int - 'a' as int)
    else -1
  }

  /** Read as digits, each pair high before low, the text is the bytes. */
  lemma {:induction false} HexReads(b: seq<Byte>, i: nat)
    requires i < |b|
    ensures ValueOf(HexOf(b)[2 * i]) >= 0 && ValueOf(HexOf(b)[2 * i + 1]) >= 0
    ensures b[i] == 16 * ValueOf(HexOf(b)[2 * i]) + ValueOf(HexOf(b)[2 * i + 1])
    decreases |b|
  {
    hide HexOf, Digit, ValueOf;
    var n := |b| - 1;
    HexParts(b);
    if i == n {
      DigitReads(b[n] / 16);
      DigitReads(b[n] % 16);
    } else {
      HexReads(b[..n], i);
      assert HexOf(b)[..2 * n][2 * i] == HexOf(b)[2 * i] && HexOf(b)[..2 * n][2 * i + 1] == HexOf(b)[2 * i + 1];
    }
  }

  lemma DigitReads(n: nat)
    requires n < 16
    ensures ValueOf(Digit(n)) == n
  {
  }

  /** How many bytes get written when `n` bytes go into a buffer of `size`. */
  function Written(n: nat, size: nat): (k: nat)
    ensures k <= n && 2 * k <= size
  {
    if n <= size / 2 then n else size / 2
  }

  /** The loop of hex2string, for every length: it ends at the index where the terminator goes. */
  method WriteDigits(hex: seq<Byte>, buff: array<char>, bufLen: nat) returns (i: nat)
    requires bufLen <= buff.Length
    modifies buff
    ensures i == 2 * Written(|hex|, bufLen) <= bufLen && buff[..i] == HexOf(hex[..Written(|hex|, bufLen)])
    ensures forall j | i <= j < buff.Length :: buff[j] == old(buff[j])
  {
    i := 0;
    var p := 0;
    while i < bufLen - 1 && p < |hex|
      invariant i == 2 * p && p <= Written(|hex|, bufLen)
      invariant buff[..i] == HexOf(hex[..p])
      invariant forall j | i <= j < buff.Length :: buff[j] == old(buff[j])
      decreases |hex| - p
    {
      var c1: nat, c2: nat := hex[p] / 16, hex[p] % 16;
      buff[i] := DICT[c1];
      buff[i + 1] := DICT[c2];
      OneByte(hex, p);
      assert buff[..i + 2] == buff[..i] + [buff[i], buff[i + 1]];
      i, p := i + 2, p + 1;
    }
  }

  lemma OneByte(hex: seq<Byte>, p: nat)
    requires p < |hex|
    ensures HexOf(hex[..p + 1]) == HexOf(hex[..p]) + [DICT[hex[p] / 16], DICT[hex[p] % 16]]
  {
    assert hex[..p + 1][..p] == hex[..p];
    DictDigit(hex[p] / 16);
    DictDigit(hex[p] % 16);
  }

  /** hex2string: the text and its terminator,
      which lies within the length given exactly if that is odd or exceeds the text. */
  method Hex2String(hex: seq<Byte>, buff: array<char>, bufLen: nat)
    requires bufLen <= buff.Length && 2 * Written(|hex|, bufLen) < buff.Length
    modifies buff
    ensures
      var k := Written(|hex|, bufLen);
      && buff[..2 * k] == HexOf(hex[..k]) && buff[2 * k] == '\0'
      && (2 * k < bufLen <==> bufLen % 2 == 1 || 2 * |hex| < bufLen)
    ensures forall j | 2 * Written(|hex|, bufLen) < j < buff.Length :: buff[j] == old(buff[j])
  {
    var i := WriteDigits(hex, buff, bufLen);
    buff[i] := '\0';
  }

  lemma DictDigit(n: nat)
    requires n < 16
    ensures DICT[n] == Digit(n)
  {
  }
}
