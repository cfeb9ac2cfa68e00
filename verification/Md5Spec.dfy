/**
 MD5 as RFC 1321 defines it: padding, a table-driven compression of 64-byte blocks, and
 little-endian words. Md5.dfy proves the streaming, unrolled code against it.
 */
module Md5Spec {
  import Bits

  type Byte = x: nat | x < 256
  type Word = x: nat | x < 0x1_0000_0000

  // ----- words and bytes (sections 2 and 3.5)

  /** The `k` low-order bytes of `v`, low-order byte first. */
  function LittleEndian(v: nat, k: nat): (r: seq<Byte>)
    ensures |r| == k
  {
    if k == 0 then [] else [v % 256] + LittleEndian(v / 256, k - 1)
  }

  function FromBytes(b: seq<Byte>): (w: Word)
    requires |b| == 4
  {
    var b0: nat, b1: nat, b2: nat, b3: nat := b[0], b[1], b[2], b[3];
    b0 + 0x100 * b1 + 0x1_0000 * b2 + 0x100_0000 * b3
  }

  function EncodeWords(ws: seq<Word>): (r: seq<Byte>)
    ensures |r| == 4 * |ws|
  {
    if ws == [] then [] else LittleEndian(ws[0], 4) + EncodeWords(ws[1..])
  }

  function DecodeWords(b: seq<Byte>): (r: seq<Word>)
    requires |b| % 4 == 0
    ensures |r| == |b| / 4
  {
    if b == [] then [] else [FromBytes(b[..4])] + DecodeWords(b[4..])
  }

  lemma EncodeCons(w: Word, ws: seq<Word>)
    ensures EncodeWords([w] + ws) == LittleEndian(w, 4) + EncodeWords(ws)
    ensures EncodeWords([]) == []
  {
    hide LittleEndian;
    assert ([w] + ws)[1..] == ws;
  }

  lemma EncodeFour(w0: Word, w1: Word, w2: Word, w3: Word)
    ensures EncodeWords([w0, w1, w2, w3]) ==
            LittleEndian(w0, 4) + LittleEndian(w1, 4) + LittleEndian(w2, 4) + LittleEndian(w3, 4)
  {
    hide LittleEndian, EncodeWords;
    EncodeCons(w3, []);
    EncodeCons(w2, [w3]);
    EncodeCons(w1, [w2, w3]);
    EncodeCons(w0, [w1, w2, w3]);
    assert [w3] + [] == [w3] && [w2] + [w3] == [w2, w3] && [w1] + [w2, w3] == [w1, w2, w3];
    assert [w0] + [w1, w2, w3] == [w0, w1, w2, w3];
  }

  lemma {:induction false} EncodeConcat(a: seq<Word>, b: seq<Word>)
    ensures EncodeWords(a + b) == EncodeWords(a) + EncodeWords(b)
  {
    if a == [] {
      assert a + b == b;
    } else {
      assert (a + b)[1..] == a[1..] + b;
      EncodeConcat(a[1..], b);
    }
  }

  lemma FourBytes(v: nat)
    ensures LittleEndian(v, 4) == [v % 256, v / 256 % 256, v / 0x1_0000 % 256, v / 0x100_0000 % 256]
  {
    assert v / 256 / 256 == v / 0x1_0000;
    assert v / 0x1_0000 / 256 == v / 0x100_0000;
    assert LittleEndian(v / 0x100_0000, 1) == [v / 0x100_0000 % 256];
    assert LittleEndian(v / 0x1_0000, 2) == [v / 0x1_0000 % 256] + LittleEndian(v / 0x100_0000, 1);
    assert LittleEndian(v / 256, 3) == [v / 256 % 256] + LittleEndian(v / 0x1_0000, 2);
  }

  lemma WordBack(w: Word)
    ensures FromBytes(LittleEndian(w, 4)) == w
  {
    hide LittleEndian;
    var m1, m2, m3 := w / 256, w / 256 / 256, w / 256 / 256 / 256;
    var b0: Byte, b1: Byte, b2: Byte := w % 256, m1 % 256, m2 % 256;
    assert w == b0 + 256 * m1 && m1 == b1 + 256 * m2 && m2 == b2 + 256 * m3;
    LittleCons(b0, m1, 3);
    LittleCons(b1, m2, 2);
    LittleCons(b2, m3, 1);
    LittleCons(m3, 0, 0);
    NoBytes(0);
  }

  /** Decoding inverts encoding on words, and encoding inverts decoding on whole words. */
  lemma {:induction false} DecodeEncode(ws: seq<Word>)
    ensures DecodeWords(EncodeWords(ws)) == ws
  {
    if ws != [] {
      hide LittleEndian, FromBytes;
      var e := EncodeWords(ws);
      assert e[..4] == LittleEndian(ws[0], 4) && e[4..] == EncodeWords(ws[1..]);
      WordBack(ws[0]);
      DecodeEncode(ws[1..]);
    }
  }

  lemma BytesOfWord(b: seq<Byte>)
    requires |b| == 4
    ensures LittleEndian(FromBytes(b), 4) == b
  {
    hide LittleEndian;
    var m3: nat, m2: nat, m1: nat := b[3], b[2] + 256 * b[3] as nat, b[1] + 256 * (b[2] + 256 * b[3] as nat);
    LittleCons(b[0], m1, 3);
    LittleCons(b[1], m2, 2);
    LittleCons(b[2], m3, 1);
    LittleCons(b[3], 0, 0);
    NoBytes(0);
  }

  lemma LittleCons(b: Byte, m: nat, k: nat)
    ensures LittleEndian(b + 256 * m, k + 1) == [b] + LittleEndian(m, k)
  {
    PeelByte(b + 256 * m, m, b);
  }

  lemma NoBytes(v: nat)
    ensures LittleEndian(v, 0) == []
  {
  }

  lemma {:induction false} EncodeDecode(b: seq<Byte>)
    requires |b| % 4 == 0
    ensures EncodeWords(DecodeWords(b)) == b
  {
    if b != [] {
      BytesOfWord(b[..4]);
      EncodeDecode(b[4..]);
      assert b == b[..4] + b[4..];
      var d := DecodeWords(b);
      assert d[0] == FromBytes(b[..4]) && d[1..] == DecodeWords(b[4..]);
    }
  }

  // ----- the compression function (section 3.4)

  function FBits(x: bv32, y: bv32, z: bv32): bv32 {
    (x & y) | (!x & z)
  }

  function GBits(x: bv32, y: bv32, z: bv32): bv32 {
    (x & z) | (y & !z)
  }

  function HBits(x: bv32, y: bv32, z: bv32): bv32 {
    x ^ y ^ z
  }

  function IBits(x: bv32, y: bv32, z: bv32): bv32 {
    y ^ (x | !z)
  }

  function Left(x: bv32, n: bv32): bv32
    requires n < 32
  {
    x << n
  }

  function Right(x: bv32, n: bv32): bv32
    requires n < 32
  {
    x >> n
  }

  function RotateBits(x: bv32, n: bv32): bv32
    requires 0 < n < 32
  {
    Left(x, n) | Right(x, 32 - n)
  }

  function BitsOf(w: Word): bv32 {
    w as bv32
  }

  function Number(b: bv32): Word {
    b as nat
  }

  function F(x: Word, y: Word, z: Word): Word {
    Number(FBits(BitsOf(x), BitsOf(y), BitsOf(z)))
  }

  function G(x: Word, y: Word, z: Word): Word {
    Number(GBits(BitsOf(x), BitsOf(y), BitsOf(z)))
  }

  function H(x: Word, y: Word, z: Word): Word {
    Number(HBits(BitsOf(x), BitsOf(y), BitsOf(z)))
  }

  function I(x: Word, y: Word, z: Word): Word {
    Number(IBits(BitsOf(x), BitsOf(y), BitsOf(z)))
  }

  function RotateLeft(x: Word, n: bv32): Word
    requires 0 < n < 32
  {
    Number(RotateBits(BitsOf(x), n))
  }

  lemma BitsOfNumber(b: bv32)
    ensures BitsOf(Number(b)) == b
  {
  }

  /** On words the four functions and the rotation work on the bits. */
  lemma OnBits(x: bv32, y: bv32, z: bv32)
    ensures F(Number(x), Number(y), Number(z)) == Number(FBits(x, y, z))
    ensures G(Number(x), Number(y), Number(z)) == Number(GBits(x, y, z))
    ensures H(Number(x), Number(y), Number(z)) == Number(HBits(x, y, z))
    ensures I(Number(x), Number(y), Number(z)) == Number(IBits(x, y, z))
    ensures forall n: bv32 | 0 < n < 32 :: RotateLeft(Number(x), n) == Number(RotateBits(x, n))
  {
    hide BitsOf, Number, FBits, GBits, HBits, IBits, RotateBits;
    BitsOfNumber(x);
    BitsOfNumber(y);
    BitsOfNumber(z);
  }

  /** F selects: y where x has ones, z where it has zeros. */
  lemma FSelects(x: bv32, y: bv32, z: bv32)
    ensures FBits(x, y, z) & x == y & x && FBits(x, y, z) & !x == z & !x
  {
  }

  /** G is F with its arguments turned. */
  lemma GSelects(x: bv32, y: bv32, z: bv32)
    ensures GBits(x, y, z) == FBits(z, x, y)
  {
  }

  lemma HCancels(x: bv32, y: bv32, z: bv32)
    ensures HBits(x, y, z) ^ z == x ^ y
  {
  }

  lemma ILaw(x: bv32, y: bv32, z: bv32)
    ensures (IBits(x, y, z) ^ y) & z == x & z
    ensures (IBits(x, y, z) ^ y) | z == 0xffff_ffff
  {
  }

  lemma LeftOr(x: bv32, y: bv32, n: bv32)
    requires n < 32
    ensures Left(x | y, n) == Left(x, n) | Left(y, n)
  {
  }

  lemma RightOr(x: bv32, y: bv32, n: bv32)
    requires n < 32
    ensures Right(x | y, n) == Right(x, n) | Right(y, n)
  {
  }

  /** Rotation works bit by bit. */
  lemma RotateOr(x: bv32, y: bv32, n: bv32)
    requires 0 < n < 32
    ensures RotateBits(x | y, n) == RotateBits(x, n) | RotateBits(y, n)
  {
    hide Left, Right;
    LeftOr(x, y, n);
    RightOr(x, y, 32 - n);
  }

  lemma BitLeft(k: bv32, n: bv32)
    requires n < 32 && k < 32
    ensures Left(1 << k, n) == if k + n < 32 then 1 << (k + n) else 0
  {
  }

  lemma BitRight(k: bv32, n: bv32)
    requires n < 32 && k < 32
    ensures Right(1 << k, n) == if k >= n then 1 << (k - n) else 0
  {
  }

  lemma AroundAgain(k: bv32, n: bv32)
    requires 0 < n < 32 && k < 32
    ensures (k + n) % 32 == if k + n < 32 then k + n else k - (32 - n)
    ensures k + n < 32 <==> k < 32 - n
  {
  }

  /** Bit k goes to bit k + n modulo 32. */
  lemma RotateBit(k: bv32, n: bv32)
    requires 0 < n < 32 && k < 32
    ensures RotateBits(1 << k, n) == 1 << ((k + n) % 32)
  {
    hide Left, Right;
    BitLeft(k, n);
    BitRight(k, 32 - n);
    AroundAgain(k, n);
  }

  lemma AllOut(x: bv32, n: bv32, m: bv32)
    requires 0 < n < 32 && m == 32 - n
    ensures Left(Left(x, n), m) == 0 && Right(Right(x, m), n) == 0
  {
  }

  lemma BackAndForth(x: bv32, n: bv32, m: bv32)
    requires 0 < n < 32 && m == 32 - n
    ensures Left(Right(x, m), m) | Right(Left(x, n), n) == x
  {
  }

  lemma RotateParts(x: bv32, n: bv32, m: bv32)
    requires 0 < n < 32 && 0 < m < 32 && m == 32 - n && n == 32 - m
    ensures RotateBits(x, n) == Left(x, n) | Right(x, m)
    ensures RotateBits(x, m) == Left(x, m) | Right(x, n)
  {
    hide Left, Right;
  }

  lemma Complement(n: bv32, m: bv32)
    requires 0 < n < 32 && m == 32 - n
    ensures 0 < m < 32 && n == 32 - m
  {
  }

  /** Of the four pieces of a rotation back, two are shifted out, and the others are the bits of `x`. */
  lemma Pieces(x: bv32, n: bv32, m: bv32)
    requires n < 32 && m < 32
    requires Left(Left(x, n), m) == 0 && Right(Right(x, m), n) == 0 && Left(Right(x, m), m) | Right(Left(x, n), n) == x
    requires Left(Left(x, n) | Right(x, m), m) == Left(Left(x, n), m) | Left(Right(x, m), m)
    requires Right(Left(x, n) | Right(x, m), n) == Right(Left(x, n), n) | Right(Right(x, m), n)
    ensures Left(Left(x, n) | Right(x, m), m) | Right(Left(x, n) | Right(x, m), n) == x
  {
    hide Left, Right;
  }

  lemma LeftAgain(x: bv32, n: bv32, m: bv32)
    requires 0 < n < 32 && m == 32 - n
    ensures m < 32
    ensures Left(Left(x, n) | Right(x, m), m) == Left(Left(x, n), m) | Left(Right(x, m), m)
  {
  }

  lemma RightAgain(x: bv32, n: bv32, m: bv32)
    requires 0 < n < 32 && m == 32 - n
    ensures m < 32
    ensures Right(Left(x, n) | Right(x, m), n) == Right(Left(x, n), n) | Right(Right(x, m), n)
  {
  }

  lemma FourShifted(x: bv32, n: bv32, m: bv32)
    requires 0 < n < 32 && m == 32 - n
    ensures m < 32
    ensures Left(Left(x, n), m) == 0 && Right(Right(x, m), n) == 0 && Left(Right(x, m), m) | Right(Left(x, n), n) == x
  {
    hide Left, Right;
    AllOut(x, n, m);
    BackAndForth(x, n, m);
  }

  lemma Back(x: bv32, n: bv32, m: bv32)
    requires 0 < n < 32 && m == 32 - n && 0 < m < 32
    ensures Left(Left(x, n) | Right(x, m), m) | Right(Left(x, n) | Right(x, m), n) == x
  {
    hide Left, Right;
    FourShifted(x, n, m);
    LeftAgain(x, n, m);
    RightAgain(x, n, m);
    Pieces(x, n, m);
  }

  /** Rotating on by 32 - n comes back. */
  lemma RotateBack(x: bv32, n: bv32, m: bv32)
    requires 0 < n < 32 && m == 32 - n
    ensures 0 < m < 32 && RotateBits(RotateBits(x, n), m) == x
  {
    hide Left, Right, RotateBits;
    Complement(n, m);
    RotateParts(x, n, m);
    RotateParts(Left(x, n) | Right(x, m), n, m);
    Back(x, n, m);
  }

  function Plus(x: Word, y: Word): Word {
    (x as int + y as int) % 0x1_0000_0000
  }

  /** b + ((a + f + x + t) <<< s) modulo 2^32. */
  function Mix(a: Word, b: Word, f: Word, x: Word, s: bv32, t: Word): Word
    requires 0 < s < 32
  {
    (b + RotateLeft((a + f + x + t) % 0x1_0000_0000, s)) % 0x1_0000_0000
  }

  function Fun(i: nat, x: Word, y: Word, z: Word): Word
    requires i < 64
  {
    if i < 16 then F(x, y, z) else if i < 32 then G(x, y, z) else if i < 48 then H(x, y, z) else I(x, y, z)
  }

  /** Which message word step `i` uses. */
  function Index(i: nat): (k: nat)
    requires i < 64
    ensures k < 16
  {
    if i < 16 then i
    else if i < 32 then (1 + 5 * i) % 16
    else if i < 48 then (5 + 3 * i) % 16
    else (7 * i) % 16
  }

  function Pick(j: nat, s0: bv32, s1: bv32, s2: bv32, s3: bv32): bv32 {
    if j == 0 then s0 else if j == 1 then s1 else if j == 2 then s2 else s3
  }

  function Shift(i: nat): (s: bv32)
    requires i < 64
    ensures 0 < s < 32
  {
    if i < 16 then Pick(i % 4, 7, 12, 17, 22)
    else if i < 32 then Pick(i % 4, 5, 9, 14, 20)
    else if i < 48 then Pick(i % 4, 4, 11, 16, 23)
    else Pick(i % 4, 6, 10, 15, 21)
  }

  function T1(i: nat): Word
    requires i < 16
  {
    match i
    case 0 => 0xd76aa478 case 1 => 0xe8c7b756 case 2 => 0x242070db case 3 => 0xc1bdceee
    case 4 => 0xf57c0faf case 5 => 0x4787c62a case 6 => 0xa8304613 case 7 => 0xfd469501
    case 8 => 0x698098d8 case 9 => 0x8b44f7af case 10 => 0xffff5bb1 case 11 => 0x895cd7be
    case 12 => 0x6b901122 case 13 => 0xfd987193 case 14 => 0xa679438e case 15 => 0x49b40821
  }

  function T2(i: nat): Word
    requires i < 16
  {
    match i
    case 0 => 0xf61e2562 case 1 => 0xc040b340 case 2 => 0x265e5a51 case 3 => 0xe9b6c7aa
    case 4 => 0xd62f105d case 5 => 0x02441453 case 6 => 0xd8a1e681 case 7 => 0xe7d3fbc8
    case 8 => 0x21e1cde6 case 9 => 0xc33707d6 case 10 => 0xf4d50d87 case 11 => 0x455a14ed
    case 12 => 0xa9e3e905 case 13 => 0xfcefa3f8 case 14 => 0x676f02d9 case 15 => 0x8d2a4c8a
  }

  function T3(i: nat): Word
    requires i < 16
  {
    match i
    case 0 => 0xfffa3942 case 1 => 0x8771f681 case 2 => 0x6d9d6122 case 3 => 0xfde5380c
    case 4 => 0xa4beea44 case 5 => 0x4bdecfa9 case 6 => 0xf6bb4b60 case 7 => 0xbebfbc70
    case 8 => 0x289b7ec6 case 9 => 0xeaa127fa case 10 => 0xd4ef3085 case 11 => 0x04881d05
    case 12 => 0xd9d4d039 case 13 => 0xe6db99e5 case 14 => 0x1fa27cf8 case 15 => 0xc4ac5665
  }

  function T4(i: nat): Word
    requires i < 16
  {
    match i
    case 0 => 0xf4292244 case 1 => 0x432aff97 case 2 => 0xab9423a7 case 3 => 0xfc93a039
    case 4 => 0x655b59c3 case 5 => 0x8f0ccc92 case 6 => 0xffeff47d case 7 => 0x85845dd1
    case 8 => 0x6fa87e4f case 9 => 0xfe2ce6e0 case 10 => 0xa3014314 case 11 => 0x4e0811a1
    case 12 => 0xf7537e82 case 13 => 0xbd3af235 case 14 => 0x2ad7d2bb case 15 => 0xeb86d391
  }

  /** The sine table. */
  function T(i: nat): Word
    requires i < 64
  {
    if i < 16 then T1(i) else if i < 32 then T2(i - 16) else if i < 48 then T3(i - 32) else T4(i - 48)
  }

  datatype Regs = Regs(a: Word, b: Word, c: Word, d: Word)

  /** Step `i` on rotating registers. */
  function StepAt(r: Regs, x: seq<Word>, i: nat): Regs
    requires |x| == 16 && i < 64
  {
    Regs(r.d, Mix(r.a, r.b, Fun(i, r.b, r.c, r.d), x[Index(i)], Shift(i), T(i)), r.b, r.c)
  }

  function Rounds(r: Regs, x: seq<Word>, n: nat): Regs
    requires |x| == 16 && n <= 64
    decreases |x|, n
  {
    if n == 0 then r else StepAt(Rounds(r, x, n - 1), x, n - 1)
  }

  function Compress(state: seq<Word>, block: seq<Byte>): (r: seq<Word>)
    requires |state| == 4 && |block| == 64
    ensures |r| == 4
  {
    var x := DecodeWords(block);
    var r := Rounds(Regs(state[0], state[1], state[2], state[3]), x, 64);
    [Plus(state[0], r.a), Plus(state[1], r.b), Plus(state[2], r.c), Plus(state[3], r.d)]
  }

  // ----- padding and the whole digest (sections 3.1 to 3.5)

  const INIT: seq<Word> := [0x67452301, 0xefcdab89, 0x98badcfe, 0x10325476]

  /** The initial words are the sixteen half bytes counted up and down. */
  lemma InitBytes()
    ensures EncodeWords(INIT) ==
            [0x01, 0x23, 0x45, 0x67, 0x89, 0xab, 0xcd, 0xef, 0xfe, 0xdc, 0xba, 0x98, 0x76, 0x54, 0x32, 0x10]
  {
    hide LittleEndian, EncodeWords;
    FourLiteral();
    EncodeFour(INIT[0], INIT[1], INIT[2], INIT[3]);
  }

  lemma FourLiteral()
    ensures LittleEndian(0x67452301, 4) == [0x01, 0x23, 0x45, 0x67]
    ensures LittleEndian(0xefcdab89, 4) == [0x89, 0xab, 0xcd, 0xef]
    ensures LittleEndian(0x98badcfe, 4) == [0xfe, 0xdc, 0xba, 0x98]
    ensures LittleEndian(0x10325476, 4) == [0x76, 0x54, 0x32, 0x10]
  {
    hide LittleEndian;
    BytesOfWord([0x01, 0x23, 0x45, 0x67]);
    BytesOfWord([0x89, 0xab, 0xcd, 0xef]);
    BytesOfWord([0xfe, 0xdc, 0xba, 0x98]);
    BytesOfWord([0x76, 0x54, 0x32, 0x10]);
  }

  function Fold(state: seq<Word>, m: seq<Byte>): (r: seq<Word>)
    requires |state| == 4 && |m| % 64 == 0
    ensures |r| == 4
    decreases |m|
  {
    if m == [] then state
    else
      BlockOff(|m|);
      Fold(Compress(state, m[..64]), m[64..])
  }

  lemma BlockOff(n: nat)
    requires n % 64 == 0 && n > 0
    ensures n >= 64 && (n - 64) % 64 == 0
  {
  }

  function Zeros(n: nat): (r: seq<Byte>)
    ensures |r| == n
  {
    seq(n, i => 0)
  }

  /** How many zero bytes bring a message of `n` bytes and the 0x80 byte to 56 modulo 64. */
  function ZeroCount(n: nat): (z: nat)
    ensures z < 64 && (n + 1 + z) % 64 == 56
  {
    (119 - n % 64) % 64
  }

  lemma PaddedSize(n: nat)
    ensures (n + 1 + ZeroCount(n) + 8) % 64 == 0
  {
    var k := n + 1 + ZeroCount(n);
    assert k % 64 == 56;
  }

  function Pad(m: seq<Byte>): (r: seq<Byte>)
    ensures |r| % 64 == 0
  {
    PaddedSize(|m|);
    m + [0x80] + Zeros(ZeroCount(|m|)) + LittleEndian(8 * |m|, 8)
  }

  function MessageDigest(m: seq<Byte>): (digest: seq<Byte>)
    ensures |digest| == 16
  {
    EncodeWords(Fold(INIT, Pad(m)))
  }

  /** The number that little-endian bytes stand for. */
  function LittleValue(b: seq<Byte>): nat {
    if b == [] then 0 else b[0] + 256 * LittleValue(b[1..])
  }

  function Power256(k: nat): (p: nat)
    ensures p > 0
  {
    if k == 0 then 1 else 256 * Power256(k - 1)
  }

  /** `k` little-endian bytes read back as the value modulo 256^k. */
  lemma {:induction false} LittleReads(v: nat, k: nat)
    ensures LittleValue(LittleEndian(v, k)) == v % Power256(k)
    decreases k
  {
    if k > 0 {
      assert LittleEndian(v, k)[1..] == LittleEndian(v / 256, k - 1);
      LittleReads(v / 256, k - 1);
      ModStep(v, Power256(k - 1));
    }
  }

  lemma ModStep(v: nat, p: nat)
    requires p > 0
    ensures v % (256 * p) == v % 256 + 256 * (v / 256 % p)
  {
    var h := v / 256;
    var q, r := h / p, h % p;
    assert h == p * q + r;
    assert 256 * (p * q) == (256 * p) * q;
    Bits.DivModUnique(v, 256 * p, q, 256 * r + v % 256);
  }

  lemma Powers()
    ensures Power256(4) == 0x1_0000_0000 && Power256(8) == 0x1_0000_0000_0000_0000
  {
    assert Power256(4) == 0x1_0000_0000;
  }

  /**
   Padding: the message, 0x80, the fewest zero bytes, and the length in bits modulo 2^64, low-order
   byte first, make whole blocks.
   */
  lemma PadExactly(m: seq<Byte>)
    ensures
      var p, n := Pad(m), |m|;
      && |p| % 64 == 0 && n + 9 <= |p| < n + 73
      && p[..n] == m && p[n] == 0x80 && (forall i | n < i < |p| - 8 :: p[i] == 0)
      && LittleValue(p[|p| - 8..]) == 8 * n % 0x1_0000_0000_0000_0000
  {
    hide LittleEndian, LittleValue, Power256;
    Powers();
    LittleReads(8 * |m|, 8);
    var p, z := Pad(m), Zeros(ZeroCount(|m|));
    assert p[|p| - 8..] == LittleEndian(8 * |m|, 8);
    forall i | |m| < i < |p| - 8 ensures p[i] == 0 {
      assert p[i] == z[i - |m| - 1];
    }
  }

  lemma {:induction false} FoldConcat(state: seq<Word>, m: seq<Byte>, b: seq<Byte>)
    requires |state| == 4 && |m| % 64 == 0 && |b| % 64 == 0
    ensures Fold(state, m + b) == Fold(Fold(state, m), b)
    decreases |m|
  {
    if m == [] {
      assert m + b == b;
    } else {
      hide Compress;
      BlockOff(|m|);
      BlocksSum(|m|, |b|);
      assert (m + b)[..64] == m[..64] && (m + b)[64..] == m[64..] + b;
      FoldConcat(Compress(state, m[..64]), m[64..], b);
    }
  }

  lemma BlocksSum(n: nat, k: nat)
    requires n % 64 == 0 && k % 64 == 0
    ensures (n + k) % 64 == 0
  {
  }

  lemma FoldBlock(state: seq<Word>, m: seq<Byte>, b: seq<Byte>)
    requires |state| == 4 && |m| % 64 == 0 && |b| == 64
    ensures Fold(state, m + b) == Compress(Fold(state, m), b)
  {
    hide Compress;
    BlockOff(|b|);
    FoldConcat(state, m, b);
    assert b[..64] == b && b[64..] == [];
  }

  /** The 64-bit length is its two 32-bit halves, low-order half first. */
  lemma LengthHalves(v: nat)
    ensures LittleEndian(v, 8) == EncodeWords([v % 0x1_0000_0000, v / 0x1_0000_0000 % 0x1_0000_0000])
  {
    var lo: Word, hi: Word := v % 0x1_0000_0000, v / 0x1_0000_0000 % 0x1_0000_0000;
    EightBytes(v);
    LittleEndianMod(v, v / 0x1_0000_0000, lo);
    LittleEndianMod(v / 0x1_0000_0000, v / 0x1_0000_0000 / 0x1_0000_0000, hi);
    var ws: seq<Word> := [lo, hi];
    assert ws[1..] == [hi] && ws[1..][1..] == [];
    assert EncodeWords(ws[1..]) == LittleEndian(hi, 4) + EncodeWords([]);
  }

  lemma EightBytes(v: nat)
    ensures LittleEndian(v, 8) == LittleEndian(v, 4) + LittleEndian(v / 0x1_0000_0000, 4)
  {
    FourBytes(v);
    assert v / 256 / 256 == v / 0x1_0000;
    assert v / 0x1_0000 / 256 == v / 0x100_0000;
    assert v / 0x100_0000 / 256 == v / 0x1_0000_0000;
    assert LittleEndian(v, 8) == [v % 256] + LittleEndian(v / 256, 7);
    assert LittleEndian(v / 256, 7) == [v / 256 % 256] + LittleEndian(v / 0x1_0000, 6);
    assert LittleEndian(v / 0x1_0000, 6) == [v / 0x1_0000 % 256] + LittleEndian(v / 0x100_0000, 5);
    assert LittleEndian(v / 0x100_0000, 5) == [v / 0x100_0000 % 256] + LittleEndian(v / 0x1_0000_0000, 4);
  }

  lemma LittleEndianMod(v: nat, q: nat, r: Word)
    requires v == 0x1_0000_0000 * q + r
    ensures LittleEndian(v, 4) == LittleEndian(r, 4)
  {
    var v1, v2, v3 := v / 256, v / 256 / 256, v / 256 / 256 / 256;
    var r1, r2, r3 := r / 256, r / 256 / 256, r / 256 / 256 / 256;
    PeelByte(v, 0x100_0000 * q, r);
    PeelByte(v1, 0x1_0000 * q, r1);
    PeelByte(v2, 0x100 * q, r2);
    PeelByte(v3, q, r3);
    assert LittleEndian(v3, 1) == [v3 % 256] && LittleEndian(r3, 1) == [r3 % 256];
    assert LittleEndian(v2, 2) == [v2 % 256] + LittleEndian(v3, 1);
    assert LittleEndian(r2, 2) == [r2 % 256] + LittleEndian(r3, 1);
    assert LittleEndian(v1, 3) == [v1 % 256] + LittleEndian(v2, 2);
    assert LittleEndian(r1, 3) == [r1 % 256] + LittleEndian(r2, 2);
  }

  lemma PeelByte(v: nat, m: nat, r: nat)
    requires v == 256 * m + r
    ensures v % 256 == r % 256 && v / 256 == m + r / 256
  {
  }
}
