/** The streaming MD5 of src/md5.c, proved against the one-shot definition in Md5Spec. */
module Md5 {
  import opened Md5Spec
  import opened Texts

  // ----- the four step macros of the unrolled transform

  function FF(a: Word, b: Word, c: Word, d: Word, x: Word, s: bv32, ac: Word): Word
    requires 0 < s < 32
  {
    Mix(a, b, F(b, c, d), x, s, ac)
  }

  function GG(a: Word, b: Word, c: Word, d: Word, x: Word, s: bv32, ac: Word): Word
    requires 0 < s < 32
  {
    Mix(a, b, G(b, c, d), x, s, ac)
  }

  function HH(a: Word, b: Word, c: Word, d: Word, x: Word, s: bv32, ac: Word): Word
    requires 0 < s < 32
  {
    Mix(a, b, H(b, c, d), x, s, ac)
  }

  function II(a: Word, b: Word, c: Word, d: Word, x: Word, s: bv32, ac: Word): Word
    requires 0 < s < 32
  {
    Mix(a, b, I(b, c, d), x, s, ac)
  }

  /** Four rotating steps bring the registers back into place. */
  lemma FourSteps(r0: Regs, x: seq<Word>, n: nat)
    requires |x| == 16 && n + 4 <= 64
    ensures
      var r := Rounds(r0, x, n);
      var a := Mix(r.a, r.b, Fun(n, r.b, r.c, r.d), x[Index(n)], Shift(n), T(n));
      var d := Mix(r.d, a, Fun(n + 1, a, r.b, r.c), x[Index(n + 1)], Shift(n + 1), T(n + 1));
      var c := Mix(r.c, d, Fun(n + 2, d, a, r.b), x[Index(n + 2)], Shift(n + 2), T(n + 2));
      var b := Mix(r.b, c, Fun(n + 3, c, d, a), x[Index(n + 3)], Shift(n + 3), T(n + 3));
      Rounds(r0, x, n + 4) == Regs(a, b, c, d)
  {
    hide Mix, Fun, Index, Shift, T;
    assert Rounds(r0, x, n + 1) == StepAt(Rounds(r0, x, n), x, n);
    assert Rounds(r0, x, n + 2) == StepAt(Rounds(r0, x, n + 1), x, n + 1);
    assert Rounds(r0, x, n + 3) == StepAt(Rounds(r0, x, n + 2), x, n + 2);
  }

  // ----- the tables, read off at the literal step numbers of the unrolled code

  lemma Constants1()
    ensures T(0) == 0xd76aa478 && T(1) == 0xe8c7b756 && T(2) == 0x242070db && T(3) == 0xc1bdceee
    ensures T(4) == 0xf57c0faf && T(5) == 0x4787c62a && T(6) == 0xa8304613 && T(7) == 0xfd469501
    ensures T(8) == 0x698098d8 && T(9) == 0x8b44f7af && T(10) == 0xffff5bb1 && T(11) == 0x895cd7be
    ensures T(12) == 0x6b901122 && T(13) == 0xfd987193 && T(14) == 0xa679438e && T(15) == 0x49b40821
  {
  }

  lemma Schedule1()
    ensures Shift(0) == 7 && Shift(1) == 12 && Shift(2) == 17 && Shift(3) == 22
    ensures Shift(4) == 7 && Shift(5) == 12 && Shift(6) == 17 && Shift(7) == 22
    ensures Shift(8) == 7 && Shift(9) == 12 && Shift(10) == 17 && Shift(11) == 22
    ensures Shift(12) == 7 && Shift(13) == 12 && Shift(14) == 17 && Shift(15) == 22
    ensures Index(0) == 0 && Index(1) == 1 && Index(2) == 2 && Index(3) == 3
    ensures Index(4) == 4 && Index(5) == 5 && Index(6) == 6 && Index(7) == 7
    ensures Index(8) == 8 && Index(9) == 9 && Index(10) == 10 && Index(11) == 11
    ensures Index(12) == 12 && Index(13) == 13 && Index(14) == 14 && Index(15) == 15
  {
  }

  lemma Constants2()
    ensures T(16) == 0xf61e2562 && T(17) == 0xc040b340 && T(18) == 0x265e5a51 && T(19) == 0xe9b6c7aa
    ensures T(20) == 0xd62f105d && T(21) == 0x02441453 && T(22) == 0xd8a1e681 && T(23) == 0xe7d3fbc8
    ensures T(24) == 0x21e1cde6 && T(25) == 0xc33707d6 && T(26) == 0xf4d50d87 && T(27) == 0x455a14ed
    ensures T(28) == 0xa9e3e905 && T(29) == 0xfcefa3f8 && T(30) == 0x676f02d9 && T(31) == 0x8d2a4c8a
  {
  }

  lemma Schedule2()
    ensures Shift(16) == 5 && Shift(17) == 9 && Shift(18) == 14 && Shift(19) == 20
    ensures Shift(20) == 5 && Shift(21) == 9 && Shift(22) == 14 && Shift(23) == 20
    ensures Shift(24) == 5 && Shift(25) == 9 && Shift(26) == 14 && Shift(27) == 20
    ensures Shift(28) == 5 && Shift(29) == 9 && Shift(30) == 14 && Shift(31) == 20
    ensures Index(16) == 1 && Index(17) == 6 && Index(18) == 11 && Index(19) == 0
    ensures Index(20) == 5 && Index(21) == 10 && Index(22) == 15 && Index(23) == 4
    ensures Index(24) == 9 && Index(25) == 14 && Index(26) == 3 && Index(27) == 8
    ensures Index(28) == 13 && Index(29) == 2 && Index(30) == 7 && Index(31) == 12
  {
  }

  lemma Constants3()
    ensures T(32) == 0xfffa3942 && T(33) == 0x8771f681 && T(34) == 0x6d9d6122 && T(35) == 0xfde5380c
    ensures T(36) == 0xa4beea44 && T(37) == 0x4bdecfa9 && T(38) == 0xf6bb4b60 && T(39) == 0xbebfbc70
    ensures T(40) == 0x289b7ec6 && T(41) == 0xeaa127fa && T(42) == 0xd4ef3085 && T(43) == 0x04881d05
    ensures T(44) == 0xd9d4d039 && T(45) == 0xe6db99e5 && T(46) == 0x1fa27cf8 && T(47) == 0xc4ac5665
  {
  }

  lemma Schedule3()
    ensures Shift(32) == 4 && Shift(33) == 11 && Shift(34) == 16 && Shift(35) == 23
    ensures Shift(36) == 4 && Shift(37) == 11 && Shift(38) == 16 && Shift(39) == 23
    ensures Shift(40) == 4 && Shift(41) == 11 && Shift(42) == 16 && Shift(43) == 23
    ensures Shift(44) == 4 && Shift(45) == 11 && Shift(46) == 16 && Shift(47) == 23
    ensures Index(32) == 5 && Index(33) == 8 && Index(34) == 11 && Index(35) == 14
    ensures Index(36) == 1 && Index(37) == 4 && Index(38) == 7 && Index(39) == 10
    ensures Index(40) == 13 && Index(41) == 0 && Index(42) == 3 && Index(43) == 6
    ensures Index(44) == 9 && Index(45) == 12 && Index(46) == 15 && Index(47) == 2
  {
  }

  lemma Constants4()
    ensures T(48) == 0xf4292244 && T(49) == 0x432aff97 && T(50) == 0xab9423a7 && T(51) == 0xfc93a039
    ensures T(52) == 0x655b59c3 && T(53) == 0x8f0ccc92 && T(54) == 0xffeff47d && T(55) == 0x85845dd1
    ensures T(56) == 0x6fa87e4f && T(57) == 0xfe2ce6e0 && T(58) == 0xa3014314 && T(59) == 0x4e0811a1
    ensures T(60) == 0xf7537e82 && T(61) == 0xbd3af235 && T(62) == 0x2ad7d2bb && T(63) == 0xeb86d391
  {
  }

  lemma Schedule4()
    ensures Shift(48) == 6 && Shift(49) == 10 && Shift(50) == 15 && Shift(51) == 21
    ensures Shift(52) == 6 && Shift(53) == 10 && Shift(54) == 15 && Shift(55) == 21
    ensures Shift(56) == 6 && Shift(57) == 10 && Shift(58) == 15 && Shift(59) == 21
    ensures Shift(60) == 6 && Shift(61) == 10 && Shift(62) == 15 && Shift(63) == 21
    ensures Index(48) == 0 && Index(49) == 7 && Index(50) == 14 && Index(51) == 5
    ensures Index(52) == 12 && Index(53) == 3 && Index(54) == 10 && Index(55) == 1
    ensures Index(56) == 8 && Index(57) == 15 && Index(58) == 6 && Index(59) == 13
    ensures Index(60) == 4 && Index(61) == 11 && Index(62) == 2 && Index(63) == 9
  {
  }

  // ----- the unrolled transform

  /** Steps 1 to 16. */
  method Round1(a0: Word, b0: Word, c0: Word, d0: Word, x: seq<Word>, ghost r0: Regs)
    returns (a: Word, b: Word, c: Word, d: Word)
    requires |x| == 16 && Rounds(r0, x, 0) == Regs(a0, b0, c0, d0)
    ensures Rounds(r0, x, 16) == Regs(a, b, c, d)
  {
    hide Mix, Rounds, F, G, H, I, T, Shift, Index;
    Constants1();
    Schedule1();
    a, b, c, d := a0, b0, c0, d0;
    FourSteps(r0, x, 0);
    a := FF(a, b, c, d, x[0], 7, 0xd76aa478);
    d := FF(d, a, b, c, x[1], 12, 0xe8c7b756);
    c := FF(c, d, a, b, x[2], 17, 0x242070db);
    b := FF(b, c, d, a, x[3], 22, 0xc1bdceee);
    FourSteps(r0, x, 4);
    a := FF(a, b, c, d, x[4], 7, 0xf57c0faf);
    d := FF(d, a, b, c, x[5], 12, 0x4787c62a);
    c := FF(c, d, a, b, x[6], 17, 0xa8304613);
    b := FF(b, c, d, a, x[7], 22, 0xfd469501);
    FourSteps(r0, x, 8);
    a := FF(a, b, c, d, x[8], 7, 0x698098d8);
    d := FF(d, a, b, c, x[9], 12, 0x8b44f7af);
    c := FF(c, d, a, b, x[10], 17, 0xffff5bb1);
    b := FF(b, c, d, a, x[11], 22, 0x895cd7be);
    FourSteps(r0, x, 12);
    a := FF(a, b, c, d, x[12], 7, 0x6b901122);
    d := FF(d, a, b, c, x[13], 12, 0xfd987193);
    c := FF(c, d, a, b, x[14], 17, 0xa679438e);
    b := FF(b, c, d, a, x[15], 22, 0x49b40821);
  }

  /** Steps 17 to 32. */
  method Round2(a0: Word, b0: Word, c0: Word, d0: Word, x: seq<Word>, ghost r0: Regs)
    returns (a: Word, b: Word, c: Word, d: Word)
    requires |x| == 16 && Rounds(r0, x, 16) == Regs(a0, b0, c0, d0)
    ensures Rounds(r0, x, 32) == Regs(a, b, c, d)
  {
    hide Mix, Rounds, F, G, H, I, T, Shift, Index;
    Constants2();
    Schedule2();
    a, b, c, d := a0, b0, c0, d0;
    FourSteps(r0, x, 16);
    a := GG(a, b, c, d, x[1], 5, 0xf61e2562);
    d := GG(d, a, b, c, x[6], 9, 0xc040b340);
    c := GG(c, d, a, b, x[11], 14, 0x265e5a51);
    b := GG(b, c, d, a, x[0], 20, 0xe9b6c7aa);
    FourSteps(r0, x, 20);
    a := GG(a, b, c, d, x[5], 5, 0xd62f105d);
    d := GG(d, a, b, c, x[10], 9, 0x02441453);
    c := GG(c, d, a, b, x[15], 14, 0xd8a1e681);
    b := GG(b, c, d, a, x[4], 20, 0xe7d3fbc8);
    FourSteps(r0, x, 24);
    a := GG(a, b, c, d, x[9], 5, 0x21e1cde6);
    d := GG(d, a, b, c, x[14], 9, 0xc33707d6);
    c := GG(c, d, a, b, x[3], 14, 0xf4d50d87);
    b := GG(b, c, d, a, x[8], 20, 0x455a14ed);
    FourSteps(r0, x, 28);
    a := GG(a, b, c, d, x[13], 5, 0xa9e3e905);
    d := GG(d, a, b, c, x[2], 9, 0xfcefa3f8);
    c := GG(c, d, a, b, x[7], 14, 0x676f02d9);
    b := GG(b, c, d, a, x[12], 20, 0x8d2a4c8a);
  }

  /** Steps 33 to 48. */
  method Round3(a0: Word, b0: Word, c0: Word, d0: Word, x: seq<Word>, ghost r0: Regs)
    returns (a: Word, b: Word, c: Word, d: Word)
    requires |x| == 16 && Rounds(r0, x, 32) == Regs(a0, b0, c0, d0)
    ensures Rounds(r0, x, 48) == Regs(a, b, c, d)
  {
    hide Mix, Rounds, F, G, H, I, T, Shift, Index;
    Constants3();
    Schedule3();
    a, b, c, d := a0, b0, c0, d0;
    FourSteps(r0, x, 32);
    a := HH(a, b, c, d, x[5], 4, 0xfffa3942);
    d := HH(d, a, b, c, x[8], 11, 0x8771f681);
    c := HH(c, d, a, b, x[11], 16, 0x6d9d6122);
    b := HH(b, c, d, a, x[14], 23, 0xfde5380c);
    FourSteps(r0, x, 36);
    a := HH(a, b, c, d, x[1], 4, 0xa4beea44);
    d := HH(d, a, b, c, x[4], 11, 0x4bdecfa9);
    c := HH(c, d, a, b, x[7], 16, 0xf6bb4b60);
    b := HH(b, c, d, a, x[10], 23, 0xbebfbc70);
    FourSteps(r0, x, 40);
    a := HH(a, b, c, d, x[13], 4, 0x289b7ec6);
    d := HH(d, a, b, c, x[0], 11, 0xeaa127fa);
    c := HH(c, d, a, b, x[3], 16, 0xd4ef3085);
    b := HH(b, c, d, a, x[6], 23, 0x04881d05);
    FourSteps(r0, x, 44);
    a := HH(a, b, c, d, x[9], 4, 0xd9d4d039);
    d := HH(d, a, b, c, x[12], 11, 0xe6db99e5);
    c := HH(c, d, a, b, x[15], 16, 0x1fa27cf8);
    b := HH(b, c, d, a, x[2], 23, 0xc4ac5665);
  }

  /** Steps 49 to 64. */
  method Round4(a0: Word, b0: Word, c0: Word, d0: Word, x: seq<Word>, ghost r0: Regs)
    returns (a: Word, b: Word, c: Word, d: Word)
    requires |x| == 16 && Rounds(r0, x, 48) == Regs(a0, b0, c0, d0)
    ensures Rounds(r0, x, 64) == Regs(a, b, c, d)
  {
    hide Mix, Rounds, F, G, H, I, T, Shift, Index;
    Constants4();
    Schedule4();
    a, b, c, d := a0, b0, c0, d0;
    FourSteps(r0, x, 48);
    a := II(a, b, c, d, x[0], 6, 0xf4292244);
    d := II(d, a, b, c, x[7], 10, 0x432aff97);
    c := II(c, d, a, b, x[14], 15, 0xab9423a7);
    b := II(b, c, d, a, x[5], 21, 0xfc93a039);
    FourSteps(r0, x, 52);
    a := II(a, b, c, d, x[12], 6, 0x655b59c3);
    d := II(d, a, b, c, x[3], 10, 0x8f0ccc92);
    c := II(c, d, a, b, x[10], 15, 0xffeff47d);
    b := II(b, c, d, a, x[1], 21, 0x85845dd1);
    FourSteps(r0, x, 56);
    a := II(a, b, c, d, x[8], 6, 0x6fa87e4f);
    d := II(d, a, b, c, x[15], 10, 0xfe2ce6e0);
    c := II(c, d, a, b, x[6], 15, 0xa3014314);
    b := II(b, c, d, a, x[13], 21, 0x4e0811a1);
    FourSteps(r0, x, 60);
    a := II(a, b, c, d, x[4], 6, 0xf7537e82);
    d := II(d, a, b, c, x[11], 10, 0xbd3af235);
    c := II(c, d, a, b, x[2], 15, 0x2ad7d2bb);
    b := II(b, c, d, a, x[9], 21, 0xeb86d391);
  }

  // ----- bytes and words

  lemma EncodeAppend(ws: seq<Word>, w: Word)
    ensures EncodeWords(ws + [w]) == EncodeWords(ws) + LittleEndian(w, 4)
  {
    hide LittleEndian, EncodeWords;
    EncodeConcat(ws, [w]);
    EncodeCons(w, []);
    assert [w] + [] == [w];
  }

  lemma {:induction false} DecodeAppend(b: seq<Byte>, c: seq<Byte>)
    requires |b| % 4 == 0 && |c| == 4
    ensures DecodeWords(b + c) == DecodeWords(b) + [FromBytes(c)]
    decreases |b|
  {
    if b == [] {
      assert b + c == c && c[4..] == [] && c[..4] == c;
    } else {
      assert (b + c)[..4] == b[..4] && (b + c)[4..] == b[4..] + c;
      DecodeAppend(b[4..], c);
    }
  }

  lemma EncodeNone()
    ensures EncodeWords([]) == []
  {
  }

  /** md5_encode: `len` words, each low-order byte first. */
  method Encode(output: array<Byte>, input: seq<Word>, len: nat)
    requires len == |input| && output.Length >= 4 * len
    modifies output
    ensures output[..4 * len] == EncodeWords(input)
    ensures output[4 * len..] == old(output[4 * len..])
  {
    hide EncodeWords, LittleEndian;
    var i, j := 0, 0;
    EncodeNone();
    while i < len
      invariant 0 <= i <= len && j == 4 * i
      invariant output[..j] == EncodeWords(input[..i])
      invariant output[4 * len..] == old(output[4 * len..])
    {
      FourBytes(input[i]);
      EncodeAppend(input[..i], input[i]);
      assert input[..i + 1] == input[..i] + [input[i]];
      output[j] := input[i] % 256;
      output[j + 1] := input[i] / 256 % 256;
      output[j + 2] := input[i] / 0x1_0000 % 256;
      output[j + 3] := input[i] / 0x100_0000 % 256;
      assert output[..j + 4] == output[..j] + LittleEndian(input[i], 4);
      i, j := i + 1, j + 4;
    }
    assert input[..i] == input;
  }

  /** md5_decode: the four shifted bytes of a word do not overlap, so or-ing them is adding them. */
  method Decode(output: array<Word>, input: seq<Byte>, len: nat)
    requires |input| == 4 * len && output.Length == len
    modifies output
    ensures output[..] == DecodeWords(input)
  {
    var i, j := 0, 0;
    while i < len
      invariant 0 <= i <= len && j == 4 * i
      invariant output[..i] == DecodeWords(input[..j])
    {
      DecodeAppend(input[..j], input[j..j + 4]);
      assert input[..j + 4] == input[..j] + input[j..j + 4];
      var b0: nat, b1: nat, b2: nat, b3: nat := input[j], input[j + 1], input[j + 2], input[j + 3];
      output[i] := b0 + b1 * 0x100 + b2 * 0x1_0000 + b3 * 0x100_0000;
      i, j := i + 1, j + 4;
    }
    assert input[..j] == input && output[..i] == output[..];
  }

  // ----- the streaming context

  /** `md5_update` may be given `leng` bytes with `indx` pending without its loop index wrapping. */
  predicate NoWrap(indx: nat, leng: nat) {
    indx == 0 || indx + leng < 0x1_0000_0000
  }

  ghost function Whole(m: seq<Byte>): (w: seq<Byte>)
    ensures |w| % 64 == 0
  {
    m[..|m| - |m| % 64]
  }

  /** The buffer starts with what `m` has beyond whole blocks. */
  ghost predicate Saved(buffer: seq<Byte>, m: seq<Byte>) {
    |buffer| == 64 && buffer[..|m| % 64] == m[|m| - |m| % 64..]
  }

  /** The two count words hold the bit length of `n` bytes modulo 2^64. */
  ghost predicate CountsAre(c0: Word, c1: Word, n: nat) {
    c0 == 8 * n % 0x1_0000_0000 && c1 == 8 * n / 0x1_0000_0000 % 0x1_0000_0000
  }

  class Md5Ctx {
    const state: array<Word>
    const count: array<Word>
    const buffer: array<Byte>
    ghost var msg: seq<Byte>  // everything given to Update since the context was initialised

    ghost predicate Shape() {
      state.Length == 4 && count.Length == 2 && buffer.Length == 64 && state != count
    }

    ghost predicate Valid()
      reads this, state, count, buffer
    {
      && Shape()
      && state[..] == Fold(INIT, Whole(msg))
      && Saved(buffer[..], msg)
      && CountsAre(count[0], count[1], |msg|)
    }

    constructor ()
      ensures Valid() && msg == []
      ensures fresh(state) && fresh(count) && fresh(buffer)
    {
      state := new Word[4][0x67452301, 0xefcdab89, 0x98badcfe, 0x10325476];
      count := new Word[2][0, 0];
      buffer := new Byte[64](_ => 0);
      msg := [];
    }

    /** md5_transform on this context's state. */
    method Transform(block: seq<Byte>)
      requires Shape() && |block| == 64
      modifies state
      ensures state[..] == Compress(old(state[..]), block)
    {
      hide Compress, Rounds, DecodeWords, Plus;
      var a, b, c, d := Unrolled(state[..], block);
      CompressIs(state[..], block);
      state[0] := Plus(state[0], a);
      state[1] := Plus(state[1], b);
      state[2] := Plus(state[2], c);
      state[3] := Plus(state[3], d);
    }

    /** The two count words after `leng` more bytes, with the carry the C code takes. */
    method AddLength(leng: nat)
      requires Valid() && leng < 0x1_0000_0000
      modifies count
      ensures CountsAre(count[0], count[1], |msg| + leng)
    {
      hide Fold, Whole, CountsAre, Plus, Saved;
      var low: Word := 8 * leng % 0x1_0000_0000;
      CountStep(|msg|, leng, count[0], count[1]);
      count[0] := Plus(count[0], low);
      if count[0] < low {
        count[1] := Plus(count[1], 1);
      }
      count[1] := Plus(count[1], leng / 0x2000_0000);
    }

    method Update(buff: seq<Byte>)
      requires Valid() && |buff| < 0x1_0000_0000 && NoWrap(|msg| % 64, |buff|)
      modifies this, state, count, buffer
      ensures Valid() && msg == old(msg) + buff
    {
      hide Fold, Whole, Consumed, NoWrap, CountsAre, Saved;
      var leng := |buff|;
      var indx := count[0] / 8 % 64;
      IndexIs(count[0], count[1], |msg|);
      AddLength(leng);
      var i := Blocks(buff, indx);
      Keep(buff, i, indx);
      msg := msg + buff;
    }

    /** Save what is left of `buff` for the next block. */
    method Keep(buff: seq<Byte>, i: nat, indx: nat)
      requires Shape() && indx == |msg| % 64 && Consumed(|msg|, |buff|, i)
      requires i == 0 ==> Saved(buffer[..], msg)
      modifies buffer
      ensures Saved(buffer[..], msg + buff)
    {
      Remainder(msg, buff, i);
      var to := if i > 0 then 0 else indx;
      CopyIn(to, buff[i..]);
      assert buffer[..to + |buff[i..]|] == buffer[..to] + buff[i..];
    }

    /** memcpy into the buffer. */
    method CopyIn(indx: nat, src: seq<Byte>)
      requires buffer.Length == 64 && indx + |src| <= 64
      modifies buffer
      ensures buffer[..indx] == old(buffer[..indx])
      ensures buffer[indx..indx + |src|] == src
    {
      forall k | 0 <= k < |src| {
        buffer[indx + k] := src[k];
      }
    }

    /** Compress every block that `buff` completes; returns how much of `buff` that used. */
    method Blocks(buff: seq<Byte>, indx: nat) returns (i: nat)
      requires Shape() && |buff| < 0x1_0000_0000 && indx == |msg| % 64 && NoWrap(indx, |buff|)
      requires state[..] == Fold(INIT, Whole(msg))
      requires Saved(buffer[..], msg)
      modifies state, buffer
      ensures Consumed(|msg|, |buff|, i)
      ensures state[..] == Fold(INIT, Whole(msg + buff))
      ensures i == 0 ==> Saved(buffer[..], msg)
    {
      hide Fold, Compress, Whole, NoWrap, Consumed;
      var leng := |buff|;
      var partleng := 64 - indx;
      if leng >= partleng {
        CopyIn(indx, buff[..partleng]);
        FirstBlock(msg, buff);
        assert buffer[..] == msg[|msg| - indx..] + buff[..partleng];
        Transform(buffer[..]);
        i := WholeBlocks(buff, partleng);
      } else {
        i := 0;
        NoBlock(msg, buff);
      }
    }

    /** The block loop of md5_update, with its 32-bit test. */
    method WholeBlocks(buff: seq<Byte>, partleng: nat) returns (i: nat)
      requires Shape() && |buff| < 0x1_0000_0000 && NoWrap(|msg| % 64, |buff|)
      requires partleng == 64 - |msg| % 64 <= |buff| && OnBlock(|msg|, partleng)
      requires state[..] == Fold(INIT, (msg + buff)[..|msg| + partleng])
      modifies state
      ensures Consumed(|msg|, |buff|, i) && i > 0
      ensures state[..] == Fold(INIT, Whole(msg + buff))
    {
      hide Fold, Compress, Whole, NoWrap, Consumed;
      var leng := |buff|;
      i := partleng;
      while (i + 63) % 0x1_0000_0000 < leng
        invariant partleng <= i <= leng && OnBlock(|msg|, i)
        invariant state[..] == Fold(INIT, (msg + buff)[..|msg| + i])
        decreases leng - i
      {
        NoWrapAt(|msg|, leng, i);
        NextBlock(msg, buff, i);
        Transform(buff[i..i + 64]);
        i := i + 64;
      }
      NoWrapAt(|msg|, leng, i);
      LastBlock(msg, buff, i);
    }

    /** md5_final: pad, append the length taken before padding, encode the state, wipe the context. */
    method Final(digest: array<Byte>)
      requires Valid() && digest.Length == 16 && digest != buffer
      modifies this, state, count, buffer, digest
      ensures digest[..] == Md5Spec.MessageDigest(old(msg))
      ensures Shape() && state[..] == [0, 0, 0, 0] && count[..] == [0, 0] && buffer[..] == Zeros(64)
    {
      hide Fold, Whole, Pad, Md5Spec.MessageDigest, CountsAre, Saved;
      var bits := new Byte[8];
      ghost var m := msg;
      Encode(bits, count[..], 2);
      BitsAre(count[0], count[1], |m|);
      assert count[..] == [count[0], count[1]];
      var indx := count[0] / 8 % 64;
      IndexIs(count[0], count[1], |m|);
      var padleng := if indx < 56 then 56 - indx else 120 - indx;
      PaddingFits(|m|, padleng);
      Update(([0x80] + Zeros(63))[..padleng]);
      Update(bits[..]);
      PadIs(m, padleng, bits[..]);
      Encode(digest, state[..], 4);
      Wipe();
    }

    method Wipe()
      requires Shape()
      modifies state, count, buffer
      ensures state[..] == [0, 0, 0, 0] && count[..] == [0, 0] && buffer[..] == Zeros(64)
    {
      state[0], state[1], state[2], state[3] := 0, 0, 0, 0;
      count[0], count[1] := 0, 0;
      forall k | 0 <= k < 64 {
        buffer[k] := 0;
      }
    }
  }

  /** A digest is the same however the message is cut into updates (as MD5_UPDATE_STRING sequences do). */
  method DigestOf(chunks: seq<seq<Byte>>) returns (digest: seq<Byte>)
    requires forall k | 0 <= k < |chunks| :: |chunks[k]| <= 0xffff_ffc0
    ensures digest == Md5Spec.MessageDigest(Concat(chunks))
  {
    hide Md5Spec.MessageDigest, Fold, Whole, CountsAre, Concat, Zeros, NoWrap, Saved;
    var ctx := new Md5Ctx();
    var k := 0;
    ghost var m: seq<Byte> := [];
    ConcatNone(chunks);
    while k < |chunks|
      invariant 0 <= k <= |chunks| && m == Concat(chunks[..k])
      invariant ctx.Valid() && ctx.msg == m
      invariant fresh(ctx) && fresh(ctx.state) && fresh(ctx.count) && fresh(ctx.buffer)
    {
      ConcatStep(chunks, k);
      ChunkFits(|ctx.msg|, |chunks[k]|);
      ctx.Update(chunks[k]);
      m, k := m + chunks[k], k + 1;
    }
    assert chunks[..k] == chunks;
    var out := new Byte[16];
    ctx.Final(out);
    digest := out[..];
  }

  lemma ChunkFits(n: nat, leng: nat)
    requires leng <= 0xffff_ffc0
    ensures NoWrap(n % 64, leng)
  {
  }

  lemma ConcatNone(chunks: seq<seq<Byte>>)
    ensures Concat(chunks[..0]) == []
  {
  }

  lemma ConcatStep(chunks: seq<seq<Byte>>, k: nat)
    requires k < |chunks|
    ensures Concat(chunks[..k + 1]) == Concat(chunks[..k]) + chunks[k]
  {
    assert chunks[..k + 1][..k] == chunks[..k];
  }

  // ----- facts about md5_final

  lemma BitsAre(c0: Word, c1: Word, n: nat)
    requires CountsAre(c0, c1, n)
    ensures EncodeWords([c0, c1]) == LittleEndian(8 * n, 8)
  {
    LengthHalves(8 * n);
  }

  /** Padding is 1 to 64 bytes, brings the length to 56 modulo 64, and needs no wrap check. */
  lemma PaddingFits(n: nat, padleng: nat)
    requires padleng == (if n % 64 < 56 then 56 - n % 64 else 120 - n % 64)
    ensures 1 <= padleng <= 64 && padleng == 1 + ZeroCount(n)
    ensures (n + padleng) % 64 == 56
    ensures NoWrap(n % 64, padleng) && NoWrap((n + padleng) % 64, 8)
  {
  }

  /** The two final updates turn the message into its padded form, which ends on a block boundary. */
  lemma PadIs(m: seq<Byte>, padleng: nat, bits: seq<Byte>)
    requires padleng == 1 + ZeroCount(|m|) && bits == LittleEndian(8 * |m|, 8)
    ensures
      var p := m + ([0x80] + Zeros(63))[..padleng] + bits;
      p == Pad(m) && Whole(p) == p
    ensures EncodeWords(Fold(INIT, Pad(m))) == Md5Spec.MessageDigest(m)
  {
    hide Fold, LittleEndian, Zeros, ZeroCount, Whole;
    PaddingPrefix(ZeroCount(|m|));
    Assoc(m, [0x80], Zeros(ZeroCount(|m|)), bits);
    WholeAll(Pad(m));
  }

  lemma Assoc(a: seq<Byte>, b: seq<Byte>, c: seq<Byte>, d: seq<Byte>)
    ensures a + (b + c) + d == a + b + c + d
  {
    assert a + (b + c) == a + b + c;
  }

  lemma PaddingPrefix(z: nat)
    requires z < 64
    ensures ([0x80] + Zeros(63))[..1 + z] == [0x80] + Zeros(z)
  {
  }

  lemma WholeAll(p: seq<Byte>)
    requires |p| % 64 == 0
    ensures Whole(p) == p
  {
  }

  // ----- facts about the update arithmetic

  lemma IndexIs(c0: Word, c1: Word, n: nat)
    requires CountsAre(c0, c1, n)
    ensures c0 / 8 % 64 == n % 64
  {
    EighthOf(n);
    var q := n / 0x2000_0000;
    var r := n - 0x2000_0000 * q;
    assert c0 == 8 * r;
    SixtyFourths(n, 0x80_0000 * q, r);
  }

  lemma SixtyFourths(n: nat, k: nat, r: nat)
    requires n == 64 * k + r
    ensures n % 64 == r % 64
  {
  }

  /** Adding a length with an end-around test for the carry is addition modulo 2^64. */
  lemma CountStep(n: nat, leng: nat, c0: Word, c1: Word)
    requires leng < 0x1_0000_0000
    requires CountsAre(c0, c1, n)
    ensures
      var low: Word := 8 * leng % 0x1_0000_0000;
      var d0 := Plus(c0, low);
      CountsAre(d0, Plus(if d0 < low then Plus(c1, 1) else c1, leng / 0x2000_0000), n + leng)
  {
    var low, high := 8 * leng % 0x1_0000_0000, leng / 0x2000_0000;
    var q := 8 * n / 0x1_0000_0000;
    var carry := if c0 + low >= 0x1_0000_0000 then 1 else 0;
    var d0 := Plus(c0, low);
    EighthOf(leng);
    PlusCarry(c0, low);
    DivModUnique32(8 * (n + leng), q + high + carry, d0);
    ModPlus(q, carry);
    ModPlus(q + carry, high);
  }

  lemma EighthOf(leng: nat)
    ensures 8 * leng == 0x1_0000_0000 * (leng / 0x2000_0000) + 8 * leng % 0x1_0000_0000
  {
    var q, r := leng / 0x2000_0000, leng % 0x2000_0000;
    DivModUnique32(8 * leng, q, 8 * r);
  }

  lemma PlusCarry(x: Word, y: Word)
    ensures
      var carry := if x + y >= 0x1_0000_0000 then 1 else 0;
      Plus(x, y) + 0x1_0000_0000 * carry == x as nat + y as nat && (Plus(x, y) < y <==> carry == 1)
  {
  }

  lemma DivModUnique32(a: nat, q: nat, r: nat)
    requires a == 0x1_0000_0000 * q + r && r < 0x1_0000_0000
    ensures a / 0x1_0000_0000 == q && a % 0x1_0000_0000 == r
  {
  }

  lemma ModPlus(q: nat, y: Word)
    ensures Plus(q % 0x1_0000_0000, y) == (q + y) % 0x1_0000_0000
  {
  }

  /** `i` bytes after a message of `n` end on a block boundary. */
  ghost predicate OnBlock(n: nat, i: nat) {
    (n + i) % 64 == 0
  }

  /** How much of `leng` new bytes completes blocks when `n` bytes came before. */
  ghost predicate Consumed(n: nat, leng: nat, i: nat) {
    if leng >= 64 - n % 64 then 0 < i <= leng && (n + i) % 64 == 0 && leng - i < 64 else i == 0
  }

  /** Under NoWrap the 32-bit loop test is the test on natural numbers. */
  lemma NoWrapAt(n: nat, leng: nat, i: nat)
    requires leng < 0x1_0000_0000 && NoWrap(n % 64, leng) && i <= leng && OnBlock(n, i)
    ensures (i + 63) % 0x1_0000_0000 < leng <==> i + 63 < leng
    ensures i + 63 < 0x1_0000_0000
  {
    var indx := n % 64;
    assert (indx + i) % 64 == 0;
    var q := (indx + i) / 64;
    assert indx + i == 64 * q;
  }

  /**
   The test goes wrong on some block boundary exactly when NoWrap fails: it then accepts a block
   that is not there.
   */
  lemma WrapExactly(indx: nat, leng: nat)
    requires indx < 64 && leng < 0x1_0000_0000
    ensures NoWrap(indx, leng) <==> forall i: nat | i <= leng :: TestHolds(indx, leng, i)
  {
    if NoWrap(indx, leng) {
      forall i: nat | i <= leng ensures TestHolds(indx, leng, i) {
        if (indx + i) % 64 == 0 {
          NoWrapAt(indx, leng, i);
        }
      }
    } else {
      var i := 0x1_0000_0000 - indx;
      assert indx + i == 64 * 0x400_0000;
      assert (i + 63) % 0x1_0000_0000 == 63 - indx;
      assert !TestHolds(indx, leng, i);
    }
  }

  /** If `i` is a block boundary and the 32-bit test takes another block, that block is there. */
  ghost predicate TestHolds(indx: nat, leng: nat, i: nat) {
    (indx + i) % 64 == 0 && (i + 63) % 0x1_0000_0000 < leng ==> i + 63 < leng
  }

  // ----- the block loop as the 32-bit machine runs it

  /** The loop's test. */
  ghost predicate TakesBlock(leng: nat, i: nat) {
    (i + 63) % 0x1_0000_0000 < leng
  }

  /** The loop's index after `k` turns. */
  ghost function Turn(indx: nat, k: nat): nat
    requires indx < 64
  {
    if k == 0 then 64 - indx else (Turn(indx, k - 1) + 64) % 0x1_0000_0000
  }

  /** Until it wraps, the index after `m - 1` turns ends the `m`th block. */
  lemma {:induction false} TurnAt(indx: nat, m: nat)
    requires indx < 64 && m > 0 && 64 * m - indx < 0x1_0000_0000
    ensures Turn(indx, m - 1) == 64 * m - indx
  {
    if m > 1 {
      TurnAt(indx, m - 1);
    }
  }

  lemma {:induction false} TurnOnBlock(indx: nat, k: nat)
    requires 0 < indx < 64
    ensures 0 < Turn(indx, k) <= 0x1_0000_0000 - indx && (indx + Turn(indx, k)) % 64 == 0
  {
    if k > 0 {
      TurnOnBlock(indx, k - 1);
      NextOnBlock(indx, Turn(indx, k - 1));
    }
  }

  lemma NextOnBlock(indx: nat, i: nat)
    requires 0 < indx < 64 && 0 < i <= 0x1_0000_0000 - indx && (indx + i) % 64 == 0
    ensures
      var j := (i + 64) % 0x1_0000_0000;
      0 < j <= 0x1_0000_0000 - indx && (indx + j) % 64 == 0
    ensures i <= 0x1_0000_0000 - indx - 64 || (i + 64) % 0x1_0000_0000 == 64 - indx
  {
    var q := (indx + i) / 64;
    assert indx + i == 64 * q;
    if q == 0x400_0000 {
      assert i + 64 == 0x1_0000_0000 + (64 - indx);
    }
  }

  lemma TakesAlways(indx: nat, leng: nat, i: nat)
    requires indx < 64 && leng < 0x1_0000_0000 && !NoWrap(indx, leng)
    requires 0 < i <= 0x1_0000_0000 - indx && (indx + i) % 64 == 0
    ensures TakesBlock(leng, i)
  {
    NextOnBlock(indx, i);
    if i > 0x1_0000_0000 - indx - 64 {
      var q := (indx + i) / 64;
      assert indx + i == 64 * q;
      assert i == 0x1_0000_0000 - indx;
    }
  }

  /**
   The loop of md5_update ends exactly under NoWrap. Otherwise it takes a block that is not
   there, and its index comes back to where it started.
   */
  lemma UpdateEndsExactly(indx: nat, leng: nat)
    requires indx < 64 && 64 - indx <= leng < 0x1_0000_0000
    ensures NoWrap(indx, leng) <==> exists k: nat :: !TakesBlock(leng, Turn(indx, k))
    ensures !NoWrap(indx, leng) ==>
              exists k: nat :: leng < Turn(indx, k) + 64 && TakesBlock(leng, Turn(indx, k))
                               && Turn(indx, k + 1) == Turn(indx, 0)
  {
    if NoWrap(indx, leng) {
      var m := (leng + indx) / 64;
      TurnAt(indx, m);
      NoWrapAt(indx, leng, Turn(indx, m - 1));
      assert !TakesBlock(leng, Turn(indx, m - 1));
    } else {
      forall k: nat ensures TakesBlock(leng, Turn(indx, k)) {
        TurnOnBlock(indx, k);
        TakesAlways(indx, leng, Turn(indx, k));
      }
      ComesBack(indx, 0x400_0000);
    }
  }

  lemma ComesBack(indx: nat, m: nat)
    requires 0 < indx < 64 && m == 0x400_0000
    ensures Turn(indx, m - 1) == 0x1_0000_0000 - indx && Turn(indx, m) == Turn(indx, 0)
  {
    TurnAt(indx, m);
  }

  lemma FirstBlock(m: seq<Byte>, buff: seq<Byte>)
    requires |buff| >= 64 - |m| % 64
    ensures
      var part := 64 - |m| % 64;
      var b := m[|m| - |m| % 64..] + buff[..part];
      && |b| == 64 && OnBlock(|m|, part)
      && Fold(INIT, (m + buff)[..|m| + part]) == Compress(Fold(INIT, Whole(m)), b)
  {
    hide Compress, Fold;
    var part := 64 - |m| % 64;
    var b := m[|m| - |m| % 64..] + buff[..part];
    assert (m + buff)[..|m| + part] == Whole(m) + b;
    FoldBlock(INIT, Whole(m), b);
  }

  lemma NextBlock(m: seq<Byte>, buff: seq<Byte>, i: nat)
    requires i + 64 <= |buff| && OnBlock(|m|, i)
    ensures OnBlock(|m|, i + 64)
    ensures Fold(INIT, (m + buff)[..|m| + (i + 64)]) == Compress(Fold(INIT, (m + buff)[..|m| + i]), buff[i..i + 64])
  {
    hide Compress, Fold;
    assert (m + buff)[..|m| + (i + 64)] == (m + buff)[..|m| + i] + buff[i..i + 64];
    FoldBlock(INIT, (m + buff)[..|m| + i], buff[i..i + 64]);
  }

  lemma LastBlock(m: seq<Byte>, buff: seq<Byte>, i: nat)
    requires 0 < i <= |buff| < i + 64 && OnBlock(|m|, i)
    ensures Consumed(|m|, |buff|, i)
    ensures (m + buff)[..|m| + i] == Whole(m + buff)
  {
    assert (|m| + |buff|) % 64 == |buff| - i;
  }

  lemma NoBlock(m: seq<Byte>, buff: seq<Byte>)
    requires |buff| < 64 - |m| % 64
    ensures Whole(m + buff) == Whole(m) && Consumed(|m|, |buff|, 0)
  {
    assert (|m| + |buff|) % 64 == |m| % 64 + |buff|;
  }

  /** What is left for the buffer. */
  lemma Remainder(m: seq<Byte>, buff: seq<Byte>, i: nat)
    requires Consumed(|m|, |buff|, i)
    ensures
      var s := m + buff;
      var r := |s| % 64;
      && (i > 0 ==> r == |buff| - i && s[|s| - r..] == buff[i..])
      && (i == 0 ==> r == |m| % 64 + |buff| && s[|s| - r..] == m[|m| - |m| % 64..] + buff)
  {
    hide Consumed;
    LeftOver(|m|, |buff|, i);
  }

  lemma LeftOver(n: nat, leng: nat, i: nat)
    requires Consumed(n, leng, i)
    ensures i <= leng && (n + leng) % 64 == if i > 0 then leng - i else n % 64 + leng
  {
  }

  /** The 64 unrolled steps of md5_transform. */
  method Unrolled(s: seq<Word>, block: seq<Byte>) returns (a: Word, b: Word, c: Word, d: Word)
    requires |s| == 4 && |block| == 64
    ensures Regs(a, b, c, d) == Rounds(Regs(s[0], s[1], s[2], s[3]), DecodeWords(block), 64)
  {
    hide Rounds, DecodeWords;
    var x := new Word[16];
    Decode(x, block, 16);
    ghost var r0 := Regs(s[0], s[1], s[2], s[3]);
    RoundsStart(r0, x[..]);
    a, b, c, d := Round1(s[0], s[1], s[2], s[3], x[..], r0);
    a, b, c, d := Round2(a, b, c, d, x[..], r0);
    a, b, c, d := Round3(a, b, c, d, x[..], r0);
    a, b, c, d := Round4(a, b, c, d, x[..], r0);
  }

  lemma RoundsStart(r: Regs, x: seq<Word>)
    requires |x| == 16
    ensures Rounds(r, x, 0) == r
  {
  }

  lemma CompressIs(s: seq<Word>, block: seq<Byte>)
    requires |s| == 4 && |block| == 64
    ensures
      var r := Rounds(Regs(s[0], s[1], s[2], s[3]), DecodeWords(block), 64);
      Compress(s, block) == [Plus(s[0], r.a), Plus(s[1], r.b), Plus(s[2], r.c), Plus(s[3], r.d)]
  {
    hide Rounds, DecodeWords, Plus;
  }
}
