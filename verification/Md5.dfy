/** Streaming MD5: a context that takes its input in pieces of any size. */
module Md5 {
  import opened Bytes
  import R = Rfc1321

  type Word = R.Word

  function F(x: Word, y: Word, z: Word): Word { z ^ (x & (y ^ z)) }
  function G(x: Word, y: Word, z: Word): Word { y ^ (z & (x ^ y)) }
  function H(x: Word, y: Word, z: Word): Word { (x ^ y) ^ z }
  function H2(x: Word, y: Word, z: Word): Word { x ^ (y ^ z) }
  function I(x: Word, y: Word, z: Word): Word { y ^ (x | !z) }

  /** The rotation inside the STEP macro. */
  function Rotate(x: Word, s: Word): Word
    requires 0 < s < 32
  {
    (x << s) | ((x & 0xffffffff) >> (32 - s))
  }

  /** The first and the last line of the STEP macro, f being the value of the round function. */
  function Mix(a: Word, f: Word, x: Word, t: Word): Word { a + (f + x + t) }
  function Add(a: Word, b: Word): Word { a + b }

  // ---- the macros compute the functions of the standard ----

  lemma SelectsByMask(x: Word, y: Word, z: Word)
    ensures z ^ (x & (y ^ z)) == (x & y) | (!x & z)
  {
  }

  lemma FIsStandard(x: Word, y: Word, z: Word)
    ensures F(x, y, z) == R.F(x, y, z)
  {
    calc { F(x, y, z); z ^ (x & (y ^ z)); { SelectsByMask(x, y, z); } (x & y) | (!x & z); R.F(x, y, z); }
  }

  lemma GIsStandard(x: Word, y: Word, z: Word)
    ensures G(x, y, z) == R.G(x, y, z)
  {
    calc { G(x, y, z); y ^ (z & (x ^ y)); { SelectsByMask(z, x, y); } (z & x) | (!z & y); R.G(x, y, z); }
  }

  lemma HIsStandard(x: Word, y: Word, z: Word)
    ensures H(x, y, z) == H2(x, y, z) == R.H(x, y, z)
  {
  }

  lemma IIsStandard(x: Word, y: Word, z: Word)
    ensures I(x, y, z) == R.I(x, y, z)
  {
  }

  lemma Rotations(x: Word)
    ensures Rotate(x, 7) == R.RotateLeft(x, 7)
    ensures Rotate(x, 12) == R.RotateLeft(x, 12)
    ensures Rotate(x, 17) == R.RotateLeft(x, 17)
    ensures Rotate(x, 22) == R.RotateLeft(x, 22)
    ensures Rotate(x, 5) == R.RotateLeft(x, 5)
    ensures Rotate(x, 9) == R.RotateLeft(x, 9)
    ensures Rotate(x, 14) == R.RotateLeft(x, 14)
    ensures Rotate(x, 20) == R.RotateLeft(x, 20)
    ensures Rotate(x, 4) == R.RotateLeft(x, 4)
    ensures Rotate(x, 11) == R.RotateLeft(x, 11)
    ensures Rotate(x, 16) == R.RotateLeft(x, 16)
    ensures Rotate(x, 23) == R.RotateLeft(x, 23)
    ensures Rotate(x, 6) == R.RotateLeft(x, 6)
    ensures Rotate(x, 10) == R.RotateLeft(x, 10)
    ensures Rotate(x, 15) == R.RotateLeft(x, 15)
    ensures Rotate(x, 21) == R.RotateLeft(x, 21)
  {
  }

  lemma RotationAt(x: Word, s: Word, i: nat)
    requires i < 64 && s == R.S(i)
    ensures Rotate(x, s) == R.RotateLeft(x, s)
  {
    hide Rotate, R.RotateLeft;
    Rotations(x);
  }

  lemma MixIsStandard(a: Word, f: Word, x: Word, t: Word)
    ensures Mix(a, f, x, t) == R.Sum(a, f, x, t)
  {
  }

  lemma AddIsStandard(b: Word, y: Word)
    ensures Add(y, b) == R.Plus(b, y)
  {
  }

  lemma StepIsStandard(a: Word, b: Word, f: Word, x: Word, t: Word, s: Word, i: nat)
    requires i < 64 && s == R.S(i)
    ensures Add(Rotate(Mix(a, f, x, t), s), b) == R.NewA(a, b, f, x, t, s)
  {
    hide Rotate, Add, Mix, R.RotateLeft, R.S, R.Sum, R.Plus;
    MixIsStandard(a, f, x, t);
    RotationAt(R.Sum(a, f, x, t), s, i);
    AddIsStandard(b, Rotate(Mix(a, f, x, t), s));
  }

  lemma NextOperation(i: nat, start: R.State, words: seq<Word>, a: Word, b: Word, c: Word, d: Word)
    requires i < 64 && |words| == 16
    requires R.Ops(i, start, words) == R.State.State(a, b, c, d)
    ensures R.Ops(i + 1, start, words) ==
            R.State.State(d, R.NewA(a, b, R.Aux(i, b, c, d), words[R.K(i)], R.T(i), R.S(i)), b, c)
  {
    hide R.NewA, R.K, R.Aux, R.T, R.S;
  }

  /** The STEP macro with f the value of the round function; it is operation i of the standard. */
  method Step(f: Word, a: Word, b: Word, c: Word, d: Word, x: Word, t: Word, s: Word,
              ghost i: nat, ghost start: R.State, ghost words: seq<Word>) returns (r: Word)
    requires i < 64 && |words| == 16
    requires R.Ops(i, start, words) == R.State.State(a, b, c, d)
    requires f == R.Aux(i, b, c, d) && x == words[R.K(i)] && t == R.T(i) && s == R.S(i)
    ensures R.Ops(i + 1, start, words) == R.State.State(d, r, b, c)
  {
    hide *;
    StepIsStandard(a, b, f, x, t, s, i);
    NextOperation(i, start, words, a, b, c, d);
    r := Mix(a, f, x, t);
    r := Rotate(r, s);
    r := Add(r, b);
  }

  // The macro for each of the round functions
  method StepF(a: Word, b: Word, c: Word, d: Word, x: Word, t: Word, s: Word,
                ghost i: nat, ghost start: R.State, ghost words: seq<Word>) returns (r: Word)
    requires i < 16 && |words| == 16
    requires R.Ops(i, start, words) == R.State.State(a, b, c, d)
    requires x == words[R.K(i)] && t == R.T(i) && s == R.S(i)
    ensures R.Ops(i + 1, start, words) == R.State.State(d, r, b, c)
  {
    hide R.Ops, R.K, R.T, R.S, F, G, H, H2, I, R.F, R.G, R.H, R.I;
    FIsStandard(b, c, d);
    r := Step(F(b, c, d), a, b, c, d, x, t, s, i, start, words);
  }

  method StepG(a: Word, b: Word, c: Word, d: Word, x: Word, t: Word, s: Word,
                ghost i: nat, ghost start: R.State, ghost words: seq<Word>) returns (r: Word)
    requires 16 <= i < 32 && |words| == 16
    requires R.Ops(i, start, words) == R.State.State(a, b, c, d)
    requires x == words[R.K(i)] && t == R.T(i) && s == R.S(i)
    ensures R.Ops(i + 1, start, words) == R.State.State(d, r, b, c)
  {
    hide R.Ops, R.K, R.T, R.S, F, G, H, H2, I, R.F, R.G, R.H, R.I;
    GIsStandard(b, c, d);
    r := Step(G(b, c, d), a, b, c, d, x, t, s, i, start, words);
  }

  method StepH(a: Word, b: Word, c: Word, d: Word, x: Word, t: Word, s: Word,
                ghost i: nat, ghost start: R.State, ghost words: seq<Word>) returns (r: Word)
    requires 32 <= i < 48 && |words| == 16
    requires R.Ops(i, start, words) == R.State.State(a, b, c, d)
    requires x == words[R.K(i)] && t == R.T(i) && s == R.S(i)
    ensures R.Ops(i + 1, start, words) == R.State.State(d, r, b, c)
  {
    hide R.Ops, R.K, R.T, R.S, F, G, H, H2, I, R.F, R.G, R.H, R.I;
    HIsStandard(b, c, d);
    r := Step(H(b, c, d), a, b, c, d, x, t, s, i, start, words);
  }

  method StepH2(a: Word, b: Word, c: Word, d: Word, x: Word, t: Word, s: Word,
                ghost i: nat, ghost start: R.State, ghost words: seq<Word>) returns (r: Word)
    requires 32 <= i < 48 && |words| == 16
    requires R.Ops(i, start, words) == R.State.State(a, b, c, d)
    requires x == words[R.K(i)] && t == R.T(i) && s == R.S(i)
    ensures R.Ops(i + 1, start, words) == R.State.State(d, r, b, c)
  {
    hide R.Ops, R.K, R.T, R.S, F, G, H, H2, I, R.F, R.G, R.H, R.I;
    HIsStandard(b, c, d);
    r := Step(H2(b, c, d), a, b, c, d, x, t, s, i, start, words);
  }

  method StepI(a: Word, b: Word, c: Word, d: Word, x: Word, t: Word, s: Word,
                ghost i: nat, ghost start: R.State, ghost words: seq<Word>) returns (r: Word)
    requires 48 <= i < 64 && |words| == 16
    requires R.Ops(i, start, words) == R.State.State(a, b, c, d)
    requires x == words[R.K(i)] && t == R.T(i) && s == R.S(i)
    ensures R.Ops(i + 1, start, words) == R.State.State(d, r, b, c)
  {
    hide R.Ops, R.K, R.T, R.S, F, G, H, H2, I, R.F, R.G, R.H, R.I;
    IIsStandard(b, c, d);
    r := Step(I(b, c, d), a, b, c, d, x, t, s, i, start, words);
  }

  /** Four octets as a word, by shifting. */
  function LoadWord(b0: byte, b1: byte, b2: byte, b3: byte): Word
  {
    (b0 as bv32) | ((b1 as bv32) << 8) | ((b2 as bv32) << 16) | ((b3 as bv32) << 24)
  }

  lemma LoadIsStandard(b0: byte, b1: byte, b2: byte, b3: byte)
    ensures LoadWord(b0, b1, b2, b3) == R.WordOf(b0, b1, b2, b3)
  {
  }

  // What the standard's table says of each operation
  lemma Round1Table()
    ensures R.K(0) == 0 && R.T(0) == 0xd76aa478 && R.S(0) == 7
    ensures R.K(1) == 1 && R.T(1) == 0xe8c7b756 && R.S(1) == 12
    ensures R.K(2) == 2 && R.T(2) == 0x242070db && R.S(2) == 17
    ensures R.K(3) == 3 && R.T(3) == 0xc1bdceee && R.S(3) == 22
    ensures R.K(4) == 4 && R.T(4) == 0xf57c0faf && R.S(4) == 7
    ensures R.K(5) == 5 && R.T(5) == 0x4787c62a && R.S(5) == 12
    ensures R.K(6) == 6 && R.T(6) == 0xa8304613 && R.S(6) == 17
    ensures R.K(7) == 7 && R.T(7) == 0xfd469501 && R.S(7) == 22
    ensures R.K(8) == 8 && R.T(8) == 0x698098d8 && R.S(8) == 7
    ensures R.K(9) == 9 && R.T(9) == 0x8b44f7af && R.S(9) == 12
    ensures R.K(10) == 10 && R.T(10) == 0xffff5bb1 && R.S(10) == 17
    ensures R.K(11) == 11 && R.T(11) == 0x895cd7be && R.S(11) == 22
    ensures R.K(12) == 12 && R.T(12) == 0x6b901122 && R.S(12) == 7
    ensures R.K(13) == 13 && R.T(13) == 0xfd987193 && R.S(13) == 12
    ensures R.K(14) == 14 && R.T(14) == 0xa679438e && R.S(14) == 17
    ensures R.K(15) == 15 && R.T(15) == 0x49b40821 && R.S(15) == 22
  {
  }

  lemma Round2Table()
    ensures R.K(16) == 1 && R.T(16) == 0xf61e2562 && R.S(16) == 5
    ensures R.K(17) == 6 && R.T(17) == 0xc040b340 && R.S(17) == 9
    ensures R.K(18) == 11 && R.T(18) == 0x265e5a51 && R.S(18) == 14
    ensures R.K(19) == 0 && R.T(19) == 0xe9b6c7aa && R.S(19) == 20
    ensures R.K(20) == 5 && R.T(20) == 0xd62f105d && R.S(20) == 5
    ensures R.K(21) == 10 && R.T(21) == 0x02441453 && R.S(21) == 9
    ensures R.K(22) == 15 && R.T(22) == 0xd8a1e681 && R.S(22) == 14
    ensures R.K(23) == 4 && R.T(23) == 0xe7d3fbc8 && R.S(23) == 20
    ensures R.K(24) == 9 && R.T(24) == 0x21e1cde6 && R.S(24) == 5
    ensures R.K(25) == 14 && R.T(25) == 0xc33707d6 && R.S(25) == 9
    ensures R.K(26) == 3 && R.T(26) == 0xf4d50d87 && R.S(26) == 14
    ensures R.K(27) == 8 && R.T(27) == 0x455a14ed && R.S(27) == 20
    ensures R.K(28) == 13 && R.T(28) == 0xa9e3e905 && R.S(28) == 5
    ensures R.K(29) == 2 && R.T(29) == 0xfcefa3f8 && R.S(29) == 9
    ensures R.K(30) == 7 && R.T(30) == 0x676f02d9 && R.S(30) == 14
    ensures R.K(31) == 12 && R.T(31) == 0x8d2a4c8a && R.S(31) == 20
  {
  }

  lemma Round3Table()
    ensures R.K(32) == 5 && R.T(32) == 0xfffa3942 && R.S(32) == 4
    ensures R.K(33) == 8 && R.T(33) == 0x8771f681 && R.S(33) == 11
    ensures R.K(34) == 11 && R.T(34) == 0x6d9d6122 && R.S(34) == 16
    ensures R.K(35) == 14 && R.T(35) == 0xfde5380c && R.S(35) == 23
    ensures R.K(36) == 1 && R.T(36) == 0xa4beea44 && R.S(36) == 4
    ensures R.K(37) == 4 && R.T(37) == 0x4bdecfa9 && R.S(37) == 11
    ensures R.K(38) == 7 && R.T(38) == 0xf6bb4b60 && R.S(38) == 16
    ensures R.K(39) == 10 && R.T(39) == 0xbebfbc70 && R.S(39) == 23
    ensures R.K(40) == 13 && R.T(40) == 0x289b7ec6 && R.S(40) == 4
    ensures R.K(41) == 0 && R.T(41) == 0xeaa127fa && R.S(41) == 11
    ensures R.K(42) == 3 && R.T(42) == 0xd4ef3085 && R.S(42) == 16
    ensures R.K(43) == 6 && R.T(43) == 0x04881d05 && R.S(43) == 23
    ensures R.K(44) == 9 && R.T(44) == 0xd9d4d039 && R.S(44) == 4
    ensures R.K(45) == 12 && R.T(45) == 0xe6db99e5 && R.S(45) == 11
    ensures R.K(46) == 15 && R.T(46) == 0x1fa27cf8 && R.S(46) == 16
    ensures R.K(47) == 2 && R.T(47) == 0xc4ac5665 && R.S(47) == 23
  {
  }

  lemma Round4Table()
    ensures R.K(48) == 0 && R.T(48) == 0xf4292244 && R.S(48) == 6
    ensures R.K(49) == 7 && R.T(49) == 0x432aff97 && R.S(49) == 10
    ensures R.K(50) == 14 && R.T(50) == 0xab9423a7 && R.S(50) == 15
    ensures R.K(51) == 5 && R.T(51) == 0xfc93a039 && R.S(51) == 21
    ensures R.K(52) == 12 && R.T(52) == 0x655b59c3 && R.S(52) == 6
    ensures R.K(53) == 3 && R.T(53) == 0x8f0ccc92 && R.S(53) == 10
    ensures R.K(54) == 10 && R.T(54) == 0xffeff47d && R.S(54) == 15
    ensures R.K(55) == 1 && R.T(55) == 0x85845dd1 && R.S(55) == 21
    ensures R.K(56) == 8 && R.T(56) == 0x6fa87e4f && R.S(56) == 6
    ensures R.K(57) == 15 && R.T(57) == 0xfe2ce6e0 && R.S(57) == 10
    ensures R.K(58) == 6 && R.T(58) == 0xa3014314 && R.S(58) == 15
    ensures R.K(59) == 13 && R.T(59) == 0x4e0811a1 && R.S(59) == 21
    ensures R.K(60) == 4 && R.T(60) == 0xf7537e82 && R.S(60) == 6
    ensures R.K(61) == 11 && R.T(61) == 0xbd3af235 && R.S(61) == 10
    ensures R.K(62) == 2 && R.T(62) == 0x2ad7d2bb && R.S(62) == 15
    ensures R.K(63) == 9 && R.T(63) == 0xeb86d391 && R.S(63) == 21
  {
  }

  /** What SET and GET read. */
  method Load(ptr: seq<byte>, n: nat) returns (x: Word)
    requires n < 16 && |ptr| == 64
    ensures x == R.Words(ptr)[n]
  {
    hide LoadWord, R.WordOf;
    LoadIsStandard(ptr[n * 4], ptr[n * 4 + 1], ptr[n * 4 + 2], ptr[n * 4 + 3]);
    x := LoadWord(ptr[n * 4], ptr[n * 4 + 1], ptr[n * 4 + 2], ptr[n * 4 + 3]);
  }

  method Round1(ghost start: R.State, ptr: seq<byte>, a0: Word, b0: Word, c0: Word, d0: Word)
      returns (a: Word, b: Word, c: Word, d: Word)
    requires |ptr| == 64
    requires R.State.State(a0, b0, c0, d0) == R.Ops(0, start, R.Words(ptr))
    ensures R.State.State(a, b, c, d) == R.Ops(16, start, R.Words(ptr))
  {
    hide *;
    Round1Table();
    ghost var words := R.Words(ptr);
    var x;
    a, b, c, d := a0, b0, c0, d0;
    x := Load(ptr, 0); a := StepF(a, b, c, d, x, 0xd76aa478, 7, 0, start, words);
    x := Load(ptr, 1); d := StepF(d, a, b, c, x, 0xe8c7b756, 12, 1, start, words);
    x := Load(ptr, 2); c := StepF(c, d, a, b, x, 0x242070db, 17, 2, start, words);
    x := Load(ptr, 3); b := StepF(b, c, d, a, x, 0xc1bdceee, 22, 3, start, words);
    x := Load(ptr, 4); a := StepF(a, b, c, d, x, 0xf57c0faf, 7, 4, start, words);
    x := Load(ptr, 5); d := StepF(d, a, b, c, x, 0x4787c62a, 12, 5, start, words);
    x := Load(ptr, 6); c := StepF(c, d, a, b, x, 0xa8304613, 17, 6, start, words);
    x := Load(ptr, 7); b := StepF(b, c, d, a, x, 0xfd469501, 22, 7, start, words);
    x := Load(ptr, 8); a := StepF(a, b, c, d, x, 0x698098d8, 7, 8, start, words);
    x := Load(ptr, 9); d := StepF(d, a, b, c, x, 0x8b44f7af, 12, 9, start, words);
    x := Load(ptr, 10); c := StepF(c, d, a, b, x, 0xffff5bb1, 17, 10, start, words);
    x := Load(ptr, 11); b := StepF(b, c, d, a, x, 0x895cd7be, 22, 11, start, words);
    x := Load(ptr, 12); a := StepF(a, b, c, d, x, 0x6b901122, 7, 12, start, words);
    x := Load(ptr, 13); d := StepF(d, a, b, c, x, 0xfd987193, 12, 13, start, words);
    x := Load(ptr, 14); c := StepF(c, d, a, b, x, 0xa679438e, 17, 14, start, words);
    x := Load(ptr, 15); b := StepF(b, c, d, a, x, 0x49b40821, 22, 15, start, words);
  }

  method Round2(ghost start: R.State, ptr: seq<byte>, a0: Word, b0: Word, c0: Word, d0: Word)
      returns (a: Word, b: Word, c: Word, d: Word)
    requires |ptr| == 64
    requires R.State.State(a0, b0, c0, d0) == R.Ops(16, start, R.Words(ptr))
    ensures R.State.State(a, b, c, d) == R.Ops(32, start, R.Words(ptr))
  {
    hide *;
    Round2Table();
    ghost var words := R.Words(ptr);
    var x;
    a, b, c, d := a0, b0, c0, d0;
    x := Load(ptr, 1); a := StepG(a, b, c, d, x, 0xf61e2562, 5, 16, start, words);
    x := Load(ptr, 6); d := StepG(d, a, b, c, x, 0xc040b340, 9, 17, start, words);
    x := Load(ptr, 11); c := StepG(c, d, a, b, x, 0x265e5a51, 14, 18, start, words);
    x := Load(ptr, 0); b := StepG(b, c, d, a, x, 0xe9b6c7aa, 20, 19, start, words);
    x := Load(ptr, 5); a := StepG(a, b, c, d, x, 0xd62f105d, 5, 20, start, words);
    x := Load(ptr, 10); d := StepG(d, a, b, c, x, 0x02441453, 9, 21, start, words);
    x := Load(ptr, 15); c := StepG(c, d, a, b, x, 0xd8a1e681, 14, 22, start, words);
    x := Load(ptr, 4); b := StepG(b, c, d, a, x, 0xe7d3fbc8, 20, 23, start, words);
    x := Load(ptr, 9); a := StepG(a, b, c, d, x, 0x21e1cde6, 5, 24, start, words);
    x := Load(ptr, 14); d := StepG(d, a, b, c, x, 0xc33707d6, 9, 25, start, words);
    x := Load(ptr, 3); c := StepG(c, d, a, b, x, 0xf4d50d87, 14, 26, start, words);
    x := Load(ptr, 8); b := StepG(b, c, d, a, x, 0x455a14ed, 20, 27, start, words);
    x := Load(ptr, 13); a := StepG(a, b, c, d, x, 0xa9e3e905, 5, 28, start, words);
    x := Load(ptr, 2); d := StepG(d, a, b, c, x, 0xfcefa3f8, 9, 29, start, words);
    x := Load(ptr, 7); c := StepG(c, d, a, b, x, 0x676f02d9, 14, 30, start, words);
    x := Load(ptr, 12); b := StepG(b, c, d, a, x, 0x8d2a4c8a, 20, 31, start, words);
  }

  method Round3(ghost start: R.State, ptr: seq<byte>, a0: Word, b0: Word, c0: Word, d0: Word)
      returns (a: Word, b: Word, c: Word, d: Word)
    requires |ptr| == 64
    requires R.State.State(a0, b0, c0, d0) == R.Ops(32, start, R.Words(ptr))
    ensures R.State.State(a, b, c, d) == R.Ops(48, start, R.Words(ptr))
  {
    hide *;
    Round3Table();
    ghost var words := R.Words(ptr);
    var x;
    a, b, c, d := a0, b0, c0, d0;
    x := Load(ptr, 5); a := StepH(a, b, c, d, x, 0xfffa3942, 4, 32, start, words);
    x := Load(ptr, 8); d := StepH2(d, a, b, c, x, 0x8771f681, 11, 33, start, words);
    x := Load(ptr, 11); c := StepH(c, d, a, b, x, 0x6d9d6122, 16, 34, start, words);
    x := Load(ptr, 14); b := StepH2(b, c, d, a, x, 0xfde5380c, 23, 35, start, words);
    x := Load(ptr, 1); a := StepH(a, b, c, d, x, 0xa4beea44, 4, 36, start, words);
    x := Load(ptr, 4); d := StepH2(d, a, b, c, x, 0x4bdecfa9, 11, 37, start, words);
    x := Load(ptr, 7); c := StepH(c, d, a, b, x, 0xf6bb4b60, 16, 38, start, words);
    x := Load(ptr, 10); b := StepH2(b, c, d, a, x, 0xbebfbc70, 23, 39, start, words);
    x := Load(ptr, 13); a := StepH(a, b, c, d, x, 0x289b7ec6, 4, 40, start, words);
    x := Load(ptr, 0); d := StepH2(d, a, b, c, x, 0xeaa127fa, 11, 41, start, words);
    x := Load(ptr, 3); c := StepH(c, d, a, b, x, 0xd4ef3085, 16, 42, start, words);
    x := Load(ptr, 6); b := StepH2(b, c, d, a, x, 0x04881d05, 23, 43, start, words);
    x := Load(ptr, 9); a := StepH(a, b, c, d, x, 0xd9d4d039, 4, 44, start, words);
    x := Load(ptr, 12); d := StepH2(d, a, b, c, x, 0xe6db99e5, 11, 45, start, words);
    x := Load(ptr, 15); c := StepH(c, d, a, b, x, 0x1fa27cf8, 16, 46, start, words);
    x := Load(ptr, 2); b := StepH2(b, c, d, a, x, 0xc4ac5665, 23, 47, start, words);
  }

  method Round4(ghost start: R.State, ptr: seq<byte>, a0: Word, b0: Word, c0: Word, d0: Word)
      returns (a: Word, b: Word, c: Word, d: Word)
    requires |ptr| == 64
    requires R.State.State(a0, b0, c0, d0) == R.Ops(48, start, R.Words(ptr))
    ensures R.State.State(a, b, c, d) == R.Ops(64, start, R.Words(ptr))
  {
    hide *;
    Round4Table();
    ghost var words := R.Words(ptr);
    var x;
    a, b, c, d := a0, b0, c0, d0;
    x := Load(ptr, 0); a := StepI(a, b, c, d, x, 0xf4292244, 6, 48, start, words);
    x := Load(ptr, 7); d := StepI(d, a, b, c, x, 0x432aff97, 10, 49, start, words);
    x := Load(ptr, 14); c := StepI(c, d, a, b, x, 0xab9423a7, 15, 50, start, words);
    x := Load(ptr, 5); b := StepI(b, c, d, a, x, 0xfc93a039, 21, 51, start, words);
    x := Load(ptr, 12); a := StepI(a, b, c, d, x, 0x655b59c3, 6, 52, start, words);
    x := Load(ptr, 3); d := StepI(d, a, b, c, x, 0x8f0ccc92, 10, 53, start, words);
    x := Load(ptr, 10); c := StepI(c, d, a, b, x, 0xffeff47d, 15, 54, start, words);
    x := Load(ptr, 1); b := StepI(b, c, d, a, x, 0x85845dd1, 21, 55, start, words);
    x := Load(ptr, 8); a := StepI(a, b, c, d, x, 0x6fa87e4f, 6, 56, start, words);
    x := Load(ptr, 15); d := StepI(d, a, b, c, x, 0xfe2ce6e0, 10, 57, start, words);
    x := Load(ptr, 6); c := StepI(c, d, a, b, x, 0xa3014314, 15, 58, start, words);
    x := Load(ptr, 13); b := StepI(b, c, d, a, x, 0x4e0811a1, 21, 59, start, words);
    x := Load(ptr, 4); a := StepI(a, b, c, d, x, 0xf7537e82, 6, 60, start, words);
    x := Load(ptr, 11); d := StepI(d, a, b, c, x, 0xbd3af235, 10, 61, start, words);
    x := Load(ptr, 2); c := StepI(c, d, a, b, x, 0x2ad7d2bb, 15, 62, start, words);
    x := Load(ptr, 9); b := StepI(b, c, d, a, x, 0xeb86d391, 21, 63, start, words);
  }

  lemma NoOperations(s: R.State, x: seq<Word>)
    requires |x| == 16
    ensures R.Ops(0, s, x) == s
  {
  }

  /** One turn of the loop in the block function. */
  method BodyOnce(ptr: seq<byte>, a0: Word, b0: Word, c0: Word, d0: Word)
      returns (a: Word, b: Word, c: Word, d: Word)
    requires |ptr| == 64
    ensures R.State.State(a, b, c, d) == R.Block(R.State.State(a0, b0, c0, d0), ptr)
  {
    hide *;
    ghost var start := R.State.State(a0, b0, c0, d0);
    NoOperations(start, R.Words(ptr));
    a, b, c, d := Round1(start, ptr, a0, b0, c0, d0);
    a, b, c, d := Round2(start, ptr, a, b, c, d);
    a, b, c, d := Round3(start, ptr, a, b, c, d);
    a, b, c, d := Round4(start, ptr, a, b, c, d);
    BlockIsStandard(start, ptr, a, b, c, d);
    a, b, c, d := Add(a, a0), Add(b, b0), Add(c, c0), Add(d, d0);
  }

  // ---- what the context has absorbed ----

  lemma NoBlocks(s: R.State, m: seq<byte>)
    ensures R.Blocks(s, m[..0]) == s
  {
  }

  /** The octets of m after its last whole block. */
  function Tail(m: seq<byte>): (t: seq<byte>)
    ensures |t| == |m| % 64
  {
    m[|m| - |m| % 64..]
  }

  lemma {:induction false} BlocksOfConcatenation(s: R.State, p: seq<byte>, q: seq<byte>)
    requires |p| % 64 == 0
    ensures R.Blocks(s, p + q) == R.Blocks(R.Blocks(s, p), q)
    decreases |p|
  {
    if p == [] {
      assert p + q == q;
    } else {
      assert (p + q)[..64] == p[..64] && (p + q)[64..] == p[64..] + q;
      BlocksOfConcatenation(R.Block(s, p[..64]), p[64..], q);
    }
  }

  lemma OneMoreBlock(s: R.State, m: seq<byte>, at: nat)
    requires at % 64 == 0 && at + 64 <= |m|
    ensures R.Blocks(s, m[..at + 64]) == R.Block(R.Blocks(s, m[..at]), m[at..at + 64])
  {
    var p, q := m[..at], m[at..at + 64];
    assert m[..at + 64] == p + q;
    BlocksOfConcatenation(s, p, q);
    assert q[..64] == q;
  }

  lemma TailOfConcatenation(p: seq<byte>, q: seq<byte>)
    requires |p| % 64 == 0
    ensures Tail(p + q) == Tail(q)
  {
    hide *;
    var r := |q| % 64;
    SameRemainder(|p|, |q|);
    SameEnd(p, q, r);
    TailIs(q, r);
    TailIs(p + q, r);
  }

  lemma SameRemainder(m: nat, n: nat)
    requires m % 64 == 0
    ensures (m + n) % 64 == n % 64
  {
  }

  lemma SameEnd(p: seq<byte>, q: seq<byte>, r: nat)
    requires r <= |q|
    ensures (p + q)[|p + q| - r..] == q[|q| - r..]
  {
  }

  lemma TailIs(m: seq<byte>, r: nat)
    requires r == |m| % 64
    ensures Tail(m) == m[|m| - r..]
  {
  }

  /** Only the whole blocks count. */
  lemma BlocksWithoutTail(s: R.State, m: seq<byte>)
    ensures R.Blocks(s, m[..|m| - |m| % 64]) == R.Blocks(s, m)
  {
    var p := m[..|m| - |m| % 64];
    assert m == p + Tail(m);
    BlocksOfConcatenation(s, p, Tail(m));
  }

  /** Feeding q after m: the octets held back come first. */
  lemma BlocksOfFeed(m: seq<byte>, q: seq<byte>)
    ensures R.Blocks(R.IV, m + q) == R.Blocks(R.Blocks(R.IV, m), Tail(m) + q)
    ensures Tail(m + q) == Tail(Tail(m) + q)
  {
    hide R.Blocks;
    var p, held := m[..|m| - |m| % 64], Tail(m) + q;
    assert m + q == p + held;
    BlocksOfConcatenation(R.IV, p, held);
    BlocksWithoutTail(R.IV, m);
    TailOfConcatenation(p, held);
  }

  lemma BlockIsStandard(s: R.State, m: seq<byte>, a: Word, b: Word, c: Word, d: Word)
    requires |m| == 64
    requires R.State.State(a, b, c, d) == R.Ops(64, s, R.Words(m))
    ensures R.Block(s, m) == R.State.State(Add(a, s.a), Add(b, s.b), Add(c, s.c), Add(d, s.d))
  {
    hide R.Ops, R.Words, R.Plus, Add;
    AddIsStandard(s.a, a);
    AddIsStandard(s.b, b);
    AddIsStandard(s.c, c);
    AddIsStandard(s.d, d);
  }

  lemma NothingComplete(s: R.State, m: seq<byte>)
    requires |m| < 64
    ensures R.Blocks(s, m) == s && Tail(m) == m
  {
  }

  /** The buffer is filled up to a block first. */
  lemma BlocksOfFilled(s: R.State, tail: seq<byte>, q: seq<byte>)
    requires 0 < |tail| < 64 <= |tail| + |q|
    ensures var n := 64 - |tail|;
            && R.Blocks(s, tail + q) == R.Blocks(R.Blocks(s, tail + q[..n]), q[n..])
            && Tail(tail + q) == Tail(q[n..])
  {
    hide *;
    var n := 64 - |tail|;
    Regroup(tail, q, n);
    BlocksOfConcatenation(s, tail + q[..n], q[n..]);
    TailOfConcatenation(tail + q[..n], q[n..]);
  }

  lemma Regroup(tail: seq<byte>, q: seq<byte>, n: nat)
    requires n <= |q|
    ensures tail + q == (tail + q[..n]) + q[n..]
  {
  }

  /** The 29-bit and the 32-bit counter together count octets modulo 2^61. */
  ghost predicate Counts(lo: nat, hi: nat, total: nat)
  {
    && lo < 0x2000_0000 && hi < 0x1_0000_0000
    && hi * 0x2000_0000 + lo == total % 0x2000_0000_0000_0000
  }

  lemma LowBitsCount(lo: nat, hi: nat, total: nat)
    requires Counts(lo, hi, total)
    ensures lo % 64 == total % 64
  {
    var t := CountedTurns(lo, hi, total);
    hide Counts;
    SameRemainder(64 * (t * 0x80_0000_0000_0000 + hi * 0x80_0000), lo);
  }

  lemma CountedTurns(lo: nat, hi: nat, total: nat) returns (t: nat)
    requires Counts(lo, hi, total)
    ensures total == t * 0x2000_0000_0000_0000 + hi * 0x2000_0000 + lo
  {
    t := total / 0x2000_0000_0000_0000;
  }

  lemma CounterCarries(lo: nat, hi: nat, total: nat, size: nat)
    requires Counts(lo, hi, total)
    ensures var lo' := (lo + size) % 0x2000_0000;
            var hi' := if lo' < lo then (hi + 1) % 0x1_0000_0000 else hi;
            Counts(lo', (hi' + size / 0x2000_0000) % 0x1_0000_0000, total + size)
  {
    var q, r := size / 0x2000_0000, size % 0x2000_0000;
    Carried(lo, hi, total, q, r);
  }

  lemma Carried(lo: nat, hi: nat, total: nat, q: nat, r: nat)
    requires Counts(lo, hi, total) && r < 0x2000_0000
    ensures var size := q * 0x2000_0000 + r;
            var lo' := (lo + size) % 0x2000_0000;
            var hi' := if lo' < lo then (hi + 1) % 0x1_0000_0000 else hi;
            Counts(lo', (hi' + q) % 0x1_0000_0000, total + size)
  {
    var t := CountedTurns(lo, hi, total);
    LowPart(lo, q, r);
    hide Counts;
    if lo + r < 0x2000_0000 {
      HighPart(hi + q, lo + r, t, total + q * 0x2000_0000 + r);
    } else {
      HighPart(hi + 1 + q, lo + r - 0x2000_0000, t, total + q * 0x2000_0000 + r);
      ReducedTwice(hi + 1, q);
    }
  }

  lemma LowPart(lo: nat, q: nat, r: nat)
    requires lo < 0x2000_0000 && r < 0x2000_0000
    ensures (lo + (q * 0x2000_0000 + r)) % 0x2000_0000 == if lo + r < 0x2000_0000 then lo + r else lo + r - 0x2000_0000
  {
  }

  lemma ReducedTwice(n: nat, q: nat)
    ensures (n % 0x1_0000_0000 + q) % 0x1_0000_0000 == (n + q) % 0x1_0000_0000
  {
  }

  lemma HighPart(h: nat, lo: nat, t: nat, n: nat)
    requires lo < 0x2000_0000 && n == t * 0x2000_0000_0000_0000 + h * 0x2000_0000 + lo
    ensures Counts(lo, h % 0x1_0000_0000, n)
  {
    var top, rest := h / 0x1_0000_0000, (h % 0x1_0000_0000) * 0x2000_0000 + lo;
    assert n == (t + top) * 0x2000_0000_0000_0000 + rest;
  }

  lemma Initially()
    ensures R.Blocks(R.IV, []) == R.State.State(0x67452301, 0xefcdab89, 0x98badcfe, 0x10325476)
    ensures Tail([]) == [] && Counts(0, 0, 0)
  {
    NothingComplete(R.IV, []);
    hide R.Blocks;
  }

  lemma FourOctets(n: nat)
    ensures LittleEndian(n, 4) ==
            [ByteOf(n % 256), ByteOf(n / 0x100 % 256), ByteOf(n / 0x1_0000 % 256), ByteOf(n / 0x100_0000 % 256)]
  {
    hide ByteOf;
    var m1, m2, m3 := n / 0x100, n / 0x1_0000, n / 0x100_0000;
    assert m1 / 256 == m2 && m2 / 256 == m3;
    assert LittleEndian(m3, 1) == [ByteOf(m3 % 256)];
    assert LittleEndian(m2, 2) == [ByteOf(m2 % 256)] + LittleEndian(m3, 1);
    assert LittleEndian(m1, 3) == [ByteOf(m1 % 256)] + LittleEndian(m2, 2);
  }

  /** What Final stores of the two counters. */
  function CountOctets(lo: nat, hi: nat): (s: seq<byte>)
    ensures |s| == 8
  {
    LittleEndian(lo * 8 % 0x1_0000_0000, 4) + LittleEndian(hi, 4)
  }

  /** The counters, shifted, are the two words of the bit count. */
  lemma BitCount(lo: nat, hi: nat, total: nat)
    requires Counts(lo, hi, total)
    ensures LittleEndian(8 * total, 8) == CountOctets(lo, hi)
  {
    hide LittleEndian, Power256;
    Powers();
    var t := total / 0x2000_0000_0000_0000;
    assert 8 * total == (lo * 8 + Power256(4) * hi) + Power256(8) * t;
    LittleEndianTruncates(lo * 8 + Power256(4) * hi, t, 8);
    LittleEndianOfSum(lo * 8, hi, 4, 4);
  }

  lemma PaddingAfterTail(fed: seq<byte>, lo: nat, hi: nat)
    requires Counts(lo, hi, |fed|)
    ensures R.Blocks(R.IV, R.Padded(fed)) ==
            R.Blocks(R.Blocks(R.IV, fed), Tail(fed) + [0x80] + R.Zeros(R.ZeroCount(|fed|)) + CountOctets(lo, hi))
  {
    var z, count := R.Zeros(R.ZeroCount(|fed|)), CountOctets(lo, hi);
    BitCount(lo, hi, |fed|);
    assert R.Padded(fed) == fed + [0x80] + z + count by {
      hide R.Zeros, R.ZeroCount, Counts, CountOctets, LittleEndian;
    }
    hide *;
    RegroupAppended(fed, [0x80], z, count);
    RegroupAppended(Tail(fed), [0x80], z, count);
    BlocksOfFeed(fed, [0x80] + z + count);
  }

  lemma RegroupAppended(a: seq<byte>, b: seq<byte>, c: seq<byte>, d: seq<byte>)
    ensures a + b + c + d == a + (b + c + d)
  {
  }

  lemma Room(fed: seq<byte>)
    ensures R.ZeroCount(|fed|) == if |Tail(fed)| < 56 then 55 - |Tail(fed)| else 119 - |Tail(fed)|
  {
  }

  lemma RegroupPadding(a: seq<byte>, b: seq<byte>, c: seq<byte>, d: seq<byte>)
    ensures a + (b + c) + d == (a + b) + (c + d)
  {
  }

  lemma ZerosSplit(m: nat, n: nat)
    ensures R.Zeros(m + n) == R.Zeros(m) + R.Zeros(n)
  {
  }

  lemma OneFinalBlock(fed: seq<byte>, lo: nat, hi: nat, start: seq<byte>)
    requires Counts(lo, hi, |fed|) && start == Tail(fed) + [0x80] && |start| <= 56
    ensures R.Blocks(R.IV, R.Padded(fed)) ==
            R.Blocks(R.Blocks(R.IV, fed), start + R.Zeros(56 - |start|) + CountOctets(lo, hi))
  {
    hide *;
    PaddingAfterTail(fed, lo, hi);
    Room(fed);
  }

  lemma TwoFinalBlocks(fed: seq<byte>, lo: nat, hi: nat, start: seq<byte>)
    requires Counts(lo, hi, |fed|) && start == Tail(fed) + [0x80] && |start| > 56
    ensures R.Blocks(R.IV, R.Padded(fed)) ==
            R.Blocks(R.Blocks(R.Blocks(R.IV, fed), start + R.Zeros(64 - |start|)), R.Zeros(56) + CountOctets(lo, hi))
  {
    hide *;
    PaddingAfterTail(fed, lo, hi);
    Room(fed);
    ZerosSplit(64 - |start|, 56);
    var p, q := start + R.Zeros(64 - |start|), R.Zeros(56) + CountOctets(lo, hi);
    RegroupPadding(start, R.Zeros(64 - |start|), R.Zeros(56), CountOctets(lo, hi));
    BlocksOfConcatenation(R.Blocks(R.IV, fed), p, q);
  }

  class Context {
    var lo: nat
    var hi: nat
    var a: Word
    var b: Word
    var c: Word
    var d: Word
    const buffer: array<byte>

    /** All octets fed since initialisation. */
    ghost var fed: seq<byte>

    ghost predicate Valid()
      reads this, buffer
    {
      && buffer.Length == 64
      && Counts(lo, hi, |fed|)
      && buffer[..lo % 64] == Tail(fed)
      && Registers() == R.Blocks(R.IV, fed)
    }

    ghost function Registers(): R.State
      reads this
    {
      R.State.State(a, b, c, d)
    }

    constructor ()
      ensures Valid() && fed == []
      ensures fresh(buffer)
    {
      Initially();
      hide R.Blocks, R.IV, Tail, Counts;
      buffer := new byte[64];
      a, b, c, d := 0x67452301, 0xefcdab89, 0x98badcfe, 0x10325476;
      lo, hi := 0, 0;
      fed := [];
    }

    /** Compresses one or more whole blocks; the length counter does not change. */
    method Body(data: seq<byte>, size: nat)
      requires 0 < size <= |data| && size % 64 == 0
      modifies `a, `b, `c, `d
      ensures Registers() == R.Blocks(old(Registers()), data[..size])
    {
      ghost var start := Registers();
      NoBlocks(start, data);
      hide R.Blocks, R.Block;
      var ptr, left := 0, size;
      var ra, rb, rc, rd := a, b, c, d;
      while true
        invariant ptr + left == size && 0 < left && ptr % 64 == left % 64 == 0
        invariant R.State.State(ra, rb, rc, rd) == R.Blocks(start, data[..ptr])
        decreases left
      {
        OneMoreBlock(start, data, ptr);
        ra, rb, rc, rd := BodyOnce(data[ptr..ptr + 64], ra, rb, rc, rd);
        ptr, left := ptr + 64, left - 64;
        if left == 0 { break; }
      }
      a, b, c, d := ra, rb, rc, rd;
    }

    /** memcpy into the buffer. */
    method Copy(at: nat, src: seq<byte>)
      requires at + |src| <= buffer.Length
      modifies buffer
      ensures buffer[..at + |src|] == old(buffer[..at]) + src
      ensures buffer[at + |src|..] == old(buffer[at + |src|..])
    {
      forall i | 0 <= i < |src| {
        buffer[at + i] := src[i];
      }
    }

    /** The counters after the octets of piece. */
    method Count(size: nat, ghost piece: seq<byte>)
      requires size == |piece| && Counts(lo, hi, |fed|)
      modifies `lo, `hi
      ensures Counts(lo, hi, |fed + piece|)
    {
      var savedLo := lo;
      CounterCarries(lo, hi, |fed|, size);
      lo := (savedLo + size) % 0x2000_0000;
      if lo < savedLo {
        hi := (hi + 1) % 0x1_0000_0000;
      }
      hi := (hi + size / 0x2000_0000) % 0x1_0000_0000;
      assert |fed + piece| == |fed| + size;
    }

    /** The low bits of the counter say how much the buffer holds. */
    lemma HeldBack()
      requires Counts(lo, hi, |fed|)
      ensures lo % 64 == |Tail(fed)|
    {
      LowBitsCount(lo, hi, |fed|);
    }

    /** The end of Update, with nothing held back in the buffer: the whole blocks, then the rest. */
    method UpdateAligned(data: seq<byte>)
      requires buffer.Length == 64
      modifies `a, `b, `c, `d, buffer
      ensures Registers() == R.Blocks(old(Registers()), data)
      ensures buffer[..|data| % 64] == Tail(data)
    {
      hide R.Blocks;
      var size := |data|;
      BlocksWithoutTail(Registers(), data);
      if size >= 64 {
        Body(data, size - size % 64);
      } else {
        NothingComplete(Registers(), data);
      }
      Copy(0, data[size - size % 64..]);
    }

    method Update(piece: seq<byte>)
      requires Valid()
      modifies this, buffer
      ensures Valid() && fed == old(fed) + piece
    {
      ghost var tail := Tail(fed);
      BlocksOfFeed(fed, piece);
      hide R.IV, R.Blocks, Tail, Counts;
      var data, size := piece, |piece|;
      var savedLo := lo;
      Count(size, piece);
      fed := fed + piece;
      HeldBack();
      var used := savedLo % 64;
      if used != 0 {
        var available := 64 - used;
        if size < available {
          NothingComplete(Registers(), tail + piece);
          Copy(used, data);
          return;
        }
        BlocksOfFilled(Registers(), tail, piece);
        Copy(used, data[..available]);
        assert buffer[..] == buffer[..64];
        Body(buffer[..], 64);
        data := data[available..];
      } else {
        assert tail + piece == piece;
      }
      UpdateAligned(data);
    }

    /** The OUT macro on a counter. */
    method OutCounter(at: nat, src: nat)
      requires buffer.Length == 64 && at + 4 <= 64
      modifies buffer
      ensures buffer[..at] == old(buffer[..at])
      ensures buffer[at..at + 4] == LittleEndian(src, 4)
    {
      buffer[at] := ByteOf(src % 256);
      buffer[at + 1] := ByteOf(src / 0x100 % 256);
      buffer[at + 2] := ByteOf(src / 0x1_0000 % 256);
      buffer[at + 3] := ByteOf(src / 0x100_0000 % 256);
      FourOctets(src);
    }

    /** Zeros up to the last eight octets, then the bit count. */
    method FillLastBlock(used: nat)
      requires buffer.Length == 64 && used <= 56
      modifies `lo, buffer
      ensures buffer[..64] == old(buffer[..used]) + R.Zeros(56 - used) + CountOctets(old(lo), hi)
    {
      hide LittleEndian, R.Zeros;
      Copy(used, R.Zeros(56 - used));
      ghost var front := buffer[..56];
      lo := lo * 8 % 0x1_0000_0000;
      OutCounter(56, lo);
      OutCounter(60, hi);
      assert buffer[..60] == front + buffer[56..60];
      assert buffer[..64] == buffer[..60] + buffer[60..64];
    }

    /** Appends the octet 0x80. */
    method Mark() returns (used: nat)
      requires Valid()
      modifies buffer
      ensures used <= 64 && buffer[..used] == Tail(fed) + [0x80]
    {
      HeldBack();
      hide Tail, Counts, R.Blocks, R.IV;
      used := lo % 64;
      buffer[used] := 0x80;
      used := used + 1;
    }

    /** No room for the bit count: the buffer is filled up and compressed. */
    method Flush(used: nat)
      requires buffer.Length == 64 && used <= 64
      modifies `a, `b, `c, `d, buffer
      ensures Registers() == R.Blocks(old(Registers()), old(buffer[..used]) + R.Zeros(64 - used))
    {
      hide R.Blocks, R.Zeros;
      Copy(used, R.Zeros(64 - used));
      assert buffer[..] == buffer[..64];
      Body(buffer[..], 64);
    }

    method FinishLastBlock(used: nat)
      requires buffer.Length == 64 && used <= 56
      modifies `lo, `a, `b, `c, `d, buffer
      ensures Registers() ==
              R.Blocks(old(Registers()), old(buffer[..used]) + R.Zeros(56 - used) + CountOctets(old(lo), hi))
    {
      hide R.Blocks, R.Zeros, CountOctets;
      FillLastBlock(used);
      assert buffer[..] == buffer[..64];
      Body(buffer[..], 64);
    }

    /** The first half of Final: one or two padded blocks. */
    method CompressPadding()
      requires Valid()
      modifies `lo, `a, `b, `c, `d, buffer
      ensures Registers() == R.Blocks(R.IV, R.Padded(fed))
    {
      hide R.IV, R.Blocks, R.Padded, R.Zeros, Counts, CountOctets, Tail;
      var used := Mark();
      if 64 - used < 8 {
        TwoFinalBlocks(fed, lo, hi, buffer[..used]);
        Flush(used);
        used := 0;
        assert buffer[..0] + R.Zeros(56) == R.Zeros(56);
      } else {
        OneFinalBlock(fed, lo, hi, buffer[..used]);
      }
      FinishLastBlock(used);
    }

    /** The digest; the context is wiped and no longer usable. */
    method Final() returns (result: seq<byte>)
      requires Valid()
      modifies this, buffer
      ensures result == R.Digest(old(fed))
      ensures lo == hi == 0 && Registers() == R.State.State(0, 0, 0, 0)
      ensures forall i :: 0 <= i < buffer.Length ==> buffer[i] == 0
    {
      CompressPadding();
      hide R.IV, R.Blocks, R.Padded, R.OctetsOf;
      result := R.OctetsOf(a) + R.OctetsOf(b) + R.OctetsOf(c) + R.OctetsOf(d);
      lo, hi, a, b, c, d := 0, 0, 0, 0, 0, 0;
      forall i | 0 <= i < buffer.Length {
        buffer[i] := 0;
      }
    }
  }

  /** The octets of all pieces, in order. */
  function Concatenation(pieces: seq<seq<byte>>): seq<byte>
  {
    if pieces == [] then [] else Concatenation(pieces[..|pieces| - 1]) + pieces[|pieces| - 1]
  }

  /** However the input is cut into pieces, the result is the digest of the whole. */
  method DigestOfPieces(pieces: seq<seq<byte>>) returns (result: seq<byte>)
    ensures result == R.Digest(Concatenation(pieces))
  {
    hide R.Digest;
    var ctx := new Context();
    for i := 0 to |pieces|
      invariant ctx.Valid() && fresh(ctx) && fresh(ctx.buffer)
      invariant ctx.fed == Concatenation(pieces[..i])
    {
      assert pieces[..i + 1][..i] == pieces[..i];
      ctx.Update(pieces[i]);
    }
    assert pieces[..|pieces|] == pieces;
    result := ctx.Final();
  }
}
