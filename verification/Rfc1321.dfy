/** The MD5 message digest as RFC 1321 defines it: the reference for module Md5. */
module Rfc1321 {
  import opened Bytes

  type Word = bv32

  datatype State = State(a: Word, b: Word, c: Word, d: Word)

  // Section 3.3
  const IV := State(0x67452301, 0xefcdab89, 0x98badcfe, 0x10325476)

  // Section 3.4, the four auxiliary functions
  function F(x: Word, y: Word, z: Word): Word { (x & y) | (!x & z) }
  function G(x: Word, y: Word, z: Word): Word { (x & z) | (y & !z) }
  function H(x: Word, y: Word, z: Word): Word { x ^ y ^ z }
  function I(x: Word, y: Word, z: Word): Word { y ^ (x | !z) }

  function Aux(i: nat, x: Word, y: Word, z: Word): Word
    requires i < 64
  {
    if i < 16 then F(x, y, z) else if i < 32 then G(x, y, z) else if i < 48 then H(x, y, z) else I(x, y, z)
  }

  /** The word of the block that operation i takes. */
  function K(i: nat): (k: nat)
    requires i < 64
    ensures k < 16
  {
    if i < 16 then i else if i < 32 then (5 * i + 1) % 16 else if i < 48 then (3 * i + 5) % 16 else 7 * i % 16
  }

  /** The rotation of operation i. */
  function S(i: nat): (s: Word)
    requires i < 64
    ensures 0 < s < 32
  {
    var j := i % 4;
    if i < 16 then (if j == 0 then 7 else if j == 1 then 12 else if j == 2 then 17 else 22)
    else if i < 32 then (if j == 0 then 5 else if j == 1 then 9 else if j == 2 then 14 else 20)
    else if i < 48 then (if j == 0 then 4 else if j == 1 then 11 else if j == 2 then 16 else 23)
    else (if j == 0 then 6 else if j == 1 then 10 else if j == 2 then 15 else 21)
  }

  /** x <<< s for the rotations that occur. */
  function RotateLeft(x: Word, s: Word): Word
  {
    if s == 7 then x.RotateLeft(7) else if s == 12 then x.RotateLeft(12)
    else if s == 17 then x.RotateLeft(17) else if s == 22 then x.RotateLeft(22)
    else if s == 5 then x.RotateLeft(5) else if s == 9 then x.RotateLeft(9)
    else if s == 14 then x.RotateLeft(14) else if s == 20 then x.RotateLeft(20)
    else if s == 4 then x.RotateLeft(4) else if s == 11 then x.RotateLeft(11)
    else if s == 16 then x.RotateLeft(16) else if s == 23 then x.RotateLeft(23)
    else if s == 6 then x.RotateLeft(6) else if s == 10 then x.RotateLeft(10)
    else if s == 15 then x.RotateLeft(15) else if s == 21 then x.RotateLeft(21)
    else x
  }

  /** The table T[1 ... 64] of section 3.4, numbered from 0 and cut into the four rounds. */
  function T(i: nat): Word
    requires i < 64
  {
    if i < 16 then T1(i) else if i < 32 then T2(i - 16) else if i < 48 then T3(i - 32) else T4(i - 48)
  }

  function T1(i: nat): Word
    requires i < 16
  {
    match i
    case 0 => 0xd76aa478 case 1 => 0xe8c7b756 case 2 => 0x242070db case 3 => 0xc1bdceee
    case 4 => 0xf57c0faf case 5 => 0x4787c62a case 6 => 0xa8304613 case 7 => 0xfd469501
    case 8 => 0x698098d8 case 9 => 0x8b44f7af case 10 => 0xffff5bb1 case 11 => 0x895cd7be
    case 12 => 0x6b901122 case 13 => 0xfd987193 case 14 => 0xa679438e case _ => 0x49b40821
  }

  function T2(i: nat): Word
    requires i < 16
  {
    match i
    case 0 => 0xf61e2562 case 1 => 0xc040b340 case 2 => 0x265e5a51 case 3 => 0xe9b6c7aa
    case 4 => 0xd62f105d case 5 => 0x02441453 case 6 => 0xd8a1e681 case 7 => 0xe7d3fbc8
    case 8 => 0x21e1cde6 case 9 => 0xc33707d6 case 10 => 0xf4d50d87 case 11 => 0x455a14ed
    case 12 => 0xa9e3e905 case 13 => 0xfcefa3f8 case 14 => 0x676f02d9 case _ => 0x8d2a4c8a
  }

  function T3(i: nat): Word
    requires i < 16
  {
    match i
    case 0 => 0xfffa3942 case 1 => 0x8771f681 case 2 => 0x6d9d6122 case 3 => 0xfde5380c
    case 4 => 0xa4beea44 case 5 => 0x4bdecfa9 case 6 => 0xf6bb4b60 case 7 => 0xbebfbc70
    case 8 => 0x289b7ec6 case 9 => 0xeaa127fa case 10 => 0xd4ef3085 case 11 => 0x04881d05
    case 12 => 0xd9d4d039 case 13 => 0xe6db99e5 case 14 => 0x1fa27cf8 case _ => 0xc4ac5665
  }

  function T4(i: nat): Word
    requires i < 16
  {
    match i
    case 0 => 0xf4292244 case 1 => 0x432aff97 case 2 => 0xab9423a7 case 3 => 0xfc93a039
    case 4 => 0x655b59c3 case 5 => 0x8f0ccc92 case 6 => 0xffeff47d case 7 => 0x85845dd1
    case 8 => 0x6fa87e4f case 9 => 0xfe2ce6e0 case 10 => 0xa3014314 case 11 => 0x4e0811a1
    case 12 => 0xf7537e82 case 13 => 0xbd3af235 case 14 => 0x2ad7d2bb case _ => 0xeb86d391
  }

  // Addition of words is modulo 2^32.
  function Plus(x: Word, y: Word): Word { x + y }
  function Sum(a: Word, f: Word, x: Word, t: Word): Word { a + f + x + t }

  /** b + ((a + f + x + t) <<< s) */
  function NewA(a: Word, b: Word, f: Word, x: Word, t: Word, s: Word): Word
  {
    Plus(b, RotateLeft(Sum(a, f, x, t), s))
  }

  /** Operation i: the first register is replaced, then the registers change roles from [ABCD] to [DABC]. */
  function Op(i: nat, s: State, x: seq<Word>): State
    requires i < 64 && |x| == 16
  {
    State(s.d, NewA(s.a, s.b, Aux(i, s.b, s.c, s.d), x[K(i)], T(i), S(i)), s.b, s.c)
  }

  /** The first n operations on one block. */
  function Ops(n: nat, s: State, x: seq<Word>): State
    requires n <= 64 && |x| == 16
  {
    if n == 0 then s else Op(n - 1, Ops(n - 1, s, x), x)
  }

  /** Section 2: four octets form a word, the low-order octet first. */
  function WordOf(b0: byte, b1: byte, b2: byte, b3: byte): Word
  {
    (b0 as bv32) + (b1 as bv32) * 0x100 + (b2 as bv32) * 0x1_0000 + (b3 as bv32) * 0x100_0000
  }

  function WordAt(m: seq<byte>, i: nat): Word
    requires 4 * i + 4 <= |m|
  {
    WordOf(m[4 * i], m[4 * i + 1], m[4 * i + 2], m[4 * i + 3])
  }

  function Words(m: seq<byte>): (x: seq<Word>)
    requires |m| == 64
    ensures |x| == 16
  {
    seq(16, i requires 0 <= i < 16 => WordAt(m, i))
  }

  function Block(s: State, m: seq<byte>): State
    requires |m| == 64
  {
    var r := Ops(64, s, Words(m));
    State(Plus(s.a, r.a), Plus(s.b, r.b), Plus(s.c, r.c), Plus(s.d, r.d))
  }

  /** All whole 64-octet blocks of m in turn. */
  function Blocks(s: State, m: seq<byte>): State
    decreases |m|
  {
    if |m| < 64 then s else Blocks(Block(s, m[..64]), m[64..])
  }

  // Sections 3.1 and 3.2
  function Zeros(n: nat): (z: seq<byte>)
    ensures |z| == n
  {
    seq(n, _ => 0)
  }

  /** As many zeros as make the length congruent to 56 modulo 64 after the octet 0x80. */
  function ZeroCount(n: nat): (z: nat)
    ensures (n + 1 + z) % 64 == 56 && z < 64
  {
    if n % 64 < 56 then 55 - n % 64 else 119 - n % 64
  }

  function Padded(m: seq<byte>): seq<byte>
  {
    m + [0x80] + Zeros(ZeroCount(|m|)) + LittleEndian(8 * |m|, 8)
  }

  // Section 3.5
  function OctetsOf(w: Word): (s: seq<byte>)
    ensures |s| == 4
  {
    [(w & 0xff) as bv8, ((w >> 8) & 0xff) as bv8, ((w >> 16) & 0xff) as bv8, ((w >> 24) & 0xff) as bv8]
  }

  function Output(s: State): (o: seq<byte>)
    ensures |o| == 16
  {
    OctetsOf(s.a) + OctetsOf(s.b) + OctetsOf(s.c) + OctetsOf(s.d)
  }

  function Digest(m: seq<byte>): (o: seq<byte>)
    ensures |o| == 16
  {
    Output(Blocks(IV, Padded(m)))
  }
}
