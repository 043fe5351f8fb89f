/** Octets and the conversions between octets and integers that the other modules share. */
module Bytes {

  type byte = bv8

  function ByteValue(b: byte): (v: int)
    ensures 0 <= v < 256
  {
    b as int
  }

  function ByteOf(v: int): byte
    requires 0 <= v < 256
  {
    v as bv8
  }

  lemma ByteOfValue(b: byte)
    ensures ByteOf(ByteValue(b)) == b
  {
  }

  lemma NextByte(b: byte)
    requires b != 255
    ensures ByteValue(b + 1) == ByteValue(b) + 1
  {
  }

  lemma {:induction false} SomeByteWithValue(v: nat) returns (b: byte)
    requires v < 256
    ensures ByteValue(b) == v
  {
    b := 0;
    if v > 0 {
      b := SomeByteWithValue(v - 1);
      NextByte(b);
      b := b + 1;
    }
  }

  lemma ValueOfByte(v: int)
    requires 0 <= v < 256
    ensures ByteValue(ByteOf(v)) == v
  {
    var b := SomeByteWithValue(v);
    ByteOfValue(b);
  }

  /** `k` octets of `n`, least significant first; what does not fit is cut off. */
  function LittleEndian(n: nat, k: nat): (s: seq<byte>)
    ensures |s| == k
  {
    if k == 0 then [] else [ByteOf(n % 256)] + LittleEndian(n / 256, k - 1)
  }

  lemma {:induction false} LittleEndianOfSum(low: nat, high: nat, j: nat, k: nat)
    requires low < Power256(j)
    ensures LittleEndian(low + Power256(j) * high, j + k) == LittleEndian(low, j) + LittleEndian(high, k)
    decreases j
  {
    hide ByteOf;
    if j == 0 {
      assert LittleEndian(low, 0) == [];
    } else {
      var n, p := low + Power256(j) * high, Power256(j - 1);
      assert Power256(j) * high == 256 * (p * high);
      assert n % 256 == low % 256 && n / 256 == low / 256 + p * high;
      LittleEndianOfSum(low / 256, high, j - 1, k);
    }
  }

  function Power256(k: nat): (p: nat)
    ensures p > 0
  {
    if k == 0 then 1 else 256 * Power256(k - 1)
  }

  lemma Powers()
    ensures Power256(1) == 0x100 && Power256(2) == 0x1_0000
    ensures Power256(4) == 0x1_0000_0000 && Power256(8) == 0x1_0000_0000_0000_0000
  {
    assert Power256(2) == 0x1_0000;
    assert Power256(6) == 0x1_0000_0000_0000;
  }

  /** What does not fit into k octets does not matter. */
  lemma LittleEndianTruncates(low: nat, high: nat, k: nat)
    requires low < Power256(k)
    ensures LittleEndian(low + Power256(k) * high, k) == LittleEndian(low, k)
  {
    LittleEndianOfSum(low, high, k, 0);
    assert LittleEndian(high, 0) == [];
  }

  /** The number that the octets stand for, least significant first. */
  function FromLittleEndian(s: seq<byte>): (n: nat)
    ensures n < Power256(|s|)
  {
    if s == [] then 0 else ByteValue(s[0]) + 256 * FromLittleEndian(s[1..])
  }

  lemma {:induction false} NumberSurvives(n: nat, k: nat)
    requires n < Power256(k)
    ensures FromLittleEndian(LittleEndian(n, k)) == n
    decreases k
  {
    hide ByteValue, ByteOf;
    if k > 0 {
      NumberSurvives(n / 256, k - 1);
      ValueOfByte(n % 256);
      assert LittleEndian(n, k)[1..] == LittleEndian(n / 256, k - 1);
    }
  }
}
