/** Keys and the exclusive-or cipher. */
module Cipher {
  import opened Bytes
  import opened Jcamsys

  const JC_MIN_KEYSIZE: nat := 1024
  const JC_MAX_KEYSIZE: nat := 2048

  datatype Key = Key(keylength: nat, xorkey: seq<byte>, magic: seq<byte>)

  // 'J' and 'C'
  const MAGIC_J: byte := 0x4a
  const MAGIC_C: byte := 0x43

  /** The structure as declared; a longer key length would index past the key. */
  predicate Fits(key: Key)
  {
    key.keylength <= JC_MAX_KEYSIZE == |key.xorkey| && |key.magic| == 2
  }

  /** The guard lets a key through when at least one of the two magic octets is right. */
  predicate Usable(key: Key)
    requires Fits(key)
  {
    (key.magic[0] == MAGIC_J || key.magic[1] == MAGIC_C) && key.keylength >= JC_MIN_KEYSIZE
  }

  /** The octet of the key for place i: the key is repeated. */
  function KeyAt(key: Key, i: nat): byte
    requires Fits(key) && key.keylength > 0
  {
    key.xorkey[i % key.keylength]
  }

  function Xored(key: Key, s: seq<byte>): (t: seq<byte>)
    requires Fits(key) && key.keylength > 0
    ensures |t| == |s|
  {
    seq(|s|, i requires 0 <= i < |s| => s[i] ^ KeyAt(key, i))
  }

  /** What the cipher makes of s: nothing at all without a usable key. */
  function Crypted(key: Key, s: seq<byte>): (t: seq<byte>)
    requires Fits(key)
    ensures |t| == |s|
  {
    if Usable(key) then Xored(key, s) else s
  }

  /** Decryption is encryption, for every key, usable or not. */
  lemma CryptedTwice(key: Key, s: seq<byte>)
    requires Fits(key)
    ensures Crypted(key, Crypted(key, s)) == s
  {
    if Usable(key) {
      var t := Xored(key, Xored(key, s));
      hide KeyAt;
      assert forall i :: 0 <= i < |s| ==> t[i] == s[i] ^ KeyAt(key, i) ^ KeyAt(key, i) == s[i];
    }
  }

  /** Under the key itself: its octets in turn, and from the key's length on the same again. */
  lemma CryptedAt(key: Key, s: seq<byte>, i: nat)
    requires Fits(key) && Usable(key) && i < |s|
    ensures i < key.keylength ==> Crypted(key, s)[i] == s[i] ^ key.xorkey[i]
    ensures i + key.keylength < |s| ==>
              Crypted(key, s)[i + key.keylength] ^ s[i + key.keylength] == Crypted(key, s)[i] ^ s[i]
  {
    if i < key.keylength {
      NoTurn(i, key.keylength);
    }
    if i + key.keylength < |s| {
      OneTurn(i, key.keylength);
      var j := i + key.keylength;
      assert KeyAt(key, j) == KeyAt(key, i);
      hide KeyAt;
      XorAgain(s[i], KeyAt(key, i));
      XorAgain(s[j], KeyAt(key, j));
    }
  }

  lemma NoTurn(i: nat, n: nat)
    requires i < n
    ensures i % n == i
  {
  }

  lemma OneTurn(i: nat, n: nat)
    requires n > 0
    ensures (i + n) % n == i % n
  {
    var k := (i + n) / n - i / n - 1;
    assert n * k == i % n - (i + n) % n;
    NoMultiple(k, n);
  }

  lemma NoMultiple(k: int, n: int)
    requires n > 0 && -n < n * k < n
    ensures k == 0
  {
  }

  lemma XorAgain(a: byte, k: byte)
    ensures a ^ k ^ a == k
  {
  }

  /** The cipher in place. */
  method CryptBuf(key: Key, data: array<byte>, datalen: nat) returns (r: int)
    requires Fits(key) && datalen <= data.Length
    modifies data
    ensures data[..datalen] == Crypted(key, old(data[..datalen])) && data[datalen..] == old(data[datalen..])
    ensures r == if key.magic[0] != MAGIC_J && key.magic[1] != MAGIC_C then JC_ERR_BAD_MAGIC
                 else if key.keylength < JC_MIN_KEYSIZE then JC_ERR_KEY_NOT_VALID
                 else datalen
    ensures forall i :: 0 <= i < datalen ==>
              data[i] == if r >= 0 then old(data[i]) ^ key.xorkey[i % key.keylength] else old(data[i])
  {
    if key.magic[0] != MAGIC_J && key.magic[1] != MAGIC_C {
      return JC_ERR_BAD_MAGIC;
    }
    if key.keylength < JC_MIN_KEYSIZE {
      return JC_ERR_KEY_NOT_VALID;
    }
    for i := 0 to datalen
      invariant forall j :: 0 <= j < i ==> data[j] == old(data[j]) ^ KeyAt(key, j)
      invariant forall j :: i <= j < data.Length ==> data[j] == old(data[j])
    {
      hide KeyAt;
      var b := data[i] ^ KeyAt(key, i);
      data[i] := b;
    }
    r := datalen;
  }
}
