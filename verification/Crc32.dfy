/** The image checksum: a table-driven CRC-32, against division of polynomials over GF(2). */
module Crc32 {
  import opened Bytes

  type Word = bv32

  // ---- the reference: long division, one bit at a time ----

  type Bits = seq<bool>

  function Xor(a: bool, b: bool): bool { a != b }

  // Word operations by name
  function Low(w: Word): bool { w & 1 == 1 }
  function Half(w: Word): Word { w >> 1 }
  function Flip(w: Word): Word { !w }
  function Sum(a: Word, b: Word): Word { a ^ b }

  /** The n low bits of w, the least significant first. */
  function BitsOf(w: Word, n: nat): (b: Bits)
    ensures |b| == n
    decreases n
  {
    if n == 0 then [] else [Low(w)] + BitsOf(Half(w), n - 1)
  }

  /** The octets as one string of bits, each octet least significant bit first. */
  function Message(buf: seq<byte>): (b: Bits)
    ensures |b| == 8 * |buf|
  {
    if buf == [] then [] else BitsOf(buf[0] as bv32, 8) + Message(buf[1..])
  }

  function ZeroBits(n: nat): (b: Bits)
    ensures |b| == n
  {
    seq(n, _ => false)
  }

  /** d with the bits of p added (without carry) to its beginning. */
  function AddAtFront(d: Bits, p: Bits): (r: Bits)
    requires |p| <= |d|
    ensures |r| == |d|
  {
    seq(|d|, i requires 0 <= i < |d| => if i < |p| then Xor(d[i], p[i]) else d[i])
  }

  const POLYNOMIAL: Word := 0xedb88320

  /** x^32 and the terms of POLYNOMIAL, the highest power first. */
  function Divisor(): (p: Bits)
    ensures |p| == 33
  {
    [true] + BitsOf(POLYNOMIAL, 32)
  }

  /** Schoolbook division of the polynomial d (highest power first); the remainder has 32 coefficients. */
  function Remainder(d: Bits): (r: Bits)
    requires |d| >= 32
    ensures |r| == 32
    decreases |d|
  {
    if |d| == 32 then d
    else if d[0] then Remainder(AddAtFront(d, Divisor())[1..])
    else Remainder(d[1..])
  }

  // ---- the same division in a 32-bit register ----

  function Shift(s: Word): Word
  {
    if Low(s) then Sum(Half(s), POLYNOMIAL) else Half(s)
  }

  function ShiftN(s: Word, n: nat): Word
    decreases n
  {
    if n == 0 then s else ShiftN(Shift(s), n - 1)
  }

  function Bit(b: bool): Word { if b then 1 else 0 }

  function Feed(s: Word, bit: bool): Word
  {
    Shift(Sum(s, Bit(bit)))
  }

  function Register(s: Word, bits: Bits): Word
    decreases |bits|
  {
    if bits == [] then s else Register(Feed(s, bits[0]), bits[1..])
  }

  /** The checksum of buf continued from c. */
  function Crc(c: Word, buf: seq<byte>): Word
  {
    Flip(Register(Flip(c), Message(buf)))
  }

  // ---- facts about words, one operation at a time ----

  lemma LowOfSum(a: Word, b: Word)
    ensures Low(Sum(a, b)) == Xor(Low(a), Low(b))
  {
  }

  lemma HalfOfSum(a: Word, b: Word)
    ensures Half(Sum(a, b)) == Sum(Half(a), Half(b))
  {
  }

  lemma SumCancels(t: Word, a: Word, b: Word)
    requires Sum(t, a) == Sum(t, b)
    ensures a == b
  {
  }

  lemma SumCommutes(a: Word, b: Word)
    ensures Sum(a, b) == Sum(b, a)
  {
  }

  lemma SumZero(s: Word)
    ensures Sum(s, 0) == s
  {
  }

  lemma BitParts(b: bool)
    ensures Low(Bit(b)) == b && Half(Bit(b)) == 0
  {
  }

  lemma ZeroParts()
    ensures !Low(0) && Half(0) == 0
  {
  }

  predicate Top(w: Word) { w >> 31 == 1 }

  lemma TopOfHalf(w: Word)
    ensures !Top(Half(w))
  {
  }

  lemma TopOfSum(w: Word)
    requires !Top(w)
    ensures Top(Sum(w, POLYNOMIAL))
  {
  }

  lemma LowAndHalfDetermine(a: Word, b: Word)
    requires Low(a) == Low(b) && Half(a) == Half(b)
    ensures a == b
  {
  }

  // ---- the bits of a word ----

  /** The word after n halvings. */
  function Halved(w: Word, n: nat): Word
    decreases n
  {
    if n == 0 then w else Halved(Half(w), n - 1)
  }

  lemma {:induction false} HalvedTwice(w: Word, m: nat, n: nat)
    ensures Halved(Halved(w, m), n) == Halved(w, m + n)
    decreases m
  {
    if m > 0 {
      HalvedTwice(Half(w), m - 1, n);
    }
  }

  lemma HalvedBy1(w: Word)
    ensures Halved(w, 1) == w >> 1
  {
  }

  lemma HalvedBy2(w: Word)
    ensures Halved(w, 2) == w >> 2
  {
    hide *;
    HalvedTwice(w, 1, 1);
    HalvedBy1(w);
    HalvedBy1(w >> 1);
  }

  lemma HalvedPast2(w: Word, n: nat)
    ensures Halved(w, 2 + n) == Halved(w >> 2, n)
  {
    hide *;
    HalvedTwice(w, 2, n);
    HalvedBy2(w);
  }

  lemma HalvedBy3(w: Word)
    ensures Halved(w, 3) == w >> 3
  {
    hide *;
    HalvedPast2(w, 1);
    HalvedBy1(w >> 2);
  }

  lemma HalvedBy4(w: Word)
    ensures Halved(w, 4) == w >> 4
  {
    hide *;
    HalvedPast2(w, 2);
    HalvedBy2(w >> 2);
  }

  lemma HalvedPast4(w: Word, n: nat)
    ensures Halved(w, 4 + n) == Halved(w >> 4, n)
  {
    hide *;
    HalvedTwice(w, 4, n);
    HalvedBy4(w);
  }

  lemma HalvedBy7(w: Word)
    ensures Halved(w, 7) == w >> 7
  {
    hide *;
    HalvedPast4(w, 3);
    HalvedBy3(w >> 4);
  }

  lemma HalvedBy8(w: Word)
    ensures Halved(w, 8) == w >> 8
  {
    hide *;
    HalvedPast4(w, 4);
    HalvedBy4(w >> 4);
  }

  lemma HalvedPast8(w: Word, n: nat)
    ensures Halved(w, 8 + n) == Halved(w >> 8, n)
  {
    hide *;
    HalvedTwice(w, 8, n);
    HalvedBy8(w);
  }

  lemma HalvedPast16(w: Word, n: nat)
    ensures Halved(w, 16 + n) == Halved(w >> 16, n)
  {
    hide *;
    HalvedPast8(w, 8 + n);
    HalvedPast8(w >> 8, n);
  }

  lemma HalvedPast24(w: Word, n: nat)
    ensures Halved(w, 24 + n) == Halved(w >> 24, n)
  {
    hide *;
    HalvedPast16(w, 8 + n);
    HalvedPast8(w >> 16, n);
  }

  lemma HalvedBy31(w: Word)
    ensures Halved(w, 31) == w >> 31
  {
    hide *;
    HalvedPast24(w, 7);
    HalvedBy7(w >> 24);
  }

  lemma HalvedFully(w: Word)
    ensures Halved(w, 32) == 0
  {
    hide *;
    HalvedPast24(w, 8);
    HalvedBy8(w >> 24);
  }

  lemma {:induction false} BitsOfLonger(w: Word, n: nat)
    ensures BitsOf(w, n + 1) == BitsOf(w, n) + [Low(Halved(w, n))]
    decreases n
  {
    hide Low, Half;
    if n > 0 {
      BitsOfLonger(Half(w), n - 1);
    } else {
      assert BitsOf(Half(w), 0) == [];
    }
  }

  lemma BitsUnfold(w: Word, n: nat)
    ensures BitsOf(w, n + 1) == [Low(w)] + BitsOf(Half(w), n)
  {
    hide Low, Half;
  }

  lemma BitsOfHalf(w: Word)
    ensures BitsOf(Half(w), 32) == BitsOf(w, 32)[1..] + [false]
  {
    hide *;
    HalvedFully(w);
    ZeroParts();
    BitsOfLonger(w, 32);
    BitsUnfold(w, 32);
    assert BitsOf(Half(w), 32) == BitsOf(w, 33)[1..];
  }

  lemma {:induction false} BitsOfSum(a: Word, b: Word, n: nat, i: nat)
    requires i < n
    ensures BitsOf(Sum(a, b), n)[i] == Xor(BitsOf(a, n)[i], BitsOf(b, n)[i])
    decreases n
  {
    hide Low, Half, Sum;
    LowOfSum(a, b);
    HalfOfSum(a, b);
    if i > 0 {
      BitsOfSum(Half(a), Half(b), n - 1, i - 1);
    }
  }

  /** The bits of a word determine it. */
  lemma {:induction false} BitsDetermine(a: Word, b: Word, n: nat)
    requires BitsOf(a, n) == BitsOf(b, n) && Halved(a, n) == Halved(b, n)
    ensures a == b
    decreases n
  {
    hide Low, Half;
    if n > 0 {
      assert BitsOf(a, n)[1..] == BitsOf(Half(a), n - 1) && BitsOf(b, n)[1..] == BitsOf(Half(b), n - 1);
      assert BitsOf(a, n)[0] == Low(a) && BitsOf(b, n)[0] == Low(b);
      BitsDetermine(Half(a), Half(b), n - 1);
      LowAndHalfDetermine(a, b);
    }
  }

  lemma AllBitsDetermine(a: Word, b: Word)
    ensures BitsOf(a, 32) == BitsOf(b, 32) <==> a == b
  {
    hide *;
    HalvedFully(a);
    HalvedFully(b);
    if BitsOf(a, 32) == BitsOf(b, 32) {
      BitsDetermine(a, b, 32);
    }
  }

  /** Words whose bits are the same are the same. */
  lemma SameBits(a: Word, b: Word)
    requires forall i :: 0 <= i < 32 ==> BitsOf(a, 32)[i] == BitsOf(b, 32)[i]
    ensures a == b
  {
    hide *;
    assert BitsOf(a, 32) == BitsOf(b, 32);
    AllBitsDetermine(a, b);
  }

  lemma SumSwaps(a: Word, b: Word, c: Word)
    ensures Sum(Sum(a, b), c) == Sum(Sum(a, c), b)
  {
    hide BitsOf, Sum;
    forall i | 0 <= i < 32
      ensures BitsOf(Sum(Sum(a, b), c), 32)[i] == BitsOf(Sum(Sum(a, c), b), 32)[i]
    {
      BitsOfSum(a, b, 32, i);
      BitsOfSum(a, c, 32, i);
      BitsOfSum(Sum(a, b), c, 32, i);
      BitsOfSum(Sum(a, c), b, 32, i);
    }
    SameBits(Sum(Sum(a, b), c), Sum(Sum(a, c), b));
  }

  lemma SumMeets(a: Word, e: Word, b: Word)
    ensures Sum(Sum(a, e), Sum(b, e)) == Sum(a, b)
  {
    hide BitsOf, Sum;
    forall i | 0 <= i < 32
      ensures BitsOf(Sum(Sum(a, e), Sum(b, e)), 32)[i] == BitsOf(Sum(a, b), 32)[i]
    {
      BitsOfSum(a, e, 32, i);
      BitsOfSum(b, e, 32, i);
      BitsOfSum(a, b, 32, i);
      BitsOfSum(Sum(a, e), Sum(b, e), 32, i);
    }
    SameBits(Sum(Sum(a, e), Sum(b, e)), Sum(a, b));
  }

  // ---- facts about one step ----

  /** Bits above the lowest only move down. */
  lemma ShiftMovesHighBits(x: Word, y: Word)
    requires !Low(y)
    ensures Shift(Sum(x, y)) == Sum(Shift(x), Half(y))
  {
    hide Low, Half, Sum;
    LowOfSum(x, y);
    HalfOfSum(x, y);
    SumSwaps(Half(x), Half(y), POLYNOMIAL);
  }

  predicate LowBitsZero(y: Word, n: nat)
    decreases n
  {
    n == 0 || (!Low(y) && LowBitsZero(Half(y), n - 1))
  }

  lemma {:induction false} ShiftNMovesHighBits(x: Word, y: Word, n: nat)
    requires LowBitsZero(y, n)
    ensures ShiftN(Sum(x, y), n) == Sum(ShiftN(x, n), Halved(y, n))
    decreases n
  {
    hide Shift, Sum, Low, Half;
    if n > 0 {
      ShiftMovesHighBits(x, y);
      ShiftNMovesHighBits(Shift(x), Half(y), n - 1);
    }
  }

  /** No information is lost in a step: the polynomial has its top bit set. */
  lemma ShiftInjective(a: Word, b: Word)
    requires Shift(a) == Shift(b)
    ensures a == b
  {
    hide Low, Half, Sum, Top;
    TopOfHalf(a);
    TopOfHalf(b);
    TopOfSum(Half(a));
    TopOfSum(Half(b));
    if Low(a) {
      SumCommutes(Half(a), POLYNOMIAL);
      SumCommutes(Half(b), POLYNOMIAL);
      SumCancels(POLYNOMIAL, Half(a), Half(b));
    }
    LowAndHalfDetermine(a, b);
  }

  lemma {:induction false} ShiftNInjective(a: Word, b: Word, n: nat)
    requires ShiftN(a, n) == ShiftN(b, n)
    ensures a == b
    decreases n
  {
    hide Shift;
    if n > 0 {
      ShiftNInjective(Shift(a), Shift(b), n - 1);
      ShiftInjective(a, b);
    }
  }

  lemma {:induction false} RegisterInjective(a: Word, b: Word, bits: Bits)
    requires Register(a, bits) == Register(b, bits)
    ensures a == b
    decreases |bits|
  {
    hide Feed;
    if bits != [] {
      RegisterInjective(Feed(a, bits[0]), Feed(b, bits[0]), bits[1..]);
      FeedInjective(a, b, bits[0]);
    }
  }

  lemma FeedInjective(a: Word, b: Word, bit: bool)
    requires Feed(a, bit) == Feed(b, bit)
    ensures a == b
  {
    hide Shift, Sum, Bit;
    ShiftInjective(Sum(a, Bit(bit)), Sum(b, Bit(bit)));
    SumCommutes(a, Bit(bit));
    SumCommutes(b, Bit(bit));
    SumCancels(Bit(bit), a, b);
  }

  /** Feeding the lowest bit and adding the others afterwards is adding all of them and stepping. */
  lemma FeedThenRest(s: Word, w: Word)
    ensures Sum(Feed(s, Low(w)), Half(w)) == Shift(Sum(s, w))
  {
    hide Shift, Sum, Low, Half, Bit;
    var e := Bit(Low(w));
    BitParts(Low(w));
    LowOfSum(w, e);
    HalfOfSum(w, e);
    SumZero(Half(w));
    ShiftMovesHighBits(Sum(s, e), Sum(w, e));
    SumMeets(s, e, w);
  }

  /** Feeding the bits of w one at a time is adding w and stepping. */
  lemma {:induction false} FeedBits(s: Word, w: Word, n: nat)
    requires Halved(w, n) == 0
    ensures Register(s, BitsOf(w, n)) == ShiftN(Sum(s, w), n)
    decreases n
  {
    hide Feed, Sum, Low, Half, Shift;
    if n == 0 {
      SumZero(s);
    } else {
      FeedThenRest(s, w);
      FeedBits(Feed(s, Low(w)), Half(w), n - 1);
    }
  }

  // ---- the table ----

  lemma TwoParts(s: Word)
    ensures s == Sum(s & 0xff, s & 0xffffff00)
  {
  }

  lemma SumUnfolds(a: Word, b: Word)
    ensures Sum(a, b) == a ^ b
  {
  }

  lemma SplitWord(s: Word, o: Word)
    ensures Sum(s, o) == Sum((s & 0xff) ^ o, s & 0xffffff00)
  {
    hide *;
    TwoParts(s);
    SumSwaps(s & 0xff, s & 0xffffff00, o);
    SumUnfolds(s & 0xff, o);
  }

  lemma HighPartMoves(s: Word, low: Word)
    ensures ShiftN(Sum(low, s & 0xffffff00), 8) == Sum(ShiftN(low, 8), s >> 8)
  {
    hide *;
    LowOctetZero(s);
    HighBits(s);
    ShiftNMovesHighBits(low, s & 0xffffff00, 8);
  }

  lemma EightSteps(s: Word, o: Word)
    ensures ShiftN(Sum(s, o), 8) == Sum(ShiftN((s & 0xff) ^ o, 8), s >> 8)
  {
    hide *;
    SplitWord(s, o);
    HighPartMoves(s, (s & 0xff) ^ o);
  }

  /** The place in the table, and the register after looking it up. */
  function Index(s: Word, o: byte): byte { ((s & 0xff) as bv8) ^ o }
  function Update(s: Word, entry: Word): Word { (s >> 8) ^ entry }

  lemma UpdateIsSum(s: Word, entry: Word)
    ensures Update(s, entry) == Sum(entry, s >> 8)
  {
  }

  lemma IndexIsLowPart(s: Word, o: byte)
    ensures Index(s, o) as bv32 == (s & 0xff) ^ (o as bv32)
  {
  }

  function Entry(i: byte): Word
  {
    ShiftN(i as bv32, 8)
  }

  lemma EntryOfIndex(s: Word, o: byte)
    ensures Entry(Index(s, o)) == ShiftN((s & 0xff) ^ (o as bv32), 8)
  {
    hide Index, ShiftN;
    IndexIsLowPart(s, o);
  }

  lemma TableStep(s: Word, o: byte)
    ensures ShiftN(Sum(s, o as bv32), 8) == Update(s, Entry(Index(s, o)))
  {
    hide *;
    EightSteps(s, o as bv32);
    EntryOfIndex(s, o);
    UpdateIsSum(s, Entry(Index(s, o)));
  }

  /** Whether x and y have no bit in common. */
  predicate Apart(x: Word, y: Word) { x & y == 0 }

  lemma ApartBelow(x: Word, y: Word)
    requires Apart(x, y)
    ensures Apart(Half(x), Half(y)) && !(Low(x) && Low(y))
  {
  }

  predicate LowBitsSet(y: Word, n: nat)
    decreases n
  {
    n == 0 || (Low(y) && LowBitsSet(Half(y), n - 1))
  }

  lemma {:induction false} ApartFromLowBits(x: Word, y: Word, n: nat)
    requires Apart(x, y) && LowBitsSet(y, n)
    ensures LowBitsZero(x, n)
    decreases n
  {
    hide Apart, Low, Half;
    if n > 0 {
      ApartBelow(x, y);
      ApartFromLowBits(Half(x), Half(y), n - 1);
    }
  }

  /** Whether x has every bit of y. */
  predicate Covers(x: Word, y: Word) { x & y == y }

  lemma CoversBelow(x: Word, y: Word)
    requires Covers(x, y)
    ensures Covers(Half(x), Half(y)) && (Low(y) ==> Low(x))
  {
  }

  lemma {:induction false} CoversLowBits(x: Word, y: Word, n: nat)
    requires Covers(x, y) && LowBitsSet(y, n)
    ensures LowBitsSet(x, n)
    decreases n
  {
    hide Covers, Low, Half;
    if n > 0 {
      CoversBelow(x, y);
      CoversLowBits(Half(x), Half(y), n - 1);
    }
  }

  lemma HighPartIsApart(s: Word)
    ensures Apart(s & 0xffffff00, 0xff)
  {
  }

  lemma OctetIsSet()
    ensures LowBitsSet(0xff, 8)
  {
    assert Half(0xff) == 0x7f && Half(0x7f) == 0x3f && Half(0x3f) == 0x1f && Half(0x1f) == 0xf;
    assert Half(0xf) == 7 && Half(7) == 3 && Half(3) == 1;
    assert LowBitsSet(1, 1);
    assert LowBitsSet(3, 2);
    assert LowBitsSet(0xf, 4);
    assert LowBitsSet(0x3f, 6);
  }

  lemma LowOctetZero(s: Word)
    ensures LowBitsZero(s & 0xffffff00, 8)
  {
    hide *;
    HighPartIsApart(s);
    OctetIsSet();
    ApartFromLowBits(s & 0xffffff00, 0xff, 8);
  }

  lemma HighBits(s: Word)
    ensures Halved(s & 0xffffff00, 8) == s >> 8
  {
    hide *;
    HalvedBy8(s & 0xffffff00);
  }

  lemma OctetFits(o: byte)
    ensures Halved(o as bv32, 8) == 0
  {
    HalvedBy8(o as bv32);
  }

  lemma FeedOctetBits(s: Word, o: byte)
    ensures Register(s, BitsOf(o as bv32, 8)) == ShiftN(Sum(s, o as bv32), 8)
  {
    hide *;
    OctetFits(o);
    FeedBits(s, o as bv32, 8);
  }

  /** One table step is eight steps of the division. */
  lemma FeedOctet(s: Word, o: byte)
    ensures Register(s, BitsOf(o as bv32, 8)) == Update(s, Entry(Index(s, o)))
  {
    hide *;
    FeedOctetBits(s, o);
    TableStep(s, o);
  }

  lemma {:induction false} RegisterOfConcatenation(s: Word, a: Bits, b: Bits)
    ensures Register(s, a + b) == Register(Register(s, a), b)
    decreases |a|
  {
    if a == [] {
      assert a + b == b;
    } else {
      assert (a + b)[0] == a[0] && (a + b)[1..] == a[1..] + b;
      hide Feed;
      RegisterOfConcatenation(Feed(s, a[0]), a[1..], b);
    }
  }

  lemma {:induction false} MessageOfConcatenation(a: seq<byte>, b: seq<byte>)
    ensures Message(a + b) == Message(a) + Message(b)
  {
    hide BitsOf;
    if a == [] {
      assert a + b == b;
    } else {
      assert (a + b)[0] == a[0] && (a + b)[1..] == a[1..] + b;
      var first := BitsOf(a[0] as bv32, 8);
      assert Message(a + b) == first + Message(a[1..] + b) && Message(a) == first + Message(a[1..]);
      hide *;
      MessageOfConcatenation(a[1..], b);
      Associates(first, Message(a[1..]), Message(b));
    }
  }

  lemma Associates(a: Bits, b: Bits, c: Bits)
    ensures a + (b + c) == a + b + c
  {
  }

  lemma MessageOfOne(o: byte)
    ensures Message([o]) == BitsOf(o as bv32, 8)
  {
    hide BitsOf;
    assert [o][1..] == [];
    assert Message([]) == [];
  }

  lemma RegisterOfNext(start: Word, buf: seq<byte>, p: nat)
    requires p < |buf|
    ensures var s := Register(start, Message(buf[..p]));
            Register(start, Message(buf[..p + 1])) == Update(s, Entry(Index(s, buf[p])))
  {
    hide *;
    assert buf[..p + 1] == buf[..p] + [buf[p]];
    MessageOfConcatenation(buf[..p], [buf[p]]);
    MessageOfOne(buf[p]);
    RegisterOfConcatenation(start, Message(buf[..p]), BitsOf(buf[p] as bv32, 8));
    FeedOctet(Register(start, Message(buf[..p])), buf[p]);
  }

  lemma RegisterOfNothing(start: Word)
    ensures Register(start, Message([])) == start
  {
  }

  // ---- what the checksum is ----

  lemma {:induction false} SetThroughout(w: Word, m: nat, n: nat)
    requires LowBitsSet(w, m) && LowBitsSet(Halved(w, m), n)
    ensures LowBitsSet(w, m + n)
    decreases m
  {
    hide Low, Half;
    if m > 0 {
      SetThroughout(Half(w), m - 1, n);
    }
  }

  /** One octet more of ones. */
  lemma OctetMoreIsSet(w: Word, n: nat)
    requires Covers(w, 0xff) && LowBitsSet(w >> 8, n)
    ensures LowBitsSet(w, 8 + n)
  {
    hide *;
    OctetIsSet();
    CoversLowBits(w, 0xff, 8);
    HalvedBy8(w);
    SetThroughout(w, 8, n);
  }

  lemma Ones()
    ensures 0xffff >> 8 == 0xff as Word && 0xffffff >> 8 == 0xffff as Word && 0xffffffff >> 8 == 0xffffff as Word
    ensures Covers(0xffff, 0xff) && Covers(0xffffff, 0xff) && Covers(0xffffffff, 0xff)
  {
  }

  lemma AllBitsSet()
    ensures LowBitsSet(0xffffffff, 32)
  {
    hide *;
    Ones();
    OctetIsSet();
    OctetMoreIsSet(0xffff, 8);
    OctetMoreIsSet(0xffffff, 16);
    OctetMoreIsSet(0xffffffff, 24);
  }

  lemma {:induction false} SetAt(w: Word, n: nat, i: nat)
    requires LowBitsSet(w, n) && i < n
    ensures BitsOf(w, n)[i]
    decreases n
  {
    hide Low, Half;
    if i > 0 {
      SetAt(Half(w), n - 1, i - 1);
    }
  }

  lemma FlipIsSum(w: Word)
    ensures Flip(w) == Sum(w, 0xffffffff)
  {
  }

  /** The complement inverts each bit. */
  lemma FlipInverts(w: Word, i: nat)
    requires i < 32
    ensures BitsOf(Flip(w), 32)[i] == !BitsOf(w, 32)[i]
  {
    hide Flip, Sum, BitsOf, LowBitsSet;
    AllBitsSet();
    SetAt(0xffffffff, 32, i);
    FlipIsSum(w);
    BitsOfSum(w, 0xffffffff, 32, i);
  }

  function Negated(b: Bits): (r: Bits)
    ensures |r| == |b|
  {
    seq(|b|, i requires 0 <= i < |b| => !b[i])
  }

  lemma BitsOfFlip(w: Word)
    ensures BitsOf(Flip(w), 32) == Negated(BitsOf(w, 32))
  {
    hide Flip, BitsOf;
    forall i | 0 <= i < 32
      ensures BitsOf(Flip(w), 32)[i] == Negated(BitsOf(w, 32))[i]
    {
      FlipInverts(w, i);
    }
  }

  lemma FlipTwice(w: Word)
    ensures Flip(Flip(w)) == w
  {
  }

  /** A checksum can be continued. */
  lemma CrcContinues(c: Word, a: seq<byte>, b: seq<byte>)
    ensures Crc(Crc(c, a), b) == Crc(c, a + b)
  {
    hide Register, Message, Flip;
    MessageOfConcatenation(a, b);
    RegisterOfConcatenation(Flip(c), Message(a), Message(b));
    FlipTwice(Register(Flip(c), Message(a)));
  }

  lemma FeedCases(s: Word, bit: bool)
    ensures Feed(s, bit) == if Xor(bit, Low(s)) then Sum(Half(s), POLYNOMIAL) else Half(s)
  {
    hide Sum, Low, Half, Bit;
    BitParts(bit);
    LowOfSum(s, Bit(bit));
    HalfOfSum(s, Bit(bit));
    SumZero(Half(s));
  }

  /** The division's working string when the register holds s and the given bits are still to come. */
  function Dividend(s: Word, bits: Bits): (d: Bits)
    ensures |d| == |bits| + 32
  {
    AddAtFront(bits + ZeroBits(32), BitsOf(s, 32))
  }

  lemma DividendFirst(s: Word, bits: Bits)
    requires bits != []
    ensures Dividend(s, bits)[0] == Xor(bits[0], Low(s))
  {
  }

  lemma DividendShifts(s: Word, bits: Bits)
    requires bits != []
    ensures Dividend(s, bits)[1..] == Dividend(Half(s), bits[1..])
  {
    BitsOfHalf(s);
    hide BitsOf;
    assert (bits + ZeroBits(32))[1..] == bits[1..] + ZeroBits(32);
  }

  lemma DividendAt(s: Word, bits: Bits, i: nat)
    requires i < |bits| + 32
    ensures Dividend(s, bits)[i] ==
            if i < 32 then Xor((bits + ZeroBits(32))[i], BitsOf(s, 32)[i]) else (bits + ZeroBits(32))[i]
  {
    hide BitsOf;
  }

  lemma DivisorAt(i: nat)
    requires i < 32
    ensures Divisor()[i + 1] == BitsOf(POLYNOMIAL, 32)[i]
  {
    hide BitsOf;
  }

  lemma AddedAt(d: Bits, p: Bits, i: nat)
    requires |p| <= |d| && i < |d|
    ensures AddAtFront(d, p)[i] == if i < |p| then Xor(d[i], p[i]) else d[i]
  {
  }

  lemma DividendReducedAt(s: Word, bits: Bits, i: nat)
    requires bits != [] && i < |bits| + 31
    ensures AddAtFront(Dividend(s, bits), Divisor())[i + 1] == Dividend(Sum(Half(s), POLYNOMIAL), bits[1..])[i]
  {
    DividendShifts(s, bits);
    var d := Dividend(s, bits);
    assert d[i + 1] == d[1..][i];
    hide BitsOf, Dividend, Divisor, AddAtFront, Half, Sum, ZeroBits;
    AddedAt(d, Divisor(), i + 1);
    DividendAt(Half(s), bits[1..], i);
    DividendAt(Sum(Half(s), POLYNOMIAL), bits[1..], i);
    if i < 32 {
      DivisorAt(i);
      BitsOfSum(Half(s), POLYNOMIAL, 32, i);
    }
  }

  lemma DividendReduced(s: Word, bits: Bits)
    requires bits != []
    ensures AddAtFront(Dividend(s, bits), Divisor())[1..] == Dividend(Sum(Half(s), POLYNOMIAL), bits[1..])
  {
    hide *;
    var reduced := AddAtFront(Dividend(s, bits), Divisor());
    forall i | 0 <= i < |bits| + 31
      ensures reduced[1..][i] == Dividend(Sum(Half(s), POLYNOMIAL), bits[1..])[i]
    {
      DividendReducedAt(s, bits, i);
    }
  }

  /** The register is the remainder of the polynomial division. */
  lemma {:induction false} RegisterIsRemainder(s: Word, bits: Bits)
    ensures BitsOf(Register(s, bits), 32) == Remainder(Dividend(s, bits))
    decreases |bits|
  {
    if bits == [] {
      hide BitsOf;
      assert Dividend(s, bits) == BitsOf(s, 32);
    } else {
      FeedCases(s, bits[0]);
      DividendFirst(s, bits);
      hide BitsOf, Feed, Dividend, AddAtFront;
      DividendShifts(s, bits);
      DividendReduced(s, bits);
      RegisterIsRemainder(Feed(s, bits[0]), bits[1..]);
    }
  }

  /** The checksum is the word whose inverted bits are the remainder of the message times x^32, with the inverted
      bits of c added to its first 32 bits, divided by the polynomial. */
  lemma CrcIsRemainder(c: Word, buf: seq<byte>, r: Word)
    ensures r == Crc(c, buf) <==>
            Negated(BitsOf(r, 32)) == Remainder(AddAtFront(Message(buf) + ZeroBits(32), Negated(BitsOf(c, 32))))
  {
    var s := Register(Flip(c), Message(buf));
    RegisterIsRemainder(Flip(c), Message(buf));
    AllBitsDetermine(Flip(r), s);
    BitsOfFlip(c);
    BitsOfFlip(r);
    FlipTwice(s);
    FlipTwice(r);
    hide Flip, BitsOf, Register, Remainder, AddAtFront, Message, ZeroBits, Negated;
  }

  // ---- what the checksum detects ----

  lemma {:induction false} HalvedZero(n: nat)
    ensures Halved(0, n) == 0
    decreases n
  {
    ZeroParts();
    hide Half;
    if n > 0 {
      HalvedZero(n - 1);
    }
  }

  lemma TopBitClear(w: Word, n: nat)
    requires n <= 31 && Halved(w, n) == 0
    ensures w >> 31 == 0
  {
    hide *;
    HalvedTwice(w, n, 31 - n);
    HalvedZero(31 - n);
    HalvedBy31(w);
  }

  function Doubled(w: Word, bit: bool): Word
  {
    (w << 1) | (if bit then 1 else 0)
  }

  lemma DoubledParts(w: Word, bit: bool)
    requires w >> 31 == 0
    ensures Half(Doubled(w, bit)) == w && Low(Doubled(w, bit)) == bit
  {
  }

  lemma {:induction false} WordOfBits(b: Bits) returns (w: Word)
    requires |b| <= 32
    ensures BitsOf(w, |b|) == b && Halved(w, |b|) == 0
    decreases |b|
  {
    if b == [] {
      w := 0;
    } else {
      var rest := WordOfBits(b[1..]);
      TopBitClear(rest, |b| - 1);
      DoubledParts(rest, b[0]);
      w := Doubled(rest, b[0]);
      hide Half, Low, Doubled;
    }
  }

  lemma FlipInjective(a: Word, b: Word)
    requires Flip(a) == Flip(b)
    ensures a == b
  {
  }

  /** From the same register, different strings of at most 32 bits lead to different registers. */
  lemma ShortStringsDiffer(t: Word, x: Bits, y: Bits)
    requires |x| == |y| <= 32 && Register(t, x) == Register(t, y)
    ensures x == y
  {
    hide *;
    var a := WordOfBits(x);
    var b := WordOfBits(y);
    FeedBits(t, a, |x|);
    FeedBits(t, b, |x|);
    ShiftNInjective(Sum(t, a), Sum(t, b), |x|);
    SumCancels(t, a, b);
  }

  lemma SameOctet(a: byte, b: byte)
    requires BitsOf(a as bv32, 8) == BitsOf(b as bv32, 8)
    ensures a == b
  {
    hide *;
    OctetFits(a);
    OctetFits(b);
    BitsDetermine(a as bv32, b as bv32, 8);
  }

  lemma {:induction false} SameMessage(a: seq<byte>, b: seq<byte>)
    requires Message(a) == Message(b)
    ensures a == b
  {
    hide BitsOf;
    if a == [] || b == [] {
      assert |Message(a)| == 8 * |a| && |Message(b)| == 8 * |b|;
    } else {
      var m := Message(a);
      assert m[..8] == BitsOf(a[0] as bv32, 8) && m[8..] == Message(a[1..]);
      assert m[..8] == BitsOf(b[0] as bv32, 8) && m[8..] == Message(b[1..]);
      SameOctet(a[0], b[0]);
      SameMessage(a[1..], b[1..]);
      assert a == [a[0]] + a[1..] && b == [b[0]] + b[1..];
    }
  }

  lemma SameRegister(s: Word, a: Bits, x: Bits, y: Bits, z: Bits)
    requires |x| == |y| <= 32 && Register(s, a + x + z) == Register(s, a + y + z)
    ensures x == y
  {
    hide *;
    RegisterOfConcatenation(s, a + x, z);
    RegisterOfConcatenation(s, a + y, z);
    RegisterOfConcatenation(s, a, x);
    RegisterOfConcatenation(s, a, y);
    var t := Register(s, a);
    RegisterInjective(Register(t, x), Register(t, y), z);
    ShortStringsDiffer(t, x, y);
  }

  /** Two different buffers of one length whose bits agree outside 32 consecutive places
      never have the same checksum. */
  lemma BurstDetected(c: Word, a: seq<byte>, b: seq<byte>, p: nat)
    requires |a| == |b| && a != b
    requires forall i :: 0 <= i < 8 * |a| && !(p <= i < p + 32) ==> Message(a)[i] == Message(b)[i]
    ensures Crc(c, a) != Crc(c, b)
  {
    hide Message, Register, Flip;
    var m, n := Message(a), Message(b);
    if Crc(c, a) == Crc(c, b) {
      FlipInjective(Register(Flip(c), m), Register(Flip(c), n));
      hide *;
      var before, x, y, after := Window(m, n, p);
      SameRegister(Flip(c), before, x, y, after);
      SameMessage(a, b);
    }
  }

  /** Strings of bits that agree outside 32 consecutive places differ in one part of at most 32 bits. */
  lemma Window(m: Bits, n: Bits, p: nat) returns (before: Bits, x: Bits, y: Bits, after: Bits)
    requires |m| == |n|
    requires forall i :: 0 <= i < |m| && !(p <= i < p + 32) ==> m[i] == n[i]
    ensures m == before + x + after && n == before + y + after && |x| == |y| <= 32
  {
    var lo := if p < |m| then p else |m|;
    var hi := if p + 32 < |m| then p + 32 else |m|;
    before, x, y, after := m[..lo], m[lo..hi], n[lo..hi], m[hi..];
    assert n[..lo] == before && n[hi..] == after;
    ThreeParts(m, lo, hi);
    ThreeParts(n, lo, hi);
  }

  lemma ThreeParts(m: Bits, lo: nat, hi: nat)
    requires lo <= hi <= |m|
    ensures m == m[..lo] + m[lo..hi] + m[hi..]
  {
  }

  /** In octets: a change inside four consecutive octets is always detected. */
  lemma WindowDetected(c: Word, a: seq<byte>, x: seq<byte>, y: seq<byte>, z: seq<byte>)
    requires |x| == |y| <= 4 && x != y
    ensures Crc(c, a + x + z) != Crc(c, a + y + z)
  {
    hide Message, Crc;
    MessageOfConcatenation(a + x, z);
    MessageOfConcatenation(a + y, z);
    MessageOfConcatenation(a, x);
    MessageOfConcatenation(a, y);
    assert (a + x + z)[|a|..|a| + |x|] == x && (a + y + z)[|a|..|a| + |y|] == y;
    BurstDetected(c, a + x + z, a + y + z, 8 * |a|);
  }

  class Checksum {
    // Built at the first call and kept
    const table: array<Word>
    var haveTable: bool

    ghost predicate Valid()
      reads this, table
    {
      table.Length == 256 && (haveTable ==> TableFilled(256))
    }

    ghost predicate TableFilled(n: nat)
      requires n <= table.Length && n <= 256
      reads table
    {
      forall i :: 0 <= i < n ==> table[i] == Entry(ByteOf(i))
    }

    constructor ()
      ensures Valid() && fresh(table)
    {
      table := new Word[256];
      haveTable := false;
    }

    method FillTable()
      requires table.Length == 256
      modifies table
      ensures TableFilled(256)
    {
      hide ByteOf;
      for i := 0 to 256
        invariant TableFilled(i)
      {
        var rem := ByteOf(i) as bv32;
        for j := 0 to 8
          invariant ShiftN(rem, 8 - j) == Entry(ByteOf(i))
        {
          if rem & 1 == 1 {
            rem := rem >> 1;
            rem := rem ^ 0xedb88320;
          } else {
            rem := rem >> 1;
          }
        }
        assert ShiftN(rem, 0) == rem;
        table[i] := rem;
      }
    }

    method Compute(c: Word, buf: seq<byte>) returns (r: Word)
      requires Valid()
      modifies this, table
      ensures Valid() && r == Crc(c, buf)
    {
      if !haveTable {
        FillTable();
        haveTable := true;
      }
      var crc := Flip(c);
      ghost var start := crc;
      RegisterOfNothing(start);
      assert buf[..0] == [];
      hide Flip, Register, Message, BitsOf, Index, Update, Entry, ByteOf, ByteValue;
      for p := 0 to |buf|
        invariant Valid() && haveTable
        invariant crc == Register(start, Message(buf[..p]))
      {
        var octet := buf[p];
        RegisterOfNext(start, buf, p);
        ByteOfValue(Index(crc, octet));
        crc := Update(crc, table[ByteValue(Index(crc, octet))]);
      }
      assert buf[..|buf|] == buf;
      r := Flip(crc);
    }
  }
}
