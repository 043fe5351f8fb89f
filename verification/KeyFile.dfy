/** The key file: a heading, the key length and the key in hexadecimal, 32 octets to a line. */
module KeyFile {
  import opened Bytes
  import opened Cipher
  import opened Jcamsys

  // No error code of the original: it would write past the end of the key here
  const OVERRUN := -1000

  // ---- printing ----

  const DIGITS := "0123456789ABCDEF"

  /** "%02X" */
  function Hex(b: byte): (s: string)
    ensures |s| == 2
  {
    [DIGITS[ByteValue(b) / 16], DIGITS[ByteValue(b) % 16]]
  }

  /** "%04d" of a number below 10000 */
  function Dec4(n: nat): (s: string)
    requires n < 10000
    ensures |s| == 4
  {
    [DIGITS[n / 1000], DIGITS[n / 100 % 10], DIGITS[n / 10 % 10], DIGITS[n % 10]]
  }

  /** The octets, l of which are on the current line already. */
  function HexLines(bs: seq<byte>, l: nat): string
    requires l < 32
  {
    if bs == [] then ""
    else if l == 31 then Hex(bs[0]) + "\n" + HexLines(bs[1..], 0)
    else Hex(bs[0]) + HexLines(bs[1..], l + 1)
  }

  const HEADING := "JCAM Key file, Generated "

  function FileText(key: Key, date: string): string
    requires Fits(key)
  {
    HEADING + date + "\n" + ("KL=" + Dec4(key.keylength) + "\n") + (HexLines(key.xorkey[..key.keylength], 0) + "\n")
  }

  lemma NextOctet(before: string, bs: seq<byte>, l: nat)
    requires bs != [] && l < 32
    ensures before + HexLines(bs, l) ==
            if l == 31 then before + Hex(bs[0]) + "\n" + HexLines(bs[1..], 0)
            else before + Hex(bs[0]) + HexLines(bs[1..], l + 1)
  {
    hide Hex;
    if l == 31 {
      assert before + HexLines(bs, l) == before + (Hex(bs[0]) + "\n" + HexLines(bs[1..], 0));
    }
  }

  method WriteKeyfile(key: Key, date: string) returns (file: string)
    requires Fits(key)
    ensures file == FileText(key, date)
    ensures file == HEADING + date + "\nKL=" + Dec4(key.keylength) + "\n" +
                    HexLines(key.xorkey[..key.keylength], 0) + "\n"
  {
    LinesOfFile(HEADING + date, Dec4(key.keylength), HexLines(key.xorkey[..key.keylength], 0));
    file := HEADING + date + "\n";
    file := file + ("KL=" + Dec4(key.keylength) + "\n");
    var hex := WriteHex(key);
    file := file + (hex + "\n");
  }

  lemma LinesOfFile(heading: string, kl: string, hex: string)
    ensures heading + "\n" + ("KL=" + kl + "\n") + (hex + "\n") == heading + "\nKL=" + kl + "\n" + hex + "\n"
  {
  }

  method WriteHex(key: Key) returns (hex: string)
    requires Fits(key)
    ensures hex == HexLines(key.xorkey[..key.keylength], 0)
  {
    var l := 0;
    hex := "";
    ghost var octets := key.xorkey[..key.keylength];
    assert octets[0..] == octets && "" + HexLines(octets, 0) == HexLines(octets, 0);
    for i := 0 to key.keylength
      invariant 0 <= l < 32 && hex + HexLines(octets[i..], l) == HexLines(octets, 0)
    {
      hide HexLines, Hex;
      NextOctet(hex, octets[i..], l);
      assert octets[i..][0] == key.xorkey[i] && octets[i..][1..] == octets[i + 1..];
      hex := hex + Hex(key.xorkey[i]);
      l := l + 1;
      if l == 32 {
        l := 0;
        hex := hex + "\n";
      }
    }
    assert octets[key.keylength..] == [] && hex + "" == hex;
  }

  // ---- parsing ----

  const LINESIZE: nat := 1000

  /** How much of a nonempty text one fgets() takes. */
  function LineLength(text: string, room: nat): (n: nat)
    ensures n <= |text| && n <= room
    ensures text != "" && room > 0 ==> n > 0
    ensures forall i :: 0 <= i < n - 1 ==> text[i] != '\n'
    ensures n == |text| || n == room || (n > 0 && text[n - 1] == '\n')
  {
    if text == "" || room == 0 then 0 else if text[0] == '\n' then 1 else 1 + LineLength(text[1..], room - 1)
  }

  /** Up to the first NUL. */
  function CString(line: string): (s: string)
    ensures s <= line && '\0' !in s
    ensures |s| < |line| ==> line[|s|] == '\0'
  {
    if line == "" || line[0] == '\0' then "" else [line[0]] + CString(line[1..])
  }

  predicate Space(c: char)
  {
    c == ' ' || '\t' <= c <= '\r'
  }

  predicate Digit(c: char)
  {
    '0' <= c <= '9'
  }

  predicate HexDigit(c: char)
  {
    Digit(c) || 'A' <= c <= 'F'
  }

  function HexValue(c: char): (v: nat)
    requires HexDigit(c)
    ensures v < 16
  {
    if Digit(c) then c as int - '0' as int else c as int - 'A' as int + 10
  }

  function Number(s: string, width: nat, sofar: nat): nat
    decreases width
  {
    if width == 0 || s == "" || !Digit(s[0]) then sofar else Number(s[1..], width - 1, 10 * sofar + HexValue(s[0]))
  }

  /** "%4d": without a number the variable keeps its value. */
  function ScanNumber(s: string, before: int): int
  {
    if s == "" then before
    else if Space(s[0]) then ScanNumber(s[1..], before)
    else if Digit(s[0]) then Number(s, 4, 0)
    else if |s| > 1 && Digit(s[1]) && s[0] == '-' then 0 - Number(s[1..], 3, 0) as int
    else if |s| > 1 && Digit(s[1]) && s[0] == '+' then Number(s[1..], 3, 0)
    else before
  }

  /** "%02X" of two characters from the range '0' to 'F'. */
  function ScanHex(h0: char, h1: char, before: nat): (b: nat)
    ensures before < 256 ==> b < 256
  {
    if !HexDigit(h0) then before else if !HexDigit(h1) then HexValue(h0) else 16 * HexValue(h0) + HexValue(h1)
  }

  /** The variables of the reader: kl is 0 until a length was found. */
  datatype Reading =
    | Going(gotkl: bool, kl: int, key: seq<byte>, b: nat)
    | Ended(r: int, key: seq<byte>)

  predicate Sane(st: Reading)
  {
    st.Going? ==> st.b < 256 && |st.key| <= JC_MAX_KEYSIZE && (st.gotkl ==> JC_MIN_KEYSIZE <= st.kl <= JC_MAX_KEYSIZE)
  }

  /** The characters of one line; `held` is the first of a pair. */
  function ReadDigits(line: string, held: string, st: Reading): (r: Reading)
    requires st.Going? && st.gotkl && Sane(st) && |held| <= 1
    ensures Sane(r) && (r.Going? ==> r.gotkl)
    decreases |line|
  {
    if line == "" then st
    else if !('0' <= line[0] <= 'F') then ReadDigits(line[1..], held, st)
    else if held == "" then ReadDigits(line[1..], [line[0]], st)
    else
      var b := ScanHex(held[0], line[0], st.b);
      if |st.key| == JC_MAX_KEYSIZE then Ended(OVERRUN, st.key)
      else
        var key := st.key + [ByteOf(b)];
        if |key| == st.kl then Ended(st.kl, key) else ReadDigits(line[1..], "", Going(true, st.kl, key, b))
  }

  function ReadLine(line: string, st: Reading): (r: Reading)
    requires st.Going? && Sane(st)
    ensures Sane(r)
  {
    if |line| >= 3 && line[..3] == "KL=" then
      var kl := ScanNumber(line[3..], st.kl);
      if kl < JC_MIN_KEYSIZE || kl > JC_MAX_KEYSIZE then Ended(JC_ERR, st.key) else st.(gotkl := true, kl := kl)
    else if st.gotkl then ReadDigits(line, "", st)
    else st
  }

  function ReadLines(text: string, st: Reading): (r: Reading)
    requires Sane(st)
    ensures r.Ended?
    decreases |text|
  {
    if st.Ended? then st
    else if text == "" then Ended(JC_ERR, st.key)
    else
      var n := LineLength(text, LINESIZE - 1);
      ReadLines(text[n..], ReadLine(CString(text[..n]), st))
  }

  /** A reader ends with an error, or with as many octets as the length says. */
  predicate Conclusive(st: Reading)
  {
    st.Ended? ==> st.r == JC_ERR || st.r == OVERRUN || (JC_MIN_KEYSIZE <= st.r <= JC_MAX_KEYSIZE && |st.key| == st.r)
  }

  lemma {:induction false} DigitsAreConclusive(line: string, held: string, st: Reading)
    requires st.Going? && st.gotkl && Sane(st) && |held| <= 1
    ensures Conclusive(ReadDigits(line, held, st))
    decreases |line|
  {
    hide ByteOf, ScanHex;
    if line == "" {
    } else if !('0' <= line[0] <= 'F') {
      DigitsAreConclusive(line[1..], held, st);
    } else if held == "" {
      DigitsAreConclusive(line[1..], [line[0]], st);
    } else {
      var b := ScanHex(held[0], line[0], st.b);
      if |st.key| < JC_MAX_KEYSIZE && |st.key| + 1 != st.kl {
        DigitsAreConclusive(line[1..], "", Going(true, st.kl, st.key + [ByteOf(b)], b));
      }
    }
  }

  /** Whatever the file: a positive answer is the length of a complete key. */
  lemma {:induction false} LinesAreConclusive(text: string, st: Reading)
    requires Sane(st) && Conclusive(st)
    ensures Conclusive(ReadLines(text, st))
    decreases |text|
  {
    if st.Going? && text != "" {
      NextLine(text, st);
      var n := LineLength(text, LINESIZE - 1);
      var line := CString(text[..n]);
      hide ReadLines, LineLength, CString, Sane, ScanNumber, ReadDigits;
      if st.gotkl {
        DigitsAreConclusive(line, "", st);
      }
      LinesAreConclusive(text[n..], ReadLine(line, st));
    }
  }

  /** The characters that count. */
  function Counting(line: string): string
  {
    if line == "" then "" else (if '0' <= line[0] <= 'F' then [line[0]] else "") + Counting(line[1..])
  }

  /** All others may stand anywhere in a line. */
  lemma {:induction false} OnlyCountingCharacters(line: string, held: string, st: Reading)
    requires st.Going? && st.gotkl && Sane(st) && |held| <= 1
    ensures ReadDigits(line, held, st) == ReadDigits(Counting(line), held, st)
    decreases |line|
  {
    hide ByteOf, ScanHex;
    if line != "" {
      if !('0' <= line[0] <= 'F') {
        OnlyCountingCharacters(line[1..], held, st);
        assert Counting(line) == Counting(line[1..]);
      } else {
        assert Counting(line)[0] == line[0] && Counting(line)[1..] == Counting(line[1..]);
        if held == "" {
          OnlyCountingCharacters(line[1..], [line[0]], st);
        } else {
          var b := ScanHex(held[0], line[0], st.b);
          if |st.key| < JC_MAX_KEYSIZE && |st.key| + 1 != st.kl {
            OnlyCountingCharacters(line[1..], "", Going(true, st.kl, st.key + [ByteOf(b)], b));
          }
        }
      }
    }
  }

  /** A key that is filled in place. */
  class KeyRecord {
    var keylength: nat
    const xorkey: array<byte>
    const magic: array<byte>

    ghost predicate Valid()
      reads this
    {
      xorkey.Length == JC_MAX_KEYSIZE && magic.Length == 2 && xorkey != magic
    }

    constructor ()
      ensures Valid() && fresh(xorkey) && fresh(magic)
    {
      keylength, xorkey, magic := 0, new byte[JC_MAX_KEYSIZE], new byte[2];
    }

    function Value(): Key
      reads this, xorkey, magic
    {
      Key(keylength, xorkey[..], magic[..])
    }

    ghost predicate Untouched(before: seq<byte>, kidx: nat)
      requires Valid() && |before| == JC_MAX_KEYSIZE
      reads this, xorkey
    {
      forall i :: kidx <= i < JC_MAX_KEYSIZE ==> xorkey[i] == before[i]
    }

    /** Reads hexadecimal digits from a line; r is 0 while the key is incomplete. */
    method ReadHex(line: string, kl: nat, kidx0: nat, b0: nat) returns (r: int, kidx: nat, b: nat)
      requires Valid() && kidx0 <= JC_MAX_KEYSIZE && JC_MIN_KEYSIZE <= kl <= JC_MAX_KEYSIZE && b0 < 256
      modifies xorkey
      ensures kidx <= JC_MAX_KEYSIZE && b < 256 && Untouched(old(xorkey[..]), kidx) && r in {0, kl, OVERRUN}
      ensures ReadDigits(line, "", Going(true, kl, old(xorkey[..kidx0]), b0)) ==
              if r == 0 then Going(true, kl, xorkey[..kidx], b) else Ended(r, xorkey[..kidx])
      ensures kidx0 <= kidx
    {
      r, kidx, b := 0, kidx0, b0;
      var l, ht := 0, "";
      ghost var all := ReadDigits(line, "", Going(true, kl, xorkey[..kidx], b));
      assert line[0..] == line;
      for i := 0 to |line|
        invariant kidx0 <= kidx <= JC_MAX_KEYSIZE && b < 256 && l == |ht| <= 1
        invariant Untouched(old(xorkey[..]), kidx)
        invariant ReadDigits(line[i..], ht, Going(true, kl, xorkey[..kidx], b)) == all
      {
        hide ScanHex, ByteOf;
        assert line[i..][0] == line[i] && line[i..][1..] == line[i + 1..];
        if '0' <= line[i] <= 'F' {
          assert ht == "" ==> ht + [line[i]] == [line[i]];
          ht := ht + [line[i]];
          l := l + 1;
          if l == 2 {
            l := 0;
            b := ScanHex(ht[0], ht[1], b);
            if kidx == JC_MAX_KEYSIZE {
              r := OVERRUN;
              return;
            }
            ghost var before := xorkey[..kidx];
            xorkey[kidx] := ByteOf(b);
            kidx := kidx + 1;
            assert xorkey[..kidx] == before + [ByteOf(b)];
            if kidx == kl {
              r := kl;
              return;
            }
            ht := "";
          }
        }
      }
    }

    /** One line; r is 0 while the key is incomplete. */
    method TakeLine(line: string, gotkl0: bool, kl0: nat, kidx0: nat, b0: nat)
        returns (r: int, gotkl: bool, kl: int, kidx: nat, b: nat)
      requires Valid() && kidx0 <= JC_MAX_KEYSIZE && b0 < 256 && (gotkl0 ==> JC_MIN_KEYSIZE <= kl0 <= JC_MAX_KEYSIZE)
      modifies xorkey
      ensures kidx0 <= kidx <= JC_MAX_KEYSIZE && b < 256 && Untouched(old(xorkey[..]), kidx)
      ensures r == 0 ==> kl >= 0 && (gotkl ==> JC_MIN_KEYSIZE <= kl <= JC_MAX_KEYSIZE)
      ensures ReadLine(line, Going(gotkl0, kl0, old(xorkey[..kidx0]), b0)) ==
              if r == 0 then Going(gotkl, kl, xorkey[..kidx], b) else Ended(r, xorkey[..kidx])
      ensures r <= JC_MAX_KEYSIZE
    {
      hide ReadDigits, ScanNumber;
      r, gotkl, kl, kidx, b := 0, gotkl0, kl0, kidx0, b0;
      if |line| >= 3 && line[..3] == "KL=" {
        kl := ScanNumber(line[3..], kl);
        if kl < JC_MIN_KEYSIZE || kl > JC_MAX_KEYSIZE {
          r := JC_ERR;
          return;
        }
        gotkl := true;
      } else if gotkl {
        r, kidx, b := ReadHex(line, kl, kidx, b);
      }
    }

    /** Line by line to the end of the key or of the file. */
    method ReadAll(file: string, b0: nat) returns (r: int, kidx: nat)
      requires Valid() && b0 < 256
      modifies xorkey
      ensures kidx <= JC_MAX_KEYSIZE && Untouched(old(xorkey[..]), kidx)
      ensures ReadLines(file, Going(false, 0, [], b0)) == Ended(r, xorkey[..kidx])
    {
      // what is left of the file
      var rest := file;
      var gotkl, kl: int, b: nat := false, 0, b0;
      r, kidx := 0, 0;
      ghost var st := Going(false, 0, [], b0);
      assert Sane(st) && xorkey[..0] == [];
      ghost var before := xorkey[..];
      hide ReadLines, ReadLine, LineLength, CString, Sane;
      ghost var end := ReadLines(file, st);
      while rest != ""
        invariant kidx <= JC_MAX_KEYSIZE && b < 256 && kl >= 0
        invariant gotkl ==> JC_MIN_KEYSIZE <= kl <= JC_MAX_KEYSIZE
        invariant st == Going(gotkl, kl, xorkey[..kidx], b) && Sane(st)
        invariant ReadLines(rest, st) == end
        invariant Untouched(before, kidx)
        decreases |rest|
      {
        NextLine(rest, st);
        var n := LineLength(rest, LINESIZE - 1);
        var line := CString(rest[..n]);
        r, gotkl, kl, kidx, b := TakeLine(line, gotkl, kl, kidx, b);
        st := ReadLine(line, st);
        rest := rest[n..];
        if r != 0 {
          NoMoreLines(rest, st);
          return;
        }
      }
      NoLinesLeft(rest, st);
      r := JC_ERR;
    }

    /** Answers the key length, or an error; `b0` stands for what an uninitialised variable holds. */
    method ReadKeyfile(file: string, b0: nat) returns (r: int)
      requires Valid() && b0 < 256
      modifies this, xorkey, magic
      ensures Valid()
      ensures var end := ReadLines(file, Going(false, 0, [], b0));
              && r == end.r && |end.key| <= JC_MAX_KEYSIZE
              && xorkey[..] == end.key + old(xorkey[|end.key|..])
              && if r > 0 then keylength == r && magic[..] == [MAGIC_J, MAGIC_C]
                 else keylength == old(keylength) && magic[..] == old(magic[..])
      ensures r == JC_ERR || r == OVERRUN || JC_MIN_KEYSIZE <= r <= JC_MAX_KEYSIZE
      ensures r > 0 ==> |ReadLines(file, Going(false, 0, [], b0)).key| == r
    {
      LinesAreConclusive(file, Going(false, 0, [], b0));
      var kidx;
      r, kidx := ReadAll(file, b0);
      hide ReadLines;
      if r > 0 {
        magic[0], magic[1] := MAGIC_J, MAGIC_C;
        keylength := r;
      }
      assert xorkey[kidx..] == old(xorkey[kidx..]);
    }
  }

  lemma NextLine(text: string, st: Reading)
    requires text != "" && st.Going? && Sane(st)
    ensures var n := LineLength(text, LINESIZE - 1);
            n > 0 && ReadLines(text, st) == ReadLines(text[n..], ReadLine(CString(text[..n]), st))
  {
    hide ReadLine, LineLength, CString;
  }

  lemma NoLinesLeft(text: string, st: Reading)
    requires text == "" && st.Going? && Sane(st)
    ensures ReadLines(text, st) == Ended(JC_ERR, st.key)
  {
  }

  lemma NoMoreLines(text: string, st: Reading)
    requires st.Ended?
    ensures ReadLines(text, st) == st
  {
  }

  // ---- the round trip ----

  lemma HexSurvives(b: byte, before: nat)
    ensures HexDigit(Hex(b)[0]) && HexDigit(Hex(b)[1]) && ByteOf(ScanHex(Hex(b)[0], Hex(b)[1], before)) == b
    ensures ScanHex(Hex(b)[0], Hex(b)[1], before) < 256
  {
    hide HexDigit, HexValue, ByteOf, ByteValue, ScanHex;
    var v := ByteValue(b);
    DigitsSurvive(v / 16, v % 16, before);
    ByteOfValue(b);
  }

  lemma DigitsSurvive(v0: nat, v1: nat, before: nat)
    requires v0 < 16 && v1 < 16
    ensures HexDigit(DIGITS[v0]) && HexDigit(DIGITS[v1]) && ScanHex(DIGITS[v0], DIGITS[v1], before) == 16 * v0 + v1
  {
    DigitSurvives(v0);
    DigitSurvives(v1);
    hide HexDigit, HexValue;
  }

  lemma DigitSurvives(v: nat)
    requires v < 16
    ensures HexDigit(DIGITS[v]) && HexValue(DIGITS[v]) == v && '0' <= DIGITS[v] <= 'F' && (v < 10 ==> Digit(DIGITS[v]))
  {
  }

  /** A digit has its place in DIGITS as its value, and nothing else is one. */
  lemma HexDigitIff(c: char)
    ensures HexDigit(c) <==> c in DIGITS
    ensures HexDigit(c) ==> DIGITS[HexValue(c)] == c
  {
    if Digit(c) {
      assert DIGITS[HexValue(c)] == c;
    } else if HexDigit(c) {
      assert DIGITS[HexValue(c)] == c;
    }
  }

  /** A pair that is not two digits: the first alone counts, or nothing does. */
  lemma OddPair(v: nat, c: char, before: nat)
    requires v < 16 && c !in DIGITS
    ensures ScanHex(DIGITS[v], c, before) == v
    ensures ScanHex(c, DIGITS[v], before) == before
  {
    DigitSurvives(v);
    HexDigitIff(c);
  }

  lemma NextDigit(s: string, width: nat, sofar: nat, d: nat)
    requires s != "" && width > 0 && d < 10 && s[0] == DIGITS[d]
    ensures Number(s, width, sofar) == Number(s[1..], width - 1, 10 * sofar + d)
  {
    DigitSurvives(d);
  }

  /** Four digits are a number, whatever stands behind them. */
  lemma FourDigits(d0: nat, d1: nat, d2: nat, d3: nat, rest: string, before: int)
    requires d0 < 10 && d1 < 10 && d2 < 10 && d3 < 10
    ensures ScanNumber([DIGITS[d0], DIGITS[d1], DIGITS[d2], DIGITS[d3]] + rest, before) ==
            10 * (10 * (10 * d0 + d1) + d2) + d3
  {
    var s := [DIGITS[d0], DIGITS[d1], DIGITS[d2], DIGITS[d3]] + rest;
    DigitSurvives(d0);
    assert ScanNumber(s, before) == Number(s, 4, 0);
    hide Number, ScanNumber;
    NextDigit(s, 4, 0, d0);
    NextDigit(s[1..], 3, d0, d1);
    NextDigit(s[1..][1..], 2, 10 * d0 + d1, d2);
    NextDigit(s[1..][1..][1..], 1, 10 * (10 * d0 + d1) + d2, d3);
    NoMoreDigits(s[1..][1..][1..][1..], 10 * (10 * (10 * d0 + d1) + d2) + d3);
  }

  /** A sign takes the place of one of them. */
  lemma SignAndThreeDigits(d0: nat, d1: nat, d2: nat, rest: string, before: int)
    requires d0 < 10 && d1 < 10 && d2 < 10
    ensures var digits, n := [DIGITS[d0], DIGITS[d1], DIGITS[d2]] + rest, 10 * (10 * d0 + d1) + d2;
            ScanNumber("-" + digits, before) == -n && ScanNumber("+" + digits, before) == n
  {
    var s := [DIGITS[d0], DIGITS[d1], DIGITS[d2]] + rest;
    DigitSurvives(d0);
    assert ("-" + s)[1..] == s && ("+" + s)[1..] == s;
    assert ScanNumber("-" + s, before) == 0 - Number(s, 3, 0) as int && ScanNumber("+" + s, before) == Number(s, 3, 0);
    hide Number, ScanNumber;
    NextDigit(s, 3, 0, d0);
    NextDigit(s[1..], 2, d0, d1);
    NextDigit(s[1..][1..], 1, 10 * d0 + d1, d2);
    NoMoreDigits(s[1..][1..][1..], 10 * (10 * d0 + d1) + d2);
  }

  /** One digit is enough. */
  lemma SignAndOneDigit(d: nat, rest: string, before: int)
    requires d < 10 && (rest == "" || !Digit(rest[0]))
    ensures ScanNumber("-" + [DIGITS[d]] + rest, before) == 0 - d && ScanNumber("+" + [DIGITS[d]] + rest, before) == d
    ensures ScanNumber([DIGITS[d]] + rest, before) == d
  {
    var s := [DIGITS[d]] + rest;
    DigitSurvives(d);
    assert "-" + [DIGITS[d]] + rest == "-" + s && "+" + [DIGITS[d]] + rest == "+" + s;
    assert ("-" + s)[1..] == s && ("+" + s)[1..] == s && s[1..] == rest;
    NextDigit(s, 4, 0, d);
    NextDigit(s, 3, 0, d);
    assert Number(rest, 3, d) == d && Number(rest, 2, d) == d;
    hide Number;
  }

  lemma {:induction false} SpacesAreSkipped(spaces: string, s: string, before: int)
    requires forall i :: 0 <= i < |spaces| ==> spaces[i] == ' ' || 9 <= spaces[i] as int <= 13
    ensures ScanNumber(spaces + s, before) == ScanNumber(s, before)
  {
    if spaces == "" {
      assert spaces + s == s;
    } else {
      SpacesAreSkipped(spaces[1..], s, before);
      assert (spaces + s)[0] == spaces[0] && (spaces + s)[1..] == spaces[1..] + s;
    }
  }

  lemma NoMoreDigits(s: string, sofar: nat)
    ensures Number(s, 0, sofar) == sofar
  {
  }

  lemma DecimalPlaces(n: nat)
    requires n < 10000
    ensures n / 1000 < 10 && 10 * (10 * (10 * (n / 1000) + n / 100 % 10) + n / 10 % 10) + n % 10 == n
  {
    assert 10 * (n / 1000) + n / 100 % 10 == n / 100;
  }

  lemma Dec4Survives(n: nat, rest: string, before: int)
    requires n < 10000
    ensures ScanNumber(Dec4(n) + rest, before) == n
  {
    DecimalPlaces(n);
    FourDigits(n / 1000, n / 100 % 10, n / 10 % 10, n % 10, rest, before);
  }

  /** Characters of which none ends a line or a string. */
  predicate Inline(s: string)
  {
    forall i :: 0 <= i < |s| ==> s[i] != '\n' && s[i] != '\0'
  }

  lemma {:induction false} LineOf(s: string, rest: string, room: nat)
    requires Inline(s) && |s| < room
    ensures LineLength(s + "\n" + rest, room) == |s| + 1 && CString((s + "\n" + rest)[..|s| + 1]) == s + "\n"
  {
    var text := s + "\n" + rest;
    if s == "" {
      assert text[..1] == "\n";
      assert CString("\n") == "\n" by {
        assert "\n"[1..] == "";
      }
    } else {
      LineOf(s[1..], rest, room - 1);
      assert text[1..] == s[1..] + "\n" + rest;
      assert text[..|s| + 1][1..] == text[1..][..|s|];
      assert text[..|s| + 1][0] == s[0];
      assert [s[0]] + (s[1..] + "\n") == s + "\n";
    }
  }

  /** One line of a file is taken off. */
  lemma TakeOff(s: string, rest: string, st: Reading)
    requires Inline(s) && |s| < LINESIZE - 1 && st.Going? && Sane(st)
    ensures ReadLines(s + "\n" + rest, st) == ReadLines(rest, ReadLine(s + "\n", st))
  {
    LineOf(s, rest, LINESIZE - 1);
    assert (s + "\n" + rest)[|s| + 1..] == rest;
    hide ReadLine, LineLength, CString;
  }

  function HexOf(bs: seq<byte>): (s: string)
    ensures |s| == 2 * |bs|
  {
    if bs == [] then "" else Hex(bs[0]) + HexOf(bs[1..])
  }

  lemma {:induction false} HexOfIsInline(bs: seq<byte>)
    ensures Inline(HexOf(bs))
  {
    if bs != [] {
      HexSurvives(bs[0], 0);
      HexOfIsInline(bs[1..]);
    }
  }

  /** The octets up to the end of the current line, and the lines after it. */
  lemma {:induction false} LineOfHex(bs: seq<byte>, l: nat)
    requires l < 32
    ensures HexLines(bs, l) ==
            if |bs| < 32 - l then HexOf(bs)
            else HexOf(bs[..32 - l]) + "\n" + HexLines(bs[32 - l..], 0)
    decreases |bs|
  {
    hide Hex;
    if bs != [] {
      if l == 31 {
        assert bs[..1][1..] == [] && HexOf(bs[..1]) == Hex(bs[0]) + "";
      } else {
        LineOfHex(bs[1..], l + 1);
        if |bs| >= 32 - l {
          assert bs[..32 - l][1..] == bs[1..][..31 - l] && bs[1..][31 - l..] == bs[32 - l..];
          assert Hex(bs[0]) + (HexOf(bs[1..][..31 - l]) + "\n" + HexLines(bs[32 - l..], 0))
              == Hex(bs[0]) + HexOf(bs[1..][..31 - l]) + "\n" + HexLines(bs[32 - l..], 0);
        }
      }
    }
  }

  /** The digits of octets are read back, until the key is complete. */
  lemma {:induction false} ReadHexOf(bs: seq<byte>, rest: string, kl: nat, key: seq<byte>, b: nat) returns (after: nat)
    requires JC_MIN_KEYSIZE <= kl <= JC_MAX_KEYSIZE && |key| + |bs| <= kl && |key| < kl && b < 256
    ensures after < 256
    ensures ReadDigits(HexOf(bs) + rest, "", Going(true, kl, key, b)) ==
            if |key| + |bs| == kl then Ended(kl, key + bs) else ReadDigits(rest, "", Going(true, kl, key + bs, after))
    decreases |bs|
  {
    var line := HexOf(bs) + rest;
    if bs == [] {
      after := b;
      assert line == rest && key + bs == key;
    } else {
      HexSurvives(bs[0], b);
      var h := Hex(bs[0]);
      var next := key + [bs[0]];
      assert line[0] == h[0] && line[1..][0] == h[1] && line[1..][1..] == HexOf(bs[1..]) + rest;
      assert next + bs[1..] == key + bs;
      var c := ScanHex(h[0], h[1], b);
      hide Hex, ScanHex, HexDigit, ByteOf;
      assert ReadDigits(line, "", Going(true, kl, key, b)) == ReadDigits(line[1..], [h[0]], Going(true, kl, key, b));
      if |next| == kl {
        after := 0;
        assert bs[1..] == [];
      } else {
        assert ReadDigits(line[1..], [h[0]], Going(true, kl, key, b)) ==
            ReadDigits(line[1..][1..], "", Going(true, kl, next, c));
        after := ReadHexOf(bs[1..], rest, kl, next, c);
      }
    }
  }

  lemma OctetsAreInline(bs: seq<byte>, rest: string, st: Reading)
    requires |bs| <= 32 && st.Going? && Sane(st)
    ensures ReadLines(HexOf(bs) + "\n" + rest, st) == ReadLines(rest, ReadLine(HexOf(bs) + "\n", st))
  {
    HexOfIsInline(bs);
    TakeOff(HexOf(bs), rest, st);
  }

  lemma HexIsNoLength(bs: seq<byte>, st: Reading)
    requires st.Going? && Sane(st) && st.gotkl
    ensures ReadLine(HexOf(bs) + "\n", st) == ReadDigits(HexOf(bs) + "\n", "", st)
  {
    if bs != [] {
      HexSurvives(bs[0], 0);
      assert (HexOf(bs) + "\n")[0] == Hex(bs[0])[0];
      assert (HexOf(bs) + "\n")[..3][0] == Hex(bs[0])[0] && "KL="[0] == 'K';
    }
  }

  lemma LineEnd(st: Reading)
    requires st.Going? && st.gotkl && Sane(st)
    ensures ReadDigits("\n", "", st) == st
  {
    assert "\n"[1..] == "";
  }

  lemma FirstLineOfHex(bs: seq<byte>)
    requires |bs| >= 32
    ensures HexLines(bs, 0) + "\n" == HexOf(bs[..32]) + "\n" + (HexLines(bs[32..], 0) + "\n")
  {
    hide *;
    LineOfHex(bs, 0);
    Regroup(HexOf(bs[..32]) + "\n", HexLines(bs[32..], 0), "\n");
  }

  lemma LastLineOfHex(bs: seq<byte>)
    requires |bs| < 32
    ensures HexLines(bs, 0) + "\n" == HexOf(bs) + "\n" + ""
  {
    hide *;
    LineOfHex(bs, 0);
    Regroup(HexOf(bs), "\n", "");
  }

  lemma Regroup(a: string, b: string, c: string)
    ensures (a + b) + c == a + (b + c) && (c == "" ==> b + c == b)
  {
  }

  lemma ReadHexLine(bs: seq<byte>, rest: string, kl: nat, key: seq<byte>, b: nat) returns (after: nat)
    requires JC_MIN_KEYSIZE <= kl <= JC_MAX_KEYSIZE && |key| + |bs| <= kl && |key| < kl && |bs| <= 32 && b < 256
    ensures after < 256
    ensures ReadLines(HexOf(bs) + "\n" + rest, Going(true, kl, key, b)) ==
            if |key| + |bs| == kl then Ended(kl, key + bs) else ReadLines(rest, Going(true, kl, key + bs, after))
  {
    var st := Going(true, kl, key, b);
    hide HexOf, ReadLine, ReadDigits;
    OctetsAreInline(bs, rest, st);
    HexIsNoLength(bs, st);
    after := ReadHexOf(bs, "\n", kl, key, b);
    if |key| + |bs| == kl {
      NoMoreLines(rest, Ended(kl, key + bs));
    } else {
      LineEnd(Going(true, kl, key + bs, after));
    }
  }

  /** The lines of the key are read back, whatever was read of it before. */
  lemma {:induction false} ReadHexLines(bs: seq<byte>, kl: nat, key: seq<byte>, b: nat)
    requires JC_MIN_KEYSIZE <= kl <= JC_MAX_KEYSIZE && |key| + |bs| == kl && bs != [] && b < 256
    ensures ReadLines(HexLines(bs, 0) + "\n", Going(true, kl, key, b)) == Ended(kl, key + bs)
    decreases |bs|
  {
    hide HexOf, HexLines, ReadLines;
    if |bs| < 32 {
      LastLineOfHex(bs);
      var after := ReadHexLine(bs, "", kl, key, b);
    } else if |bs| == 32 {
      FirstLineOfHex(bs);
      assert bs[..32] == bs;
      var after := ReadHexLine(bs, HexLines(bs[32..], 0) + "\n", kl, key, b);
    } else {
      FirstLineOfHex(bs);
      var after := ReadHexLine(bs[..32], HexLines(bs[32..], 0) + "\n", kl, key, b);
      ReadHexLines(bs[32..], kl, key + bs[..32], after);
      assert key + bs[..32] + bs[32..] == key + bs;
    }
  }

  lemma HeadingIsSkipped(date: string, rest: string, b0: nat)
    requires Inline(date) && |HEADING + date| < LINESIZE - 1 && b0 < 256
    ensures ReadLines(HEADING + date + "\n" + rest, Going(false, 0, [], b0)) == ReadLines(rest, Going(false, 0, [], b0))
  {
    var line := HEADING + date;
    assert Inline(HEADING);
    assert (line + "\n")[..3][0] == 'J' && "KL="[0] == 'K';
    TakeOff(line, rest, Going(false, 0, [], b0));
  }

  lemma LengthIsRead(kl: nat, rest: string, b0: nat)
    requires kl <= JC_MAX_KEYSIZE && b0 < 256
    ensures ReadLines("KL=" + Dec4(kl) + "\n" + rest, Going(false, 0, [], b0)) ==
            if kl < JC_MIN_KEYSIZE then Ended(JC_ERR, []) else ReadLines(rest, Going(true, kl, [], b0))
  {
    var line := "KL=" + Dec4(kl);
    LengthLine(kl);
    TakeOff(line, rest, Going(false, 0, [], b0));
    hide Dec4;
    assert (line + "\n")[3..] == Dec4(kl) + "\n" && (line + "\n")[..3] == "KL=";
    Dec4Survives(kl, "\n", 0);
    hide ScanNumber;
    if kl < JC_MIN_KEYSIZE {
      NoMoreLines(rest, Ended(JC_ERR, []));
    }
  }

  lemma FileLines(key: Key, date: string)
    requires Fits(key)
    ensures FileText(key, date) ==
            HEADING + date + "\n" +
            ("KL=" + Dec4(key.keylength) + "\n" + (HexLines(key.xorkey[..key.keylength], 0) + "\n"))
  {
    hide Dec4, HexLines;
    Regroup(HEADING + date + "\n", "KL=" + Dec4(key.keylength) + "\n",
        HexLines(key.xorkey[..key.keylength], 0) + "\n");
  }

  /** A file that was written is read back exactly when the key is long enough,
      whatever date is in the first line as long as one read takes that line. */
  lemma KeySurvives(key: Key, date: string, b0: nat)
    requires Fits(key) && b0 < 256
    requires Inline(date) && |HEADING + date| < LINESIZE - 1
    ensures var end := ReadLines(FileText(key, date), Going(false, 0, [], b0));
            end == if key.keylength >= JC_MIN_KEYSIZE then Ended(key.keylength, key.xorkey[..key.keylength])
                   else Ended(JC_ERR, [])
  {
    hide ReadLines, HexLines, Dec4, FileText, Inline;
    var kl := key.keylength;
    var bs := key.xorkey[..kl];
    var rest := HexLines(bs, 0) + "\n";
    HeadingIsSkipped(date, "KL=" + Dec4(kl) + "\n" + rest, b0);
    FileLines(key, date);
    LengthIsRead(kl, rest, b0);
    if kl >= JC_MIN_KEYSIZE {
      ReadHexLines(bs, kl, [], b0);
      assert [] + bs == bs;
    }
  }

  lemma LengthLine(n: nat)
    requires n < 10000
    ensures Inline("KL=" + Dec4(n))
  {
    DecimalPlaces(n);
    DigitSurvives(n / 1000);
    DigitSurvives(n / 100 % 10);
    DigitSurvives(n / 10 % 10);
    DigitSurvives(n % 10);
  }
}
