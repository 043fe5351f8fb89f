/** Logging in: the client sends the length of its password and the password under the shared key;
    the server compares the MD5 hash of what it decrypts with the hash in a file. */
module Auth {
  import opened Bytes
  import opened Cipher
  import opened Jcamsys
  import KeyFile
  import Md5
  import R = Rfc1321

  const JC_MIN_PASSWORD_LEN: nat := 8
  const JC_MAX_PASSWORD_LEN: nat := 64

  /** The hash of a string, fed in pieces of 512 octets. */
  method DigestOf(str: seq<byte>) returns (digest: seq<byte>)
    ensures digest == R.Digest(str)
  {
    hide *;
    var c := new Md5.Context();
    var length, rest := |str|, str;
    NothingAdded(str);
    while length > 0
      invariant c.Valid() && fresh(c) && fresh(c.buffer)
      invariant (length == |rest| && str == c.fed + rest) || (length <= 0 && c.fed == str)
    {
      if length > 512 {
        Split(c.fed, rest, 512);
        c.Update(rest[..512]);
        rest := rest[512..];
      } else {
        c.Update(rest);
      }
      length := length - 512;
    }
    NothingAdded(c.fed);
    digest := c.Final();
  }

  lemma NothingAdded(s: seq<byte>)
    ensures [] + s == s && s + [] == s
  {
  }

  lemma Split(s: seq<byte>, t: seq<byte>, k: nat)
    requires k <= |t|
    ensures s + t == (s + t[..k]) + t[k..]
  {
  }

  /** "%02X" for each octet of the digest. */
  method Str2md5(str: seq<byte>) returns (md: string)
    ensures md == KeyFile.HexOf(R.Digest(str)) && |md| == 32
  {
    hide R.Digest;
    var digest := DigestOf(str);
    md := "";
    for n := 0 to 16
      invariant md == KeyFile.HexOf(digest[..n])
    {
      HexOfConcatenation(digest[..n], digest[n]);
      assert digest[..n] + [digest[n]] == digest[..n + 1];
      md := md + KeyFile.Hex(digest[n]);
    }
    assert digest[..16] == digest;
  }

  lemma {:induction false} HexOfConcatenation(bs: seq<byte>, b: byte)
    ensures KeyFile.HexOf(bs + [b]) == KeyFile.HexOf(bs) + KeyFile.Hex(b)
  {
    hide KeyFile.Hex;
    if bs == [] {
      assert [b][1..] == [] && KeyFile.HexOf([b]) == KeyFile.Hex(b) + "";
    } else {
      HexOfConcatenation(bs[1..], b);
      assert (bs + [b])[1..] == bs[1..] + [b];
    }
  }

  // ---- the server reads a password ----

  /** What a read of one octet finds. */
  datatype Event = Octet(b: byte) | Nothing | HungUp

  /** A non-blocking connection; after the last event nothing more comes. */
  class Connection {
    var events: seq<Event>
    var open: bool

    method Read() returns (r: int, b: byte)
      modifies `events
      ensures old(events) == [] ==> r == -1 && events == []
      ensures old(events) != [] ==> events == old(events)[1..]
      ensures old(events) != [] ==>
                match old(events)[0]
                case Octet(o) => r == 1 && b == o
                case Nothing => r == -1
                case HungUp => r == 0
    {
      r, b := -1, 0;
      if events != [] {
        match events[0] {
          case Octet(o) => r, b := 1, o;
          case Nothing =>
          case HungUp => r := 0;
        }
        events := events[1..];
      }
    }
  }

  /** The result of reading a password: its length, or an error. */
  datatype Login = Login(r: int, pw: seq<byte>)

  /** Waiting for the length: every attempt costs a unit of time, the successful one too. */
  function LengthRead(key: Key, events: seq<Event>, tout: int, size: nat): Login
    requires Fits(key) && key.keylength > 0
    decreases |events|
  {
    if events == [] then Login(JC_ERR_TIMEOUT, [])
    else
      match events[0]
      case HungUp => Login(JC_ERR_READ_FAILED, [])
      case Nothing => if tout <= 1 then Login(JC_ERR_TIMEOUT, []) else LengthRead(key, events[1..], tout - 1, size)
      case Octet(l) =>
        if tout <= 1 then Login(JC_ERR_TIMEOUT, [])
        else if ByteValue(l) < JC_MIN_PASSWORD_LEN || ByteValue(l) > JC_MAX_PASSWORD_LEN then Login(JC_ERR, [])
        else PasswordRead(key, events[1..], tout - 1, size, ByteValue(l), [])
  }

  /** The password, of which `got` has come: only failed attempts cost time. */
  function PasswordRead(key: Key, events: seq<Event>, tout: int, size: nat, l: nat, got: seq<byte>): Login
    requires Fits(key) && key.keylength > 0
    decreases |events|
  {
    if events == [] then Login(JC_ERR_TIMEOUT, [])
    else
      match events[0]
      case HungUp => Login(JC_ERR_READ_FAILED, [])
      case Nothing =>
        if tout <= 1 then Login(JC_ERR_TIMEOUT, []) else PasswordRead(key, events[1..], tout - 1, size, l, got)
      case Octet(b) =>
        if |got| >= size then Login(JC_ERR_READ_FAILED, [])
        else
          var more := got + [b ^ KeyAt(key, |got|)];
          if |more| >= l then Login(|more|, more) else PasswordRead(key, events[1..], tout, size, l, more)
  }

  method CryptReadPass(key: Key, fd: Connection, pw: array<byte>, timeoutms: int) returns (r: int)
    requires Fits(key) && key.keylength > 0
    modifies fd, pw
    ensures var login := LengthRead(key, old(fd.events), timeoutms, pw.Length);
            && r == login.r && (r > 0 ==> r == |login.pw| <= pw.Length && pw[..r] == login.pw)
    ensures r > 0 ==> forall i :: r <= i < pw.Length ==> pw[i] == 0
    ensures fd.open == (old(fd.open) && r != JC_ERR_READ_FAILED)
  {
    var l, tout;
    r, l, tout := ReadLength(key, fd, pw, timeoutms);
    if r != 1 {
      return;
    }
    forall i | 0 <= i < pw.Length {
      pw[i] := 0;
    }
    r := ReadPassword(key, fd, pw, tout, l);
  }

  /** r is 1 with a length in l and the time that is left, or the error. */
  method ReadLength(key: Key, fd: Connection, ghost pw: array<byte>, timeoutms: int) returns (r: int, l: nat, tout: int)
    requires Fits(key) && key.keylength > 0
    modifies fd
    ensures r == 1 || r < 0
    ensures LengthRead(key, old(fd.events), timeoutms, pw.Length) ==
            if r == 1 then PasswordRead(key, fd.events, tout, pw.Length, l, []) else Login(r, [])
    ensures r == 1 ==> JC_MIN_PASSWORD_LEN <= l <= JC_MAX_PASSWORD_LEN && tout > 0
    ensures fd.open == (old(fd.open) && r != JC_ERR_READ_FAILED)
  {
    hide PasswordRead;
    r, l, tout := -1, 0, timeoutms;
    var o: byte := 0;
    while true
      invariant LengthRead(key, fd.events, tout, pw.Length) == LengthRead(key, old(fd.events), timeoutms, pw.Length)
      invariant fd.open == old(fd.open)
      decreases |fd.events|, tout
    {
      r, o := fd.Read();
      if r == 0 {
        fd.open := false;
        r := JC_ERR_READ_FAILED;
        return;
      }
      tout := tout - 1;
      if !(tout > 0 && r != 1) {
        break;
      }
    }
    if tout <= 0 {
      r := JC_ERR_TIMEOUT;
      return;
    }
    l := ByteValue(o);
    if l < JC_MIN_PASSWORD_LEN || l > JC_MAX_PASSWORD_LEN {
      r := JC_ERR;
    }
  }

  /** One attempt to read an octet of the password. */
  lemma PasswordStep(key: Key, events: seq<Event>, tout: int, size: nat, l: nat, got: seq<byte>)
    requires Fits(key) && key.keylength > 0
    ensures var login := PasswordRead(key, events, tout, size, l, got);
            if events == [] then login == Login(JC_ERR_TIMEOUT, [])
            else
              match events[0]
              case HungUp => login == Login(JC_ERR_READ_FAILED, [])
              case Nothing =>
                login == if tout <= 1 then Login(JC_ERR_TIMEOUT, [])
                         else PasswordRead(key, events[1..], tout - 1, size, l, got)
              case Octet(b) =>
                var more := got + [b ^ KeyAt(key, |got|)];
                login == if |got| >= size then Login(JC_ERR_READ_FAILED, [])
                         else if |more| >= l then Login(|more|, more)
                         else PasswordRead(key, events[1..], tout, size, l, more)
  {
  }

  method ReadPassword(key: Key, fd: Connection, pw: array<byte>, timeoutms: int, l: nat) returns (r: int)
    requires Fits(key) && key.keylength > 0 && l > 0 && timeoutms > 0
    modifies fd, pw
    ensures var login := PasswordRead(key, old(fd.events), timeoutms, pw.Length, l, []);
            && r == login.r && (r > 0 ==> r == |login.pw| <= pw.Length && pw[..r] == login.pw)
    ensures r > 0 ==> forall i :: r <= i < pw.Length ==> pw[i] == old(pw[i])
    ensures fd.open == (old(fd.open) && r != JC_ERR_READ_FAILED)
  {
    hide KeyAt, PasswordRead;
    var idx, tout := 0, timeoutms;
    assert pw[..0] == [];
    while true
      invariant 0 <= idx < l && idx <= pw.Length && tout > 0
      invariant fd.open == old(fd.open) && forall i :: idx <= i < pw.Length ==> pw[i] == old(pw[i])
      invariant PasswordRead(key, fd.events, tout, pw.Length, l, pw[..idx]) ==
                PasswordRead(key, old(fd.events), timeoutms, pw.Length, l, [])
      decreases |fd.events|, tout
    {
      ghost var got := pw[..idx];
      PasswordStep(key, fd.events, tout, pw.Length, l, got);
      PasswordStep(key, [], tout - 1, pw.Length, l, got);
      var b;
      r, b := fd.Read();
      if r == 0 {
        fd.open := false;
        return JC_ERR_READ_FAILED;
      }
      if r == 1 {
        b := b ^ KeyAt(key, idx);
        if idx < pw.Length {
          pw[idx] := b;
          idx := idx + 1;
          assert pw[..idx] == got + [b];
        } else {
          fd.open := false;
          return JC_ERR_READ_FAILED;
        }
      } else {
        tout := tout - 1;
        if tout <= 0 {
          return JC_ERR_TIMEOUT;
        }
      }
      if idx >= l {
        break;
      }
    }
    r := idx;
  }

  // ---- when a password arrives ----

  /** The octets that come before the other side hangs up. */
  function Octets(events: seq<Event>): seq<byte>
  {
    if events == [] then []
    else
      match events[0]
      case HungUp => []
      case Nothing => Octets(events[1..])
      case Octet(b) => [b] + Octets(events[1..])
  }

  /** The failed attempts before the n-th of them. */
  function Waits(events: seq<Event>, n: nat): nat
    requires n <= |Octets(events)|
  {
    if n == 0 then 0
    else
      match events[0]
      case Nothing => 1 + Waits(events[1..], n)
      case Octet(_) => Waits(events[1..], n - 1)
  }

  /** The other side hangs up some time. */
  predicate HangsUp(events: seq<Event>)
  {
    HungUp in events
  }

  /** All failed attempts before that. */
  function AllWaits(events: seq<Event>): nat
  {
    if events == [] || events[0] == HungUp then 0
    else (if events[0] == Nothing then 1 else 0) + AllWaits(events[1..])
  }

  /** Exclusive-or with the key from its k-th octet on. */
  function XoredFrom(key: Key, s: seq<byte>, k: nat): (t: seq<byte>)
    requires Fits(key) && key.keylength > 0
    ensures |t| == |s|
  {
    if s == [] then [] else [s[0] ^ KeyAt(key, k)] + XoredFrom(key, s[1..], k + 1)
  }

  lemma {:induction false} XoredFromAt(key: Key, s: seq<byte>, k: nat, i: nat)
    requires Fits(key) && key.keylength > 0 && i < |s|
    ensures XoredFrom(key, s, k)[i] == s[i] ^ KeyAt(key, k + i)
  {
    hide KeyAt;
    if i > 0 {
      XoredFromAt(key, s[1..], k + 1, i - 1);
    }
  }

  lemma XoredFromStart(key: Key, s: seq<byte>)
    requires Fits(key) && key.keylength > 0
    ensures XoredFrom(key, s, 0) == Xored(key, s)
  {
    hide KeyAt;
    forall i | 0 <= i < |s|
      ensures XoredFrom(key, s, 0)[i] == Xored(key, s)[i]
    {
      XoredFromAt(key, s, 0, i);
    }
  }

  /** An octet of the password comes. */
  lemma OctetComes(key: Key, b: byte, rest: seq<Event>, n: nat, got: seq<byte>)
    requires Fits(key) && key.keylength > 0 && n > 0
    ensures var events := [Octet(b)] + rest;
            n <= |Octets(events)| <==> n - 1 <= |Octets(rest)|
    ensures var events := [Octet(b)] + rest;
            n <= |Octets(events)| ==>
              && Waits(events, n) == Waits(rest, n - 1)
              && got + XoredFrom(key, Octets(events)[..n], |got|)
              == got + [b ^ KeyAt(key, |got|)] + XoredFrom(key, Octets(rest)[..n - 1], |got| + 1)
  {
    var events := [Octet(b)] + rest;
    assert events[1..] == rest;
    assert Octets(events) == [b] + Octets(rest);
    if n <= |Octets(events)| {
      assert Waits(events, n) == Waits(rest, n - 1);
      hide *;
      TakeFirst(b, Octets(rest), n);
      XoredFromNext(key, b, Octets(rest)[..n - 1], got);
    }
  }

  lemma TakeFirst(b: byte, s: seq<byte>, n: nat)
    requires 0 < n <= |s| + 1
    ensures ([b] + s)[..n] == [b] + s[..n - 1]
  {
  }

  lemma NothingComes(events: seq<Event>, n: nat)
    requires events != [] && events[0] == Nothing && n > 0
    ensures Octets(events) == Octets(events[1..])
    ensures n <= |Octets(events)| ==> Waits(events, n) == 1 + Waits(events[1..], n)
    ensures HangsUp(events) == HangsUp(events[1..]) && AllWaits(events) == 1 + AllWaits(events[1..])
  {
    HangsUpLater(events);
  }

  lemma HangsUpLater(events: seq<Event>)
    requires events != [] && events[0] != HungUp
    ensures HangsUp(events) == HangsUp(events[1..])
  {
    if HungUp in events {
      var i :| 0 <= i < |events| && events[i] == HungUp;
      assert events[1..][i - 1] == HungUp;
    }
  }

  lemma NoMoreOctets(events: seq<Event>)
    requires events == [] || events[0] == HungUp
    ensures Octets(events) == [] && AllWaits(events) == 0 && (HangsUp(events) <==> events != [])
  {
  }

  lemma NoWait(events: seq<Event>)
    requires events != [] && events[0].Octet?
    ensures AllWaits(events) == AllWaits(events[1..]) && HangsUp(events) == HangsUp(events[1..])
  {
    HangsUpLater(events);
  }

  /** How the attempt ends when fewer than n octets come, or not in time: with a hang-up, or with the time. */
  function Failure(events: seq<Event>, n: nat, tout: int): int
  {
    if HangsUp(events) && |Octets(events)| < n && AllWaits(events) < tout then JC_ERR_READ_FAILED else JC_ERR_TIMEOUT
  }

  lemma NothingToCome(key: Key, rest: seq<Event>, got: seq<byte>)
    requires Fits(key) && key.keylength > 0
    ensures Waits(rest, 0) == 0 && got + XoredFrom(key, Octets(rest)[..0], |got|) == got
  {
  }

  /** The rest of a password is read exactly when it comes in time. */
  lemma {:induction false} PasswordReadIff(
      key: Key, events: seq<Event>, tout: int, size: nat, l: nat, got: seq<byte>)
    requires Fits(key) && key.keylength > 0 && |got| < l <= size && tout > 0
    ensures var n := l - |got|;
            var login := PasswordRead(key, events, tout, size, l, got);
            if n <= |Octets(events)| && Waits(events, n) < tout
            then login == Login(l, got + XoredFrom(key, Octets(events)[..n], |got|))
            else login == Login(Failure(events, n, tout), [])
    decreases |events|
  {
    hide KeyAt, PasswordRead, Octets, Waits, XoredFrom, HangsUp, AllWaits;
    PasswordStep(key, events, tout, size, l, got);
    if events == [] {
      NoMoreOctets(events);
    } else {
      match events[0]
      case HungUp =>
        NoMoreOctets(events);
      case Nothing =>
        NothingComes(events, l - |got|);
        if tout > 1 {
          PasswordReadIff(key, events[1..], tout - 1, size, l, got);
        }
      case Octet(b) =>
        var rest, more := events[1..], got + [b ^ KeyAt(key, |got|)];
        assert events == [Octet(b)] + rest;
        NoWait(events);
        OctetComes(key, b, rest, l - |got|, got);
        if |more| < l {
          PasswordReadIff(key, rest, tout, size, l, more);
        } else {
          NothingToCome(key, rest, more);
        }
    }
  }

  lemma XoredFromNext(key: Key, b: byte, s: seq<byte>, got: seq<byte>)
    requires Fits(key) && key.keylength > 0
    ensures got + XoredFrom(key, [b] + s, |got|) == got + [b ^ KeyAt(key, |got|)] + XoredFrom(key, s, |got| + 1)
  {
    hide KeyAt;
    assert ([b] + s)[0] == b && ([b] + s)[1..] == s;
    var x, rest := b ^ KeyAt(key, |got|), XoredFrom(key, s, |got| + 1);
    assert XoredFrom(key, [b] + s, |got|) == [x] + rest;
    hide *;
    Append(got, x, rest);
  }

  lemma Append(s: seq<byte>, x: byte, t: seq<byte>)
    ensures s + ([x] + t) == s + [x] + t
  {
  }

  /** A login succeeds exactly when a length in the range comes, as many octets follow before the
      other side hangs up, and fewer attempts fail than there is time for. */
  predicate Arrives(events: seq<Event>, timeoutms: int)
  {
    var octets := Octets(events);
    octets != [] &&
    var l := ByteValue(octets[0]);
    && JC_MIN_PASSWORD_LEN <= l <= JC_MAX_PASSWORD_LEN && 1 + l <= |octets|
    && Waits(events, 1 + l) + 1 < timeoutms
  }

  lemma ArrivesLater(events: seq<Event>, timeoutms: int)
    requires events != [] && events[0] == Nothing
    ensures Octets(events) == Octets(events[1..]) &&
            (Arrives(events, timeoutms) <==> Arrives(events[1..], timeoutms - 1))
  {
    var octets := Octets(events[1..]);
    assert Octets(events) == octets;
    hide ByteValue, Octets;
    if octets != [] && 1 + ByteValue(octets[0]) <= |octets| {
      var n := 1 + ByteValue(octets[0]);
      assert Waits(events, n) == 1 + Waits(events[1..], n);
    }
    hide Waits;
  }

  lemma ArrivesNow(events: seq<Event>, b: byte, timeoutms: int)
    requires events != [] && events[0] == Octet(b)
    ensures Octets(events) == [b] + Octets(events[1..])
    ensures Arrives(events, timeoutms) <==>
              && JC_MIN_PASSWORD_LEN <= ByteValue(b) <= JC_MAX_PASSWORD_LEN && ByteValue(b) <= |Octets(events[1..])|
              && Waits(events[1..], ByteValue(b)) + 1 < timeoutms
  {
    hide ByteValue;
  }

  lemma LengthComes(key: Key, b: byte, rest: seq<Event>, tout: int, size: nat)
    requires Fits(key) && key.keylength > 0 && size >= JC_MAX_PASSWORD_LEN && tout > 1
    requires JC_MIN_PASSWORD_LEN <= ByteValue(b) <= JC_MAX_PASSWORD_LEN
    ensures var l := ByteValue(b);
            var login := PasswordRead(key, rest, tout - 1, size, l, []);
            if l <= |Octets(rest)| && Waits(rest, l) < tout - 1
            then login == Login(l, Xored(key, ([b] + Octets(rest))[1..1 + l]))
            else login == Login(Failure(rest, l, tout - 1), [])
  {
    var l := ByteValue(b);
    PasswordReadIff(key, rest, tout - 1, size, l, []);
    if l <= |Octets(rest)| {
      var t := Octets(rest)[..l];
      XoredFromStart(key, t);
      hide *;
      Behind(b, Octets(rest), l);
      NothingAdded(Xored(key, t));
    }
  }

  lemma Behind(b: byte, s: seq<byte>, l: nat)
    requires l <= |s|
    ensures ([b] + s)[1..1 + l] == s[..l]
  {
    assert forall i :: 0 <= i < l ==> ([b] + s)[1..1 + l][i] == s[i];
  }

  /** How a login ends that does not arrive. */
  function LoginFailure(events: seq<Event>, timeoutms: int): (r: int)
    ensures r < 0
  {
    var octets := Octets(events);
    if octets == [] then
      if HangsUp(events) && (AllWaits(events) < timeoutms || AllWaits(events) == 0)
      then JC_ERR_READ_FAILED else JC_ERR_TIMEOUT
    else
      var l := ByteValue(octets[0]);
      if Waits(events, 1) + 1 >= timeoutms then JC_ERR_TIMEOUT
      else if l < JC_MIN_PASSWORD_LEN || l > JC_MAX_PASSWORD_LEN then JC_ERR
      else if HangsUp(events) && |octets| < 1 + l && AllWaits(events) + 1 < timeoutms then JC_ERR_READ_FAILED
      else JC_ERR_TIMEOUT
  }

  lemma FailsLater(events: seq<Event>, timeoutms: int)
    requires events != [] && events[0] == Nothing
    ensures LoginFailure(events, timeoutms) ==
            if timeoutms <= 1 then JC_ERR_TIMEOUT else LoginFailure(events[1..], timeoutms - 1)
  {
    NothingComes(events, 1);
    hide ByteValue, Octets, HangsUp, AllWaits, Waits;
  }

  lemma FailsNow(events: seq<Event>, b: byte, timeoutms: int)
    requires events != [] && events[0] == Octet(b)
    ensures var rest, l := events[1..], ByteValue(b);
            LoginFailure(events, timeoutms) ==
            if timeoutms <= 1 then JC_ERR_TIMEOUT
            else if l < JC_MIN_PASSWORD_LEN || l > JC_MAX_PASSWORD_LEN then JC_ERR
            else Failure(rest, l, timeoutms - 1)
  {
    NoWait(events);
    assert Octets(events) == [b] + Octets(events[1..]) && Waits(events, 1) == Waits(events[1..], 0);
    hide ByteValue, Octets, HangsUp, AllWaits;
  }

  lemma {:induction false} LengthReadIff(key: Key, events: seq<Event>, tout: int, size: nat)
    requires Fits(key) && key.keylength > 0 && size >= JC_MAX_PASSWORD_LEN
    ensures var login := LengthRead(key, events, tout, size);
            if Arrives(events, tout) then
              var l := ByteValue(Octets(events)[0]);
              login == Login(l, Xored(key, Octets(events)[1..1 + l]))
            else login == Login(LoginFailure(events, tout), [])
    decreases |events|
  {
    hide Xored, PasswordRead, Waits, ByteValue, HangsUp, AllWaits, Failure;
    if events == [] || events[0] == HungUp {
      NoMoreOctets(events);
    } else {
      match events[0]
      case Nothing =>
        ArrivesLater(events, tout);
        FailsLater(events, tout);
        if tout > 1 {
          LengthReadIff(key, events[1..], tout - 1, size);
        }
      case Octet(b) =>
        ArrivesNow(events, b, tout);
        FailsNow(events, b, tout);
        hide Arrives, Octets, LoginFailure;
        if tout > 1 && JC_MIN_PASSWORD_LEN <= ByteValue(b) <= JC_MAX_PASSWORD_LEN {
          LengthComes(key, b, events[1..], tout, size);
        }
    }
  }

  /** A password of 8 to 64 octets under a usable key is recovered by the server, whatever the timing,
      exactly when the time is not up; otherwise the answer is an error. */
  lemma PasswordArrivesIff(key: Key, events: seq<Event>, timeoutms: int, pw: seq<byte>)
    requires Fits(key) && Usable(key) && JC_MIN_PASSWORD_LEN <= |pw| <= JC_MAX_PASSWORD_LEN
    ensures ClientSends(key, pw) <= Octets(events) ==>
              var login := LengthRead(key, events, timeoutms, JC_MAX_PASSWORD_LEN + 1);
              if Waits(events, 1 + |pw|) + 1 < timeoutms then login == Login(|pw|, pw)
              else login == Login(JC_ERR_TIMEOUT, [])
  {
    hide LengthRead, Octets, Waits, Crypted, ClientSends, ByteValue, HangsUp, AllWaits;
    if ClientSends(key, pw) <= Octets(events) {
      SentOctets(key, events, pw);
      LengthReadIff(key, events, timeoutms, JC_MAX_PASSWORD_LEN + 1);
      UsableCrypts(key, Crypted(key, pw));
      CryptedTwice(key, pw);
      if !Arrives(events, timeoutms) {
        TooLate(events, timeoutms);
      }
    }
  }

  lemma SentOctets(key: Key, events: seq<Event>, pw: seq<byte>)
    requires Fits(key) && |pw| < 256 && ClientSends(key, pw) <= Octets(events)
    ensures var octets := Octets(events);
            1 + |pw| <= |octets| && ByteValue(octets[0]) == |pw| && octets[1..1 + |pw|] == Crypted(key, pw)
  {
    hide Octets, Crypted, ByteValue, ByteOf;
    ValueOfByte(|pw|);
    StartOf(Octets(events), ByteOf(|pw|), Crypted(key, pw));
  }

  lemma StartOf(s: seq<byte>, x: byte, t: seq<byte>)
    requires [x] + t <= s
    ensures s[0] == x && s[1..1 + |t|] == t
  {
    assert s[1..1 + |t|] == s[..1 + |t|][1..];
  }

  /** What is complete but does not arrive has not come in time. */
  lemma TooLate(events: seq<Event>, timeoutms: int)
    requires !Arrives(events, timeoutms) && Octets(events) != []
    requires var l := ByteValue(Octets(events)[0]);
             JC_MIN_PASSWORD_LEN <= l <= JC_MAX_PASSWORD_LEN && 1 + l <= |Octets(events)|
    ensures LoginFailure(events, timeoutms) == JC_ERR_TIMEOUT
  {
    hide Octets, Waits, ByteValue, HangsUp, AllWaits;
  }

  lemma UsableCrypts(key: Key, s: seq<byte>)
    requires Fits(key) && Usable(key)
    ensures Crypted(key, s) == Xored(key, s)
  {
  }

  /** The length as one octet and the password as the client has encrypted it. */
  function ClientSends(key: Key, pw: seq<byte>): (s: seq<byte>)
    requires Fits(key)
    ensures |s| == 1 + |pw|
  {
    [ByteOf(|pw| % 256)] + Crypted(key, pw)
  }

  /** The server's side. `buf` holds the file, if it could be loaded, and whatever is behind it in memory. */
  method ReadComparePassphrase(key: Key, fd: Connection, loaded: bool, buf: string, timeoutms: int) returns (r: int)
    requires Fits(key) && key.keylength > 0 && |buf| >= 32
    modifies fd
    ensures var login := LengthRead(key, old(fd.events), timeoutms, JC_MAX_PASSWORD_LEN + 1);
            && (r == JC_OK <==> loaded && login.r > 0 && KeyFile.HexOf(R.Digest(login.pw)) == buf[..32])
            && (r == JC_OK || r == if loaded && login.r < 0 then login.r else JC_ERR)
  {
    if !loaded {
      return JC_ERR;
    }
    hide LengthRead, R.Digest;
    LengthReadIff(key, fd.events, timeoutms, JC_MAX_PASSWORD_LEN + 1);
    var pw := new byte[JC_MAX_PASSWORD_LEN + 1];
    var pwlen := CryptReadPass(key, fd, pw, timeoutms);
    if pwlen <= 0 {
      return pwlen;
    }
    var md := Str2md5(pw[..pwlen]);
    if md == buf[..32] {
      return JC_OK;
    }
    return JC_ERR;
  }

  // ---- the client's copy of the password ----

  // the identity is repeated along the password
  function Repeated(id: seq<byte>, i: nat): byte
    requires id != []
  {
    id[i % |id|]
  }

  /** Exclusive-or with the identity of the machine. */
  function Obfuscated(s: seq<byte>, id: seq<byte>): (t: seq<byte>)
    requires id != []
    ensures |t| == |s|
  {
    seq(|s|, i requires 0 <= i < |s| => s[i] ^ Repeated(id, i))
  }

  lemma ObfuscatedTwice(s: seq<byte>, id: seq<byte>)
    requires id != []
    ensures Obfuscated(Obfuscated(s, id), id) == s
  {
    var t := Obfuscated(Obfuscated(s, id), id);
    hide Repeated;
    assert forall i :: 0 <= i < |s| ==> t[i] == s[i] ^ Repeated(id, i) ^ Repeated(id, i) == s[i];
  }

  /** The whole way: a password that was stored obfuscated, is restored, encrypted, sent, read and decrypted
      arrives as the password exactly when the time is not up. */
  lemma StoredPasswordArrivesIff(key: Key, events: seq<Event>, timeoutms: int, pw: seq<byte>, id: seq<byte>)
    requires Fits(key) && Usable(key) && id != [] && JC_MIN_PASSWORD_LEN <= |pw| <= JC_MAX_PASSWORD_LEN
    ensures var stored := Obfuscated(pw, id);
            ClientSends(key, Obfuscated(stored, id)) <= Octets(events) ==>
              var login := LengthRead(key, events, timeoutms, JC_MAX_PASSWORD_LEN + 1);
              if Waits(events, 1 + |pw|) + 1 < timeoutms then login == Login(|pw|, pw)
              else login == Login(JC_ERR_TIMEOUT, [])
  {
    ObfuscatedTwice(pw, id);
    hide Obfuscated;
    PasswordArrivesIff(key, events, timeoutms, pw);
  }

  /** From pw to obfuscated or back; of the identity 32 octets count, and the original ends the process
      when it has no more than 4. */
  method LocallyObfuscatePassword(pw: array<byte>, obfuscated: array<byte>, len: nat, enc: bool,
      machineid: seq<byte>) returns (r: int)
    requires pw != obfuscated && len <= pw.Length && len <= obfuscated.Length && |machineid| > 4
    modifies pw, obfuscated
    ensures len < JC_MIN_PASSWORD_LEN ==>
            r == JC_ERR_BAD_PASS && pw[..] == old(pw[..]) && obfuscated[..] == old(obfuscated[..])
    ensures len >= JC_MIN_PASSWORD_LEN ==>
              var id := if |machineid| > 32 then machineid[..32] else machineid;
              && r == len && |id| == (if |machineid| < 32 then |machineid| else 32)
              && (enc ==> forall i :: 0 <= i < len ==> obfuscated[i] == old(pw[i]) ^ machineid[i % |id|])
              && (!enc ==> forall i :: 0 <= i < len ==> pw[i] == old(obfuscated[i]) ^ machineid[i % |id|])
              && (enc ==> && pw[..] == old(pw[..])
                          && obfuscated[..len] == Obfuscated(old(pw[..len]), id)
                          && obfuscated[len..] == old(obfuscated[len..]))
              && (!enc ==> && obfuscated[..] == old(obfuscated[..])
                           && pw[..len] == Obfuscated(old(obfuscated[..len]), id)
                           && pw[len..] == old(pw[len..]))
  {
    if len < JC_MIN_PASSWORD_LEN {
      return JC_ERR_BAD_PASS;
    }
    var idlen := |machineid|;
    if idlen > 32 {
      idlen := 32;
    }
    var id := machineid[..idlen];
    assert |machineid| <= 32 ==> id == machineid;
    hide Repeated;
    for i := 0 to len
      invariant enc ==> pw[..] == old(pw[..])
      invariant enc ==> forall j :: 0 <= j < i ==> obfuscated[j] == old(pw[j]) ^ Repeated(id, j)
      invariant !enc ==> obfuscated[..] == old(obfuscated[..])
      invariant !enc ==> forall j :: 0 <= j < i ==> pw[j] == old(obfuscated[j]) ^ Repeated(id, j)
      invariant forall j :: i <= j < obfuscated.Length ==> obfuscated[j] == old(obfuscated[j])
      invariant forall j :: i <= j < pw.Length ==> pw[j] == old(pw[j])
    {
      if enc {
        obfuscated[i] := pw[i] ^ Repeated(id, i);
      } else {
        pw[i] := obfuscated[i] ^ Repeated(id, i);
      }
    }
    if enc {
      assert obfuscated[..len] == Obfuscated(old(pw[..len]), id);
      assert obfuscated[len..] == old(obfuscated[len..]);
    } else {
      assert pw[..len] == Obfuscated(old(obfuscated[..len]), id);
      assert pw[len..] == old(pw[len..]);
    }
    r := len;
  }
}
