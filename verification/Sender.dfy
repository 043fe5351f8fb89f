/** The sending side: request ids, headers and the loop that writes a payload. */
module Sender {
  import opened Bytes
  import opened Jcamsys
  import opened Wire
  import Reader

  /** What one write() does: it takes at most that many octets, it would block, or the peer is gone. */
  datatype Outcome = Takes(most: nat) | Again | Gone

  /** How much of a buffer goes out: -1 as the error return. */
  function Taken(o: Outcome, len: nat): (w: int)
    ensures -1 <= w <= len
  {
    match o
    case Takes(most) => if most < len then most else len
    case Again => -1
    case Gone => -1
  }

  /** A socket to write to under an arbitrary schedule; past its end every write is taken whole. */
  class Outlet {
    var emitted: seq<byte>
    var sched: seq<Outcome>

    method Write(buf: seq<byte>) returns (w: int, gone: bool)
      modifies this
      ensures old(sched) == [] ==> w == |buf| && !gone && sched == [] && emitted == old(emitted) + buf
      ensures old(sched) != [] ==>
                && w == Taken(old(sched[0]), |buf|) && gone == old(sched[0]).Gone? && sched == old(sched)[1..]
                && emitted == if w < 0 then old(emitted) else old(emitted) + buf[..w]
    {
      if sched == [] {
        w, gone := |buf|, false;
        emitted := emitted + buf;
      } else {
        w, gone := Taken(sched[0], |buf|), sched[0].Gone?;
        sched := sched[1..];
        if w >= 0 {
          emitted := emitted + buf[..w];
        }
      }
    }

    /** The loop counts what was taken but hands over the same buffer and length every time. */
    method SockWrite(buf: seq<byte>) returns (r: int)
      modifies this
      ensures Sent(emitted, r, sched) == Written(buf, |buf|, Sent(old(emitted), 0, old(sched)))
      // what is written are portions of the buffer, until they reach its length or the peer is gone
      ensures forall k :: EndsAfter(buf, |buf|, old(sched), k) ==>
                && emitted == old(emitted) + Portions(buf, old(sched)[..k]) && sched == old(sched)[k..]
                && r == if old(sched)[k - 1].Gone? then -1 else |Portions(buf, old(sched)[..k])|
      ensures (forall k :: !EndsAfter(buf, |buf|, old(sched), k)) ==>
                && emitted == old(emitted) + Portions(buf, old(sched)) + buf && sched == []
                && r == |Portions(buf, old(sched))| + |buf|
      ensures r != -1 && buf != [] ==> |buf| <= r == |emitted| - |old(emitted)| < 2 * |buf|
    {
      hide Written, EndsAfter, Portions;
      WrittenCounts(buf, |buf|, Sent(emitted, 0, sched));
      WrittenIsPortions(buf, |buf|, Sent(emitted, 0, sched));
      var byteswritten, bytestowrite := 0, |buf|;
      while true
        invariant bytestowrite <= |buf|
        invariant Written(buf, bytestowrite, Sent(emitted, byteswritten, sched)) ==
                  Written(buf, |buf|, Sent(old(emitted), 0, old(sched)))
        decreases |sched|, bytestowrite
      {
        ghost var sofar := Sent(emitted, byteswritten, sched);
        TakenIsPortion(buf, sofar);
        if sched == [] {
          WrittenAtOnce(buf, bytestowrite, sofar);
        } else {
          WrittenStep(buf, bytestowrite, sofar);
        }
        var w, gone := Write(buf);
        if w == -1 && gone {
          return -1;
        }
        if w >= 1 {
          byteswritten := byteswritten + w;
          bytestowrite := bytestowrite - w;
        }
        if bytestowrite <= 0 {
          return byteswritten;
        }
      }
    }
  }

  datatype Sent = Sent(emitted: seq<byte>, r: int, unused: seq<Outcome>)

  /** The outcome of the loop when `todo` octets are still counted as missing. */
  function Written(buf: seq<byte>, todo: int, sofar: Sent): (s: Sent)
    requires todo <= |buf|
    decreases |sofar.unused|
  {
    var sched := sofar.unused;
    if sched == [] then Sent(sofar.emitted + buf, sofar.r + |buf|, [])
    else if sched[0].Gone? then Sent(sofar.emitted, -1, sched[1..])
    else
      var w := if sched[0].Again? then 0 else Taken(sched[0], |buf|);
      var next := Sent(sofar.emitted + buf[..w], sofar.r + w, sched[1..]);
      if todo - w <= 0 then next else Written(buf, todo - w, next)
  }

  /** What one write takes of a buffer. */
  function Portion(buf: seq<byte>, o: Outcome): (p: seq<byte>)
    ensures p <= buf
    ensures |p| == if o.Takes? && o.most < |buf| then o.most else if o.Takes? then |buf| else 0
  {
    match o
    case Takes(most) => buf[..if most < |buf| then most else |buf|]
    case _ => []
  }

  lemma TakenIsPortion(buf: seq<byte>, sofar: Sent)
    ensures sofar.unused != [] ==>
              var w, p := Taken(sofar.unused[0], |buf|), Portion(buf, sofar.unused[0]);
              && |p| == (if w < 0 then 0 else w)
              && sofar.emitted + p == if w < 0 then sofar.emitted else sofar.emitted + buf[..w]
  {
  }

  /** Past the end of the schedule. */
  lemma WrittenAtOnce(buf: seq<byte>, todo: int, sofar: Sent)
    requires todo <= |buf| && sofar.unused == []
    ensures Written(buf, todo, sofar) == Sent(sofar.emitted + buf, sofar.r + |buf|, [])
  {
  }

  /** Every write takes the beginning of the same buffer. */
  function Portions(buf: seq<byte>, sched: seq<Outcome>): seq<byte>
  {
    if sched == [] then [] else Portion(buf, sched[0]) + Portions(buf, sched[1..])
  }

  /** The k-th write is the first that finds the peer gone or brings the portions to `todo` octets. */
  ghost predicate EndsAfter(buf: seq<byte>, todo: int, sched: seq<Outcome>, k: int)
  {
    && 0 < k <= |sched|
    && (sched[k - 1].Gone? || |Portions(buf, sched[..k])| >= todo)
    && forall i :: 0 < i < k ==> GoesOn(buf, todo, sched, i)
  }

  predicate GoesOn(buf: seq<byte>, todo: int, sched: seq<Outcome>, i: nat)
    requires 0 < i <= |sched|
  {
    !sched[i - 1].Gone? && |Portions(buf, sched[..i])| < todo
  }

  lemma PortionsUpTo(buf: seq<byte>, sched: seq<Outcome>, k: nat)
    requires 0 < k <= |sched|
    ensures Portions(buf, sched[..k]) == Portion(buf, sched[0]) + Portions(buf, sched[1..][..k - 1])
  {
    assert sched[..k][1..] == sched[1..][..k - 1];
  }

  /** The end of the loop is one write later with one more in front. */
  lemma EndsOneLater(buf: seq<byte>, todo: int, sched: seq<Outcome>, k: nat)
    requires k > 0 && sched != [] && !sched[0].Gone? && |Portion(buf, sched[0])| < todo
    ensures EndsAfter(buf, todo, sched, k + 1) <==> EndsAfter(buf, todo - |Portion(buf, sched[0])|, sched[1..], k)
  {
    var n, rest := |Portion(buf, sched[0])|, sched[1..];
    PortionsOfNothing(buf, sched);
    hide Portion, Portions;
    forall i | 0 < i <= |rest|
      ensures |Portions(buf, sched[..i + 1])| == n + |Portions(buf, rest[..i])|
    {
      PortionsUpTo(buf, sched, i + 1);
    }
    PortionsUpTo(buf, sched, 1);
    var left := todo - n;
    assert forall i :: 0 < i <= |rest| ==> (GoesOn(buf, left, rest, i) <==> GoesOn(buf, todo, sched, i + 1));
    assert GoesOn(buf, todo, sched, 1);
    if EndsAfter(buf, left, rest, k) {
      forall i | 0 < i < k + 1
        ensures GoesOn(buf, todo, sched, i)
      {
        assert i > 1 ==> GoesOn(buf, left, rest, i - 1);
      }
    }
  }

  /** One turn of the loop. */
  lemma WrittenStep(buf: seq<byte>, todo: int, sofar: Sent)
    requires todo <= |buf| && sofar.unused != []
    ensures var p := Portion(buf, sofar.unused[0]);
            var next := Sent(sofar.emitted + p, sofar.r + |p|, sofar.unused[1..]);
            Written(buf, todo, sofar) ==
            if sofar.unused[0].Gone? then next.(r := -1)
            else if todo - |p| <= 0 then next else Written(buf, todo - |p|, next)
  {
    assert buf[..0] == [] && sofar.emitted + [] == sofar.emitted;
  }

  /** The first write that takes anything takes everything. */
  predicate Whole(len: nat, sched: seq<Outcome>)
  {
    if sched == [] then true
    else if Taken(sched[0], len) > 0 then Taken(sched[0], len) == len
    else !sched[0].Gone? && Whole(len, sched[1..])
  }

  /** What has been emitted before is only extended, and an answer other than -1 counts what went out: the length
      is reached, and passed by less than a whole buffer. */
  lemma {:induction false} WrittenCounts(buf: seq<byte>, todo: int, sofar: Sent)
    requires todo <= |buf|
    ensures sofar.emitted <= Written(buf, todo, sofar).emitted
    ensures Written(buf, todo, sofar).r != -1 ==>
              Written(buf, todo, sofar).r - sofar.r == |Written(buf, todo, sofar).emitted| - |sofar.emitted| >= todo
    ensures Written(buf, todo, sofar).r != -1 && todo > 0 ==> Written(buf, todo, sofar).r - sofar.r < todo + |buf|
    decreases |sofar.unused|
  {
    var sched := sofar.unused;
    if sched != [] && !sched[0].Gone? {
      var w := if sched[0].Again? then 0 else Taken(sched[0], |buf|);
      var next := Sent(sofar.emitted + buf[..w], sofar.r + w, sched[1..]);
      if todo - w > 0 {
        WrittenCounts(buf, todo - w, next);
      }
    }
  }

  /** What is left when the k-th write ends the loop. */
  function Ended(buf: seq<byte>, sofar: Sent, k: nat): Sent
    requires 0 < k <= |sofar.unused|
  {
    var sched, all := sofar.unused, Portions(buf, sofar.unused[..k]);
    Sent(sofar.emitted + all, if sched[k - 1].Gone? then -1 else sofar.r + |all|, sched[k..])
  }

  lemma EndedOneLater(buf: seq<byte>, sofar: Sent, k: nat)
    requires 1 < k <= |sofar.unused|
    ensures var p := Portion(buf, sofar.unused[0]);
            Ended(buf, sofar, k) == Ended(buf, Sent(sofar.emitted + p, sofar.r + |p|, sofar.unused[1..]), k - 1)
  {
    var p, rest := Portion(buf, sofar.unused[0]), sofar.unused[1..];
    PortionsUpTo(buf, sofar.unused, k);
    hide Portion, Portions;
    assert rest[k - 1..] == sofar.unused[k..];
    Associates(sofar.emitted, p, Portions(buf, rest[..k - 1]));
  }

  lemma EndedAtOnce(buf: seq<byte>, sofar: Sent)
    requires sofar.unused != []
    ensures var p := Portion(buf, sofar.unused[0]);
            Ended(buf, sofar, 1) == Sent(sofar.emitted + p, if sofar.unused[0].Gone? then -1 else sofar.r + |p|,
                                         sofar.unused[1..])
  {
    PortionsUpTo(buf, sofar.unused, 1);
    PortionsOfNothing(buf, sofar.unused);
  }

  /** The first write ends the loop. */
  lemma EndsAtOnceIff(buf: seq<byte>, todo: int, sched: seq<Outcome>)
    requires sched != []
    ensures EndsAfter(buf, todo, sched, 1) <==> sched[0].Gone? || |Portion(buf, sched[0])| >= todo
  {
    PortionsUpTo(buf, sched, 1);
    PortionsOfNothing(buf, sched);
    hide Portion, Portions;
  }

  lemma EndsLater(buf: seq<byte>, todo: int, sched: seq<Outcome>, k: nat)
    requires EndsAfter(buf, todo, sched, k) && k > 1
    ensures !EndsAfter(buf, todo, sched, 1)
  {
    hide Portions;
    assert GoesOn(buf, todo, sched, 1);
  }

  lemma {:induction false} WrittenUpTo(buf: seq<byte>, todo: int, sofar: Sent, k: nat)
    requires todo <= |buf| && EndsAfter(buf, todo, sofar.unused, k)
    ensures k <= |sofar.unused| && Written(buf, todo, sofar) == Ended(buf, sofar, k)
    decreases |sofar.unused|
  {
    hide Portion, Portions, Written, GoesOn, Ended;
    var sched := sofar.unused;
    EndsAtOnceIff(buf, todo, sched);
    WrittenStep(buf, todo, sofar);
    if k == 1 {
      EndedAtOnce(buf, sofar);
    } else {
      EndsLater(buf, todo, sched, k);
      var p := Portion(buf, sched[0]);
      EndsOneLater(buf, todo, sched, k - 1);
      WrittenUpTo(buf, todo - |p|, Sent(sofar.emitted + p, sofar.r + |p|, sched[1..]), k - 1);
      EndedOneLater(buf, sofar, k);
    }
  }

  lemma PortionsOfNothing(buf: seq<byte>, sched: seq<Outcome>)
    requires sched != []
    ensures Portions(buf, sched[1..][..0]) == []
  {
  }

  lemma Associates(a: seq<byte>, b: seq<byte>, c: seq<byte>)
    ensures a + (b + c) == a + b + c
  {
  }

  lemma {:induction false} WrittenToTheEnd(buf: seq<byte>, todo: int, sofar: Sent)
    requires todo <= |buf| && forall k :: !EndsAfter(buf, todo, sofar.unused, k)
    ensures var all := Portions(buf, sofar.unused);
            Written(buf, todo, sofar) == Sent(sofar.emitted + all + buf, sofar.r + |all| + |buf|, [])
    decreases |sofar.unused|
  {
    var sched := sofar.unused;
    if sched == [] {
      assert sofar.emitted + [] == sofar.emitted;
    } else {
      var p, rest := Portion(buf, sched[0]), sched[1..];
      assert Portions(buf, sched) == p + Portions(buf, rest);
      hide Portion, Portions, Written, GoesOn, EndsAfter;
      EndsAtOnceIff(buf, todo, sched);
      WrittenStep(buf, todo, sofar);
      var left := todo - |p|;
      forall k
        ensures !EndsAfter(buf, left, rest, k)
      {
        if EndsAfter(buf, left, rest, k) {
          AfterSome(buf, left, rest, k);
          EndsOneLater(buf, todo, sched, k);
        }
      }
      WrittenToTheEnd(buf, left, Sent(sofar.emitted + p, sofar.r + |p|, rest));
      Associates(sofar.emitted, p, Portions(buf, rest));
    }
  }

  lemma AfterSome(buf: seq<byte>, todo: int, sched: seq<Outcome>, k: int)
    requires EndsAfter(buf, todo, sched, k)
    ensures 0 < k <= |sched|
  {
  }

  /** What goes out are the portions up to the write that ends the loop; when the schedule is over before, one
      more write takes the whole buffer. */
  lemma WrittenIsPortions(buf: seq<byte>, todo: int, sofar: Sent)
    requires todo <= |buf|
    ensures var sched := sofar.unused;
            forall k :: EndsAfter(buf, todo, sched, k) ==>
              Written(buf, todo, sofar) ==
              Sent(sofar.emitted + Portions(buf, sched[..k]),
                   if sched[k - 1].Gone? then -1 else sofar.r + |Portions(buf, sched[..k])|, sched[k..])
    ensures (forall k :: !EndsAfter(buf, todo, sofar.unused, k)) ==>
              var all := Portions(buf, sofar.unused);
              Written(buf, todo, sofar) == Sent(sofar.emitted + all + buf, sofar.r + |all| + |buf|, [])
  {
    hide Written, Portions, GoesOn;
    forall k | EndsAfter(buf, todo, sofar.unused, k)
      ensures Written(buf, todo, sofar) == Ended(buf, sofar, k)
    {
      WrittenUpTo(buf, todo, sofar, k);
    }
    if forall k :: !EndsAfter(buf, todo, sofar.unused, k) {
      WrittenToTheEnd(buf, todo, sofar);
    }
  }

  lemma {:induction false} WholeIsExact(buf: seq<byte>, sofar: Sent)
    requires buf != [] && Whole(|buf|, sofar.unused)
    ensures Written(buf, |buf|, sofar).emitted == sofar.emitted + buf
    ensures Written(buf, |buf|, sofar).r == sofar.r + |buf|
    decreases |sofar.unused|
  {
    var sched := sofar.unused;
    if sched != [] && Taken(sched[0], |buf|) <= 0 {
      assert sofar.emitted + buf[..0] == sofar.emitted;
      WholeIsExact(buf, Sent(sofar.emitted, sofar.r, sched[1..]));
    }
  }

  ghost predicate Exact(len: nat, sched: seq<Outcome>)
  {
    forall buf: seq<byte> :: |buf| == len ==> Written(buf, len, Sent([], 0, sched)).emitted == buf
  }

  /** A second helping starts with the first octet again. */
  lemma {:induction false} StartsOver(buf: seq<byte>, todo: int, sofar: Sent)
    requires 0 < todo <= |buf|
    ensures var all := Written(buf, todo, sofar).emitted;
            all == sofar.emitted || (|all| > |sofar.emitted| && all[|sofar.emitted|] == buf[0])
    decreases |sofar.unused|
  {
    var sched := sofar.unused;
    if sched != [] && !sched[0].Gone? {
      var w := if sched[0].Again? then 0 else Taken(sched[0], |buf|);
      var next := Sent(sofar.emitted + buf[..w], sofar.r + w, sched[1..]);
      if w > 0 && todo - w > 0 {
        WrittenCounts(buf, todo - w, next);
        assert next.emitted[|sofar.emitted|] == buf[0];
      } else if w == 0 {
        assert next.emitted == sofar.emitted;
        StartsOver(buf, todo, next);
      }
    }
  }

  /** Octets of which one differs from all others. */
  function Marked(len: nat, n: nat): (s: seq<byte>)
    ensures |s| == len
  {
    seq(len, i => if i == n then 1 else 0)
  }

  lemma {:induction false} ShortIsNotExact(len: nat, sched: seq<Outcome>) returns (buf: seq<byte>)
    requires len > 0 && !Whole(len, sched)
    ensures |buf| == len && Written(buf, len, Sent([], 0, sched)).emitted != buf
  {
    if sched[0].Gone? {
      buf := Marked(len, 0);
    } else if Taken(sched[0], len) > 0 {
      var w := Taken(sched[0], len);
      buf := Marked(len, w);
      var next := Sent([] + buf[..w], 0 + w, sched[1..]);
      StartsOver(buf, len - w, next);
      assert Written(buf, len, Sent([], 0, sched)) == Written(buf, len - w, next);
    } else {
      buf := ShortIsNotExact(len, sched[1..]);
      assert [] + buf[..0] == [];
    }
  }

  /** The octets that go out are the buffer, whatever it holds, exactly when no short write comes first. */
  lemma WriteIsExactIff(len: nat, sched: seq<Outcome>)
    requires len > 0
    ensures Exact(len, sched) <==> Whole(len, sched)
  {
    if Whole(len, sched) {
      forall buf: seq<byte> | |buf| == len
        ensures Written(buf, len, Sent([], 0, sched)).emitted == buf
      {
        WholeIsExact(buf, Sent([], 0, sched));
        assert [] + buf == buf;
      }
    } else {
      var buf := ShortIsNotExact(len, sched);
    }
  }

  /** What one message puts on the wire: the header is written once, whatever comes of it. */
  function Transmitted(m: Message, sched: seq<Outcome>): (s: Sent)
    requires |m.payload| < 0x1_0000_0000
  {
    var header := HeaderOctets(HeaderOf(m));
    if sched == [] then Written(m.payload, |m.payload|, Sent(header, 0, []))
    else
      var w := if Taken(sched[0], HEADER_LENGTH) < 0 then 0 else Taken(sched[0], HEADER_LENGTH);
      Written(m.payload, |m.payload|, Sent(header[..w], 0, sched[1..]))
  }

  /** A part of the header, if the first write takes any, and portions of the payload behind it, whatever became of
      the header. */
  lemma TransmittedIsPortions(m: Message, sched: seq<Outcome>)
    requires |m.payload| < 0x1_0000_0000 && sched != []
    ensures var front, rest := Portion(HeaderOctets(HeaderOf(m)), sched[0]), sched[1..];
            && (forall k :: EndsAfter(m.payload, |m.payload|, rest, k) ==>
                  Transmitted(m, sched) ==
                  Sent(front + Portions(m.payload, rest[..k]),
                       if rest[k - 1].Gone? then -1 else |Portions(m.payload, rest[..k])|, rest[k..]))
            && ((forall k :: !EndsAfter(m.payload, |m.payload|, rest, k)) ==>
                  var all := Portions(m.payload, rest);
                  Transmitted(m, sched) == Sent(front + all + m.payload, |all| + |m.payload|, []))
  {
    var header := HeaderOctets(HeaderOf(m));
    var front, rest := Portion(header, sched[0]), sched[1..];
    TakenIsPortion(header, Sent([], 0, sched));
    assert header[..0] == [];
    hide Written, Portions, EndsAfter, HeaderOctets, HeaderOf;
    assert Transmitted(m, sched) == Written(m.payload, |m.payload|, Sent(front, 0, rest));
    WrittenIsPortions(m.payload, |m.payload|, Sent(front, 0, rest));
  }

  predicate WholeMessage(len: nat, sched: seq<Outcome>)
  {
    sched == [] || (Taken(sched[0], HEADER_LENGTH) == HEADER_LENGTH && Whole(len, sched[1..]))
  }

  lemma WholeMessageIsFramed(m: Message, sched: seq<Outcome>)
    requires 0 < |m.payload| < 0x1_0000_0000 && WholeMessage(|m.payload|, sched)
    ensures Transmitted(m, sched).emitted == Frame(m) && Transmitted(m, sched).r == |m.payload|
  {
    var header := HeaderOctets(HeaderOf(m));
    assert header[..HEADER_LENGTH] == header;
    WholeIsExact(m.payload, Sent(header, 0, if sched == [] then [] else sched[1..]));
  }

  lemma {:induction false} WrittenAppends(before: seq<byte>, buf: seq<byte>, todo: int, sofar: Sent)
    requires todo <= |buf|
    ensures var later, all := Written(buf, todo, sofar), Written(buf, todo, sofar.(emitted := before + sofar.emitted));
            all == later.(emitted := before + later.emitted)
    decreases |sofar.unused|
  {
    var sched := sofar.unused;
    if sched == [] {
      assert before + sofar.emitted + buf == before + (sofar.emitted + buf);
    } else if !sched[0].Gone? {
      var w := if sched[0].Again? then 0 else Taken(sched[0], |buf|);
      var next := Sent(sofar.emitted + buf[..w], sofar.r + w, sched[1..]);
      assert before + sofar.emitted + buf[..w] == before + next.emitted;
      if todo - w > 0 {
        WrittenAppends(before, buf, todo - w, next);
      }
    }
  }

  /** A payload that starts with another octet than the given one. */
  function Unlike(o: byte, len: nat): (p: seq<byte>)
    ensures |p| == len
    ensures len > 0 ==> p[0] != o
  {
    seq(len, _ => if o == 0 then 1 else 0)
  }

  /** A header that is cut off is not made up for by the payload. */
  lemma ShortHeaderShows(m: Message, sched: seq<Outcome>)
    requires 0 < |m.payload| < 0x1_0000_0000 && sched != []
    requires Taken(sched[0], HEADER_LENGTH) != HEADER_LENGTH
    requires var w := if Taken(sched[0], HEADER_LENGTH) < 0 then 0 else Taken(sched[0], HEADER_LENGTH);
             m.payload[0] != HeaderOctets(HeaderOf(m))[w]
    ensures Transmitted(m, sched).emitted != Frame(m)
  {
    var w := if Taken(sched[0], HEADER_LENGTH) < 0 then 0 else Taken(sched[0], HEADER_LENGTH);
    var header := HeaderOctets(HeaderOf(m));
    hide HeaderOctets, HeaderOf;
    StartsOver(m.payload, |m.payload|, Sent(header[..w], 0, sched[1..]));
    assert Frame(m)[w] == header[w];
  }

  /** Nor is a payload that is not written as it is. */
  lemma WrongPayloadShows(m: Message, sched: seq<Outcome>)
    requires 0 < |m.payload| < 0x1_0000_0000 && sched != []
    requires Taken(sched[0], HEADER_LENGTH) == HEADER_LENGTH
    requires Written(m.payload, |m.payload|, Sent([], 0, sched[1..])).emitted != m.payload
    ensures Transmitted(m, sched).emitted != Frame(m)
  {
    var header := HeaderOctets(HeaderOf(m));
    hide HeaderOctets, HeaderOf, Written;
    assert header[..HEADER_LENGTH] == header && header + [] == header;
    var out := Written(m.payload, |m.payload|, Sent([], 0, sched[1..])).emitted;
    WrittenAppends(header, m.payload, |m.payload|, Sent([], 0, sched[1..]));
    assert (header + out)[HEADER_LENGTH..] == out && Frame(m)[HEADER_LENGTH..] == m.payload;
  }

  predicate Framed(m: Message, sched: seq<Outcome>)
    requires |m.payload| < 0x1_0000_0000
  {
    Transmitted(m, sched).emitted == Frame(m)
  }

  /** The message is one frame on the wire, whatever its payload holds, exactly when the write of the header takes
      all of it and no short write of the payload comes first. */
  lemma WholeMessageIsFramedIff(msgtype: u16, reqid: u16, now: u64, len: nat, sched: seq<Outcome>)
    requires 0 < len < 0x1_0000_0000
    ensures (forall p: seq<byte> | |p| == len :: Framed(Message(msgtype, reqid, now, p), sched)) <==>
            WholeMessage(len, sched)
  {
    hide Transmitted, Frame, HeaderOctets;
    if WholeMessage(len, sched) {
      forall p: seq<byte> | |p| == len
        ensures Framed(Message(msgtype, reqid, now, p), sched)
      {
        WholeMessageIsFramed(Message(msgtype, reqid, now, p), sched);
      }
    } else if Taken(sched[0], HEADER_LENGTH) != HEADER_LENGTH {
      var w := if Taken(sched[0], HEADER_LENGTH) < 0 then 0 else Taken(sched[0], HEADER_LENGTH);
      var p := Unlike(HeaderOctets(Header(MAGIC, msgtype, reqid, now, len))[w], len);
      ShortHeaderShows(Message(msgtype, reqid, now, p), sched);
      assert !Framed(Message(msgtype, reqid, now, p), sched);
    } else {
      var p := ShortIsNotExact(len, sched[1..]);
      WrongPayloadShows(Message(msgtype, reqid, now, p), sched);
      assert !Framed(Message(msgtype, reqid, now, p), sched);
    }
  }

  function Automatic(users: seq<u16>): (n: nat)
    ensures n <= |users|
  {
    if users == [] then 0 else (if users[0] == 0 then 1 else 0) + Automatic(users[1..])
  }

  /** The counter after requests of which those with id 0 ask for an id. */
  function Counter(start: u16, users: seq<u16>): u16
  {
    (start + Automatic(users)) % 0x1_0000
  }

  lemma {:induction false} AutomaticOfConcatenation(a: seq<u16>, b: seq<u16>)
    ensures Automatic(a + b) == Automatic(a) + Automatic(b)
  {
    if a == [] {
      assert a + b == b;
    } else {
      AutomaticOfConcatenation(a[1..], b);
      assert (a + b)[1..] == a[1..] + b;
    }
  }

  /** The id of a message: the caller's, or else the next of the counter. */
  function Assigned(counter: u16, user: u16): u16
  {
    if user == 0 then Counter(counter, [user]) else user
  }

  /** The message as it is sent. */
  function Addressed(counter: u16, msgtype: u16, payload: seq<byte>, user: u16, now: u64): Message
  {
    Message(msgtype, Assigned(counter, user), now, payload)
  }

  /** One end of a connection: request ids are drawn from a 16 bit counter. */
  class Peer {
    var sendreqid: u16

    constructor ()
      ensures sendreqid == 0
    {
      sendreqid := 0;
    }

    method NextReqId(user: u16) returns (reqid: u16)
      modifies this
      ensures sendreqid == Counter(old(sendreqid), [user])
      ensures reqid == Assigned(old(sendreqid), user)
      ensures reqid == if user != 0 then user else (old(sendreqid) + 1) % 0x1_0000
      ensures sendreqid == if user != 0 then old(sendreqid) else reqid
    {
      reqid := 0;
      if user == 0 {
        sendreqid := if sendreqid == 0xffff then 0 else sendreqid + 1;
        reqid := sendreqid;
      } else {
        reqid := user;
      }
    }

    /** A null socket stands for a negative descriptor. */
    method SendHeader(sock: Outlet?, msgtype: u16, msglen: u32, reqid: u16, now: u64) returns (r: int)
      modifies this, sock
      ensures sock == null ==> r == JC_ERR && sendreqid == old(sendreqid)
      ensures sock != null ==>
                && sendreqid == Counter(old(sendreqid), [reqid])
                && r == Assigned(old(sendreqid), reqid)
                && var h := HeaderOctets(Header(MAGIC, msgtype, r, now, msglen));
                   if old(sock.sched) == [] then sock.emitted == old(sock.emitted) + h && sock.sched == []
                   else
                     var w := Taken(old(sock.sched)[0], HEADER_LENGTH);
                     sock.emitted == old(sock.emitted) + h[..if w < 0 then 0 else w] &&
                         sock.sched == old(sock.sched)[1..]
    {
      if sock == null {
        return JC_ERR;
      }
      r := NextReqId(reqid);
      ghost var before := sock.emitted;
      var h := HeaderOctets(Header(MAGIC, msgtype, r, now, msglen));
      var w, gone := sock.Write(h);
      assert before + h[..0] == before;
    }
  }

  /** Any message: a header and a payload, with the request id as the answer. */
  method SendMessage(peer: Peer, sock: Outlet, msgtype: u16, payload: seq<byte>, reqid: u16, now: u64) returns (r: int)
    requires |payload| < 0x1_0000_0000
    modifies peer, sock
    ensures peer.sendreqid == Counter(old(peer.sendreqid), [reqid])
    ensures var m := Message(msgtype, Assigned(old(peer.sendreqid), reqid), now, payload);
            var t := Transmitted(m, old(sock.sched));
            && sock.emitted == old(sock.emitted) + t.emitted && sock.sched == t.unused
            && r == if t.r < 0 then -1 else m.reqid
  {
    hide HeaderOctets, Written, Counter, Assigned;
    r := peer.SendHeader(sock, msgtype, |payload|, reqid, now);
    ghost var m := Message(msgtype, r, now, payload);
    ghost var header := HeaderOctets(HeaderOf(m));
    ghost var w := if old(sock.sched) == [] then HEADER_LENGTH else Taken(old(sock.sched)[0], HEADER_LENGTH);
    assert header[..HEADER_LENGTH] == header;
    WrittenAppends(old(sock.emitted), payload, |payload|, Sent(header[..if w < 0 then 0 else w], 0, sock.sched));
    var written := sock.SockWrite(payload);
    if written < 0 {
      return -1;
    }
  }

  /** Several messages in a row. */
  function TransmittedAll(ms: seq<Message>, sched: seq<Outcome>): seq<byte>
    requires forall m :: m in ms ==> |m.payload| < 0x1_0000_0000
  {
    if ms == [] then []
    else Transmitted(ms[0], sched).emitted + TransmittedAll(ms[1..], Transmitted(ms[0], sched).unused)
  }

  predicate WholeMessages(ms: seq<Message>, sched: seq<Outcome>)
    requires forall m :: m in ms ==> |m.payload| < 0x1_0000_0000
  {
    ms != [] ==> WholeMessage(|ms[0].payload|, sched) && WholeMessages(ms[1..], Transmitted(ms[0], sched).unused)
  }

  /** What a reader expects to find on the connection is what goes out when no write is short. */
  lemma {:induction false} WholeMessagesAreTheStream(ms: seq<Message>, sched: seq<Outcome>)
    requires Reader.AllSendable(ms)
    requires forall m :: m in ms ==> |m.payload| < 0x1_0000_0000
    requires WholeMessages(ms, sched)
    ensures TransmittedAll(ms, sched) == Reader.Rest(ms, 0)
  {
    if ms != [] {
      WholeMessageIsFramed(ms[0], sched);
      WholeMessagesAreTheStream(ms[1..], Transmitted(ms[0], sched).unused);
      RestOfRest(ms, 0);
    }
  }

  lemma {:induction false} RestOfRest(ms: seq<Message>, n: nat)
    requires Reader.AllSendable(ms) && n < |ms|
    ensures Reader.Rest(ms[1..], n) == Reader.Rest(ms, n + 1)
    decreases |ms| - n
  {
    if n + 1 < |ms| {
      RestOfRest(ms, n + 1);
    }
  }

  lemma CounterContinues(start: u16, a: seq<u16>, b: seq<u16>)
    ensures Counter(Counter(start, a), b) == Counter(start, a + b)
  {
    AutomaticOfConcatenation(a, b);
    hide Automatic;
    RemainderOfSum(start + Automatic(a), Automatic(b));
  }

  lemma RemainderOfSum(m: nat, n: nat)
    ensures (m % 0x1_0000 + n) % 0x1_0000 == (m + n) % 0x1_0000
    ensures (m + n) % 0x1_0000 == m % 0x1_0000 <==> n % 0x1_0000 == 0
  {
  }

  lemma Onward(users: seq<u16>, k: nat)
    requires k < |users|
    ensures users[..k] + [users[k]] == users[..k + 1]
  {
  }

  lemma Between(users: seq<u16>, i: nat, j: nat)
    requires i <= j < |users|
    ensures users[i..j] + [users[j]] == users[i..j + 1]
  {
  }

  lemma UpTo(users: seq<u16>, i: nat, j: nat)
    requires i <= j <= |users|
    ensures users[..i] + users[i..j] == users[..j]
  {
  }

  /** Draws an id for each request. */
  method IssueAll(peer: Peer, users: seq<u16>) returns (ids: seq<u16>)
    modifies peer
    ensures |ids| == |users| && peer.sendreqid == Counter(old(peer.sendreqid), users)
    ensures forall i :: 0 <= i < |ids| ==>
              ids[i] == if users[i] == 0 then Counter(old(peer.sendreqid), users[..i + 1]) else users[i]
  {
    ids := [];
    for k := 0 to |users|
      invariant |ids| == k && peer.sendreqid == Counter(old(peer.sendreqid), users[..k])
      invariant forall i :: 0 <= i < k ==>
                  ids[i] == if users[i] == 0 then Counter(old(peer.sendreqid), users[..i + 1]) else users[i]
    {
      hide Counter;
      var id := peer.NextReqId(users[k]);
      CounterContinues(old(peer.sendreqid), users[..k], [users[k]]);
      Onward(users, k);
      ids := ids + [id];
    }
    assert users[..|users|] == users;
  }

  lemma AutomaticUpTo(users: seq<u16>, i: nat, j: nat)
    requires i <= j <= |users|
    ensures Automatic(users[..j]) == Automatic(users[..i]) + Automatic(users[i..j])
  {
    hide *;
    AutomaticOfConcatenation(users[..i], users[i..j]);
    UpTo(users, i, j);
  }

  lemma AutomaticLast(users: seq<u16>, i: nat, j: nat)
    requires i <= j < |users| && users[j] == 0
    ensures Automatic(users[i..j + 1]) > 0
  {
    assert Automatic([users[j]]) == 1;
    hide *;
    AutomaticOfConcatenation(users[i..j], [users[j]]);
    Between(users, i, j);
  }

  /** Two automatic ids are equal exactly when a multiple of 65536 ids lies between them. */
  lemma AutomaticIdsRepeat(start: u16, users: seq<u16>, i: nat, j: nat)
    requires i < j < |users| && users[i] == 0 && users[j] == 0
    ensures Counter(start, users[..i + 1]) == Counter(start, users[..j + 1]) <==>
              Automatic(users[i + 1..j + 1]) % 0x1_0000 == 0
    ensures Automatic(users[i + 1..j + 1]) > 0
  {
    hide Automatic;
    AutomaticUpTo(users, i + 1, j + 1);
    AutomaticLast(users, i + 1, j);
    RemainderOfSum(start + Automatic(users[..i + 1]), Automatic(users[i + 1..j + 1]));
  }

  lemma AssignedIsUserIff(counter: u16, user: u16)
    ensures Assigned(counter, user) == user <==> user != 0 || counter == 0xffff
  {
    assert Automatic([0]) == 1;
  }

  lemma HeaderOfFrame(m: Message)
    requires |m.payload| < 0x1_0000_0000
    ensures ParseHeader(Frame(m)[..HEADER_LENGTH]) == HeaderOf(m)
  {
    HeaderSurvives(HeaderOf(m));
    hide ParseHeader, HeaderOctets;
    assert Frame(m)[..HEADER_LENGTH] == HeaderOctets(HeaderOf(m));
  }

  /** An answer that is sent under the id of its request shows that id in its header, unless the request
      came with id 0: then the counter of the answering side decides. */
  lemma AnswerCarriesIdOfRequest(
      counter: u16, msgtype: u16, payload: seq<byte>, request: u16, now: u64, sched: seq<Outcome>)
    requires 0 < |payload| < 0x1_0000_0000 && WholeMessage(|payload|, sched)
    ensures var octets := Transmitted(Addressed(counter, msgtype, payload, request, now), sched).emitted;
            && |octets| >= HEADER_LENGTH
            && (ParseHeader(octets[..HEADER_LENGTH]).reqid == request <==> request != 0 || counter == 0xffff)
  {
    var m := Addressed(counter, msgtype, payload, request, now);
    hide Transmitted, ParseHeader, Frame, Assigned, WholeMessage;
    WholeMessageIsFramed(m, sched);
    HeaderOfFrame(m);
    AssignedIsUserIff(counter, request);
  }
}
