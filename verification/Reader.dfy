/** The resumable reader of messages from a non-blocking socket. */
module Reader {
  import opened Bytes
  import opened Jcamsys
  import opened Wire

  const JC_HAVE_DATA := 100
  const JC_TIMEOUT := 101

  predicate Bad(code: int)
  {
    code == JC_ERR_BAD_MAGIC || code == JC_ERR_BAD_VALUE
  }

  /** What happens around one system call: octets that arrive first, an interruption, time that passes. */
  datatype Tick = Tick(arrive: nat, fail: bool, elapsed: nat)

  predicate Smooth(sched: seq<Tick>)
  {
    forall i :: 0 <= i < |sched| ==> !sched[i].fail
  }

  /** How much the ticks bring in. */
  function Arrivals(sched: seq<Tick>): nat
  {
    if sched == [] then 0 else sched[0].arrive + Arrivals(sched[1..])
  }

  /** The receiving end of a connection under an arbitrary schedule. After the last tick nothing more
      arrives and every call takes a millisecond. */
  class Socket {
    var arrived: seq<byte>
    var coming: seq<byte>
    // the peer closes after what is still coming
    var closing: bool
    var sched: seq<Tick>
    var now: nat
    // when the last read began; no program variable
    ghost var asked: nat

    constructor (coming: seq<byte>, sched: seq<Tick>)
      ensures arrived == [] && this.coming == coming && !closing && this.sched == sched
    {
      arrived, this.coming, closing, this.sched, now := [], coming, false, sched, 0;
    }

    ghost function Pending(): seq<byte>
      reads this
    {
      arrived + coming
    }

    /** Everything has arrived and nothing interrupts. */
    ghost predicate Quiet()
      reads this
    {
      Smooth(sched) && coming == []
    }

    /** Whatever is sent arrives some time, however often it is interrupted. */
    ghost predicate Comes()
      reads this
    {
      |coming| <= Arrivals(sched)
    }

    method Step() returns (fail: bool)
      modifies this
      ensures Pending() == old(Pending()) && closing == old(closing)
      ensures |arrived| >= |old(arrived)|
      ensures old(sched) == [] ==> sched == [] && now == old(now) + 1 && !fail
      ensures old(sched) != [] ==>
                && sched == old(sched)[1..] && now == old(now) + old(sched)[0].elapsed && fail == old(sched)[0].fail
                && |arrived| == |old(arrived)| + if old(sched)[0].arrive < |old(coming)| then old(sched)[0].arrive
                                                 else |old(coming)|
      ensures asked == old(asked)
      ensures old(Smooth(sched)) ==> !fail && Smooth(sched)
      ensures (old(Quiet()) ==> Quiet()) && (old(Comes()) ==> Comes()) && (|sched| < |old(sched)| || sched == [])
    {
      if sched == [] {
        fail := false;
        now := now + 1;
      } else {
        var tick := sched[0];
        var k := if tick.arrive < |coming| then tick.arrive else |coming|;
        assert arrived + coming == (arrived + coming[..k]) + coming[k..];
        arrived := arrived + coming[..k];
        coming := coming[k..];
        sched := sched[1..];
        now := now + tick.elapsed;
        fail := tick.fail;
      }
    }

    /** How many octets a read would find; JC_ERR at the end of the stream. */
    method Peek() returns (r: int)
      modifies this
      ensures Pending() == old(Pending()) && closing == old(closing) && |arrived| >= |old(arrived)| && now >= old(now)
      ensures r == if closing && Pending() == [] then JC_ERR else |arrived|
      ensures old(Smooth(sched)) ==> Smooth(sched)
      ensures (old(Quiet()) ==> Quiet()) && (old(Comes()) ==> Comes()) && (|sched| < |old(sched)| || sched == [])
    {
      var fail := Step();
      if arrived == [] && coming == [] && closing {
        return JC_ERR;
      }
      r := |arrived|;
    }

    /** read(): -1 when interrupted or nothing is there, 0 at the end of the stream. */
    method Read(len: nat) returns (r: int, data: seq<byte>)
      modifies this
      ensures old(Pending()) == data + Pending() && closing == old(closing)
      ensures -1 <= r <= len && |data| == if r < 0 then 0 else r
      ensures r == 0 && len > 0 ==> closing && Pending() == []
      ensures old(sched) != [] && old(sched)[0].fail ==> r == -1
      ensures old(Smooth(sched) && closing && Pending() == []) ==> r == 0
      ensures |old(arrived)| >= len ==> r == len || r == -1
      ensures old(sched) == [] ==> sched == [] && now == old(now) + 1
      ensures old(sched) != [] ==> |sched| == |old(sched)| - 1 && now >= old(now)
      ensures asked == old(now)
      ensures old(Smooth(sched)) ==>
                Smooth(sched) && (|old(arrived)| >= len ==> r == len) && (r == len || |data| >= |old(arrived)|)
      ensures |arrived| >= |old(arrived)| - |data|
      ensures (old(Quiet()) ==> Quiet()) && (old(Comes()) ==> Comes()) && (|sched| < |old(sched)| || sched == [])
    {
      asked := now;
      var fail := Step();
      data := [];
      if fail {
        r := -1;
      } else if len == 0 {
        r := 0;
      } else if arrived == [] {
        r := if coming == [] && closing then 0 else -1;
      } else {
        r := if len < |arrived| then len else |arrived|;
        data := arrived[..r];
        assert arrived + coming == data + (arrived[r..] + coming);
        arrived := arrived[r..];
      }
    }

    method ReadInto(buf: array<byte>, offset: nat, len: nat) returns (r: int, ghost data: seq<byte>)
      requires offset + len <= buf.Length
      modifies this, buf
      ensures old(Pending()) == data + Pending() && closing == old(closing)
      ensures -1 <= r <= len && |data| == if r < 0 then 0 else r
      ensures r == 0 && len > 0 ==> closing && Pending() == []
      ensures old(sched) != [] && old(sched)[0].fail ==> r == -1
      ensures old(Smooth(sched) && closing && Pending() == []) ==> r == 0
      ensures |old(arrived)| >= len ==> r == len || r == -1
      ensures buf[..offset] == old(buf[..offset]) && buf[offset..offset + |data|] == data
      ensures buf[offset + |data|..] == old(buf[offset + |data|..])
      ensures old(sched) == [] ==> sched == [] && now == old(now) + 1
      ensures old(sched) != [] ==> |sched| == |old(sched)| - 1 && now >= old(now)
      ensures asked == old(now)
      ensures old(Smooth(sched)) ==>
                Smooth(sched) && (|old(arrived)| >= len ==> r == len) && (r == len || |data| >= |old(arrived)|)
      ensures |arrived| >= |old(arrived)| - |data|
      ensures (old(Quiet()) ==> Quiet()) && (old(Comes()) ==> Comes()) && (|sched| < |old(sched)| || sched == [])
    {
      hide Smooth, Arrivals, Pending, Quiet, Comes;
      ghost var before := buf[..];
      var octets;
      r, octets := Read(len);
      data := octets;
      forall i | 0 <= i < |octets| {
        buf[offset + i] := octets[i];
      }
      Copied(before, buf[..], offset, octets);
      assert buf[..offset] == buf[..][..offset] && before[..offset] == old(buf[..offset]);
      assert buf[offset..offset + |octets|] == buf[..][offset..offset + |octets|];
      assert buf[offset + |octets|..] == buf[..][offset + |octets|..];
      assert old(buf[offset + |octets|..]) == before[offset + |octets|..];
    }
  }

  lemma Copied(before: seq<byte>, after: seq<byte>, offset: nat, data: seq<byte>)
    requires |before| == |after| && offset + |data| <= |after|
    requires forall i :: 0 <= i < |data| ==> after[offset + i] == data[i]
    requires forall i :: 0 <= i < |after| && !(offset <= i < offset + |data|) ==> after[i] == before[i]
    ensures after[..offset] == before[..offset] && after[offset..offset + |data|] == data
    ensures after[offset + |data|..] == before[offset + |data|..]
  {
  }

  /** s ends with t. */
  predicate EndsWith(s: seq<byte>, t: seq<byte>)
  {
    |t| <= |s| && s[|s| - |t|..] == t
  }

  lemma Behind(s: seq<byte>, t: seq<byte>, data: seq<byte>, rest: seq<byte>)
    requires EndsWith(s, t) || s == t
    ensures t == data + rest ==> EndsWith(s, rest)
  {
    if t == data + rest {
      assert |s| - |rest| == (|s| - |t|) + |data|;
      assert s[|s| - |rest|..] == t[|data|..] == rest;
    }
  }

  ghost predicate AllSendable(ms: seq<Message>)
  {
    forall i :: 0 <= i < |ms| ==> Sendable(ms[i])
  }

  /** The octets of the messages from number n on. */
  ghost function Rest(ms: seq<Message>, n: nat): seq<byte>
    requires AllSendable(ms) && n <= |ms|
    decreases |ms| - n
  {
    if n == |ms| then [] else Frame(ms[n]) + Rest(ms, n + 1)
  }

  lemma NoneLeft(ms: seq<Message>, n: nat)
    requires AllSendable(ms) && n <= |ms|
    ensures Rest(ms, n) == [] ==> n == |ms|
  {
    assert n < |ms| ==> |Rest(ms, n)| >= HEADER_LENGTH;
  }

  /** Whoever finds a header's worth of octets finds the next header, and the payload after it. */
  lemma NextFrame(ms: seq<Message>, n: nat, pending: seq<byte>, lost: seq<byte>)
    requires AllSendable(ms) && n <= |ms|
    requires pending + lost == Rest(ms, n) && |pending| >= HEADER_LENGTH
    ensures n < |ms| && ParseHeader(pending[..HEADER_LENGTH]) == HeaderOf(ms[n])
    ensures PartOf(ms[n].payload, 0, [], pending[HEADER_LENGTH..] + lost, Rest(ms, n + 1))
  {
    assert |pending + lost| > 0;
    var header, whole := HeaderOctets(HeaderOf(ms[n])), Rest(ms, n);
    assert whole == header + (ms[n].payload + Rest(ms, n + 1));
    hide Rest, HeaderOctets, HeaderOf, ParseHeader;
    assert pending[..HEADER_LENGTH] == whole[..HEADER_LENGTH] == header;
    assert pending[HEADER_LENGTH..] + lost == whole[HEADER_LENGTH..];
    assert ms[n].payload[0..] == ms[n].payload;
    HeaderSurvives(HeaderOf(ms[n]));
  }

  /** k octets of the payload are in front, the others are pending, followed by `after`. */
  ghost predicate PartOf(payload: seq<byte>, k: nat, front: seq<byte>, pending: seq<byte>, after: seq<byte>)
  {
    k <= |payload| && front == payload[..k] && pending == payload[k..] + after
  }

  lemma MoreOf(payload: seq<byte>, k: nat, front: seq<byte>, data: seq<byte>, pending: seq<byte>, lost: seq<byte>,
      after: seq<byte>)
    requires PartOf(payload, k, front, (data + pending) + lost, after) && k + |data| <= |payload|
    ensures PartOf(payload, k + |data|, front + data, pending + lost, after)
  {
    var whole := payload[k..] + after;
    assert whole == data + (pending + lost);
    assert data == whole[..|data|] == payload[k..k + |data|];
    assert pending + lost == whole[|data|..] == payload[k + |data|..] + after;
  }

  /** What is known at the end of a call that was within the payload. */
  lemma Outcome(payload: seq<byte>, k: nat, front: seq<byte>, pending: seq<byte>, after: seq<byte>)
    requires PartOf(payload, k, front, pending, after)
    ensures k == |payload| ==> front == payload && pending == after
    ensures k < |payload| ==> pending != []
  {
    if k == |payload| {
      assert pending == [] + after;
    } else {
      assert |pending| >= |payload| - k;
    }
  }

  // the cleared structure
  const NO_HEADER := Header([0, 0, 0, 0], 0, 0, 0, 0)

  /** A buffer and the out-parameters hold the message. */
  ghost predicate Delivered(m: Message, buf: seq<byte>, msgtype: u16, reqid: u16, sendtimems: u64)
  {
    && |m.payload| <= |buf| && buf[..|m.payload|] == m.payload
    && msgtype == m.msgtype && reqid == m.reqid && sendtimems == m.sendtimems
  }

  class MessageReader {
    // The static variables of the original
    var state: int
    var bytestoread: int
    var bytesread: int
    var hdr: Header

    /** What the other side sends, how many of these messages have been handed over, and the
        octets that are missing because the other side closed too early. */
    ghost const sent: seq<Message>
    ghost var n: nat
    ghost const lost: seq<byte>

    /** Holds before and after every call, whatever octets arrive. */
    ghost predicate Valid(buf: array<byte>)
      reads this
    {
      && buf.Length >= JC_MAX_MSGLEN
      && (state == 0 || (state == 1 && bytestoread > 0 && Filling()))
    }

    ghost predicate Filling()
      reads this
    {
      && 0 <= bytesread && 0 <= bytestoread
      && bytesread + bytestoread == hdr.msglen < JC_MAX_MSGLEN
    }

    /** The connection carries the messages in `sent`, and n of them have been handed over. */
    ghost predicate Tracks(sock: Socket, buf: array<byte>)
      reads this, sock, buf
    {
      && AllSendable(sent) && n <= |sent|
      && (state == 0 ==> sock.Pending() + lost == Rest(sent, n))
      && (state == 1 ==> InPayload(sock, buf))
    }

    /** The first octets of the payload are in the buffer and the others are still to come. */
    ghost predicate InPayload(sock: Socket, buf: array<byte>)
      requires AllSendable(sent) && n <= |sent|
      reads `n, `hdr, `bytesread, sock, buf
    {
      && n < |sent| && hdr == HeaderOf(sent[n])
      && 0 <= bytesread <= hdr.msglen && bytesread <= buf.Length
      && PartOf(sent[n].payload, bytesread, buf[..bytesread], sock.Pending() + lost, Rest(sent, n + 1))
    }

    /** The rest of the current frame is there to be read. */
    ghost predicate Ready(sock: Socket)
      reads this, sock
    {
      && Smooth(sock.sched) && n < |sent|
      && |sock.arrived| >= if state == 0 then HEADER_LENGTH + |sent[n].payload| else bytestoread
    }

    constructor (ghost sent: seq<Message>, ghost lost: seq<byte>)
      ensures state == 0 && n == 0 && this.sent == sent && this.lost == lost
    {
      state, bytestoread, bytesread := 0, 0, 0;
      hdr := NO_HEADER;
      this.sent, n, this.lost := sent, 0, lost;
    }

    /** Throws away what is there, up to 1024 times 1024 octets. */
    method Drain(sock: Socket)
      modifies sock
      ensures sock.closing == old(sock.closing) && sock.now >= old(sock.now)
      ensures EndsWith(old(sock.Pending()), sock.Pending())
      ensures old(Smooth(sock.sched)) ==>
                var dropped := |old(sock.Pending())| - |sock.Pending()|;
                Smooth(sock.sched) && (dropped >= |old(sock.arrived)| || dropped >= 1024 * 1024)
      ensures (old(sock.Quiet()) ==> sock.Quiet()) && (old(sock.Comes()) ==> sock.Comes()) &&
              |sock.sched| <= |old(sock.sched)|
    {
      ghost var before, there, smooth := sock.Pending(), |sock.arrived|, Smooth(sock.sched);
      Behind(before, before, [], before);
      hide Smooth, Arrivals, Socket.Pending, EndsWith;
      for i := 0 to 1024
        invariant sock.closing == old(sock.closing) && (old(sock.Quiet()) ==> sock.Quiet())
        invariant (old(sock.Comes()) ==> sock.Comes()) && |sock.sched| <= |old(sock.sched)| && sock.now >= old(sock.now)
        invariant EndsWith(before, sock.Pending())
        invariant smooth ==> Smooth(sock.sched)
        invariant smooth ==> |before| - |sock.Pending()| >= there || |before| - |sock.Pending()| >= 1024 * i
        invariant smooth ==> |before| - |sock.Pending()| + |sock.arrived| >= there
      {
        ghost var rest := sock.Pending();
        var r, octets := sock.Read(1024);
        Behind(before, rest, octets, sock.Pending());
      }
    }

    /** The state 0 part; in state 1 afterwards the payload is to be read next. */
    method ReadHeader(sock: Socket, buf: array<byte>) returns (code: int)
      requires Valid(buf) && state == 0
      modifies `state, `bytestoread, `bytesread, `hdr, sock, buf
      ensures state == 0 || (state == 1 && code == 0 && Filling() && bytesread == 0 && hdr.magic == MAGIC)
      ensures state == 1 ==>
                var before := old(sock.Pending());
                |before| >= HEADER_LENGTH && hdr == ParseHeader(before[..HEADER_LENGTH]) &&
                    sock.Pending() == before[HEADER_LENGTH..]
      // the last octets of the place for the payload are cleared
      ensures forall i :: 0 <= i < buf.Length ==>
                buf[i] == if state == 1 && 16 < bytestoread && bytestoread - 16 <= i < bytestoread then 0
                          else old(buf[i])
      ensures state == 0 ==> code == 0 || code == JC_ERR || Bad(code)
      ensures state == 0 && !Bad(code) ==> sock.Pending() == old(sock.Pending()) && hdr == NO_HEADER
      ensures state == 0 ==> bytestoread == 0 && bytesread == 0
      ensures code == JC_ERR <==> sock.closing && old(sock.Pending()) == []
      ensures Bad(code) ==>
                && |old(sock.Pending())| >= HEADER_LENGTH
                && var h := ParseHeader(old(sock.Pending())[..HEADER_LENGTH]);
                   if code == JC_ERR_BAD_MAGIC then h.magic != MAGIC else h.magic == MAGIC && h.msglen >= JC_MAX_MSGLEN
      // a header that is wrong is taken with whatever stands behind it
      ensures Bad(code) ==> EndsWith(old(sock.Pending())[HEADER_LENGTH..], sock.Pending())
      ensures Bad(code) && old(Smooth(sock.sched)) ==>
                var dropped := |old(sock.Pending())| - |sock.Pending()|;
                dropped >= |old(sock.arrived)| || dropped >= HEADER_LENGTH + 1024 * 1024
      ensures sock.closing == old(sock.closing) && (old(sock.Quiet()) ==> sock.Quiet()) &&
              (old(sock.Comes()) ==> sock.Comes()) && sock.now >= old(sock.now)
      ensures |sock.sched| < |old(sock.sched)| || sock.sched == []
      ensures old(Smooth(sock.sched)) && |old(sock.arrived)| >= HEADER_LENGTH ==>
                code != 0 || (state == 1 && Smooth(sock.sched) && |sock.arrived| >= |old(sock.arrived)| - HEADER_LENGTH)
    {
      hide ParseHeader, Smooth, Arrivals, Socket.Quiet, Socket.Comes, EndsWith;
      hdr := NO_HEADER;
      bytesread := 0;
      bytestoread := 0;
      var r := sock.Peek();
      if r == JC_ERR {
        return JC_ERR;
      }
      if r < HEADER_LENGTH {
        return 0;
      }
      var octets;
      r, octets := sock.Read(HEADER_LENGTH);
      if r == 0 {
        return JC_ERR;
      }
      code := 0;
      if r == HEADER_LENGTH {
        assert octets == old(sock.Pending())[..HEADER_LENGTH] && sock.Pending() == old(sock.Pending())[HEADER_LENGTH..];
        hdr := ParseHeader(octets);
        if hdr.magic != MAGIC {
          Drain(sock);
          return JC_ERR_BAD_MAGIC;
        }
        if hdr.msglen >= JC_MAX_MSGLEN {
          Drain(sock);
          return JC_ERR_BAD_VALUE;
        }
        bytestoread := hdr.msglen;
        if bytestoread > 16 {
          forall i | bytestoread - 16 <= i < bytestoread {
            buf[i] := 0;
          }
        }
        state := 1;
      }
    }

    /** The state 0 part on a connection that carries well-formed messages. */
    method FollowHeader(sock: Socket, buf: array<byte>) returns (code: int)
      requires Valid(buf) && state == 0
      modifies `state, `bytestoread, `bytesread, `hdr, sock, buf
      ensures state == 0 || (state == 1 && code == 0 && Filling())
      ensures state == 0 ==> code == 0 || code == JC_ERR || Bad(code)
      ensures old(Tracks(sock, buf)) ==> Tracks(sock, buf) && !Bad(code) && (state == 1 ==> bytestoread > 0)
      ensures code == JC_ERR <==> sock.closing && old(sock.Pending()) == []
      ensures code == JC_ERR ==> sock.Pending() == []
      ensures old(Tracks(sock, buf)) && code == JC_ERR && lost == [] ==> n == |sent|
      ensures old(Tracks(sock, buf) && Ready(sock)) ==> state == 1 && Ready(sock)
      ensures sock.closing == old(sock.closing) && (old(sock.Quiet()) ==> sock.Quiet()) &&
              (old(sock.Comes()) ==> sock.Comes()) && sock.now >= old(sock.now)
      ensures |sock.sched| < |old(sock.sched)| || sock.sched == []
    {
      hide Frame, Rest, PartOf, ParseHeader, HeaderOctets, Smooth, Arrivals, Socket.Quiet, Socket.Comes;
      hide EndsWith;
      ghost var before := sock.Pending();
      ghost var tracks := Tracks(sock, buf);
      code := ReadHeader(sock, buf);
      if tracks && lost == [] {
        NoneLeft(sent, n);
      }
      if tracks && |before| >= HEADER_LENGTH {
        NextFrame(sent, n, before, lost);
        assert buf[..0] == [];
      }
    }

    /** One read of the payload and its account. */
    method ReadMore(sock: Socket, buf: array<byte>) returns (r: int)
      requires buf.Length >= JC_MAX_MSGLEN && Filling()
      modifies `bytestoread, `bytesread, sock, buf
      ensures Filling()
      ensures old(AllSendable(sent) && n <= |sent| && InPayload(sock, buf)) ==> InPayload(sock, buf)
      ensures r == 0 && old(bytestoread) > 0 ==> bytestoread > 0 && sock.closing && sock.Pending() == []
      ensures old(Smooth(sock.sched) && sock.closing && sock.Pending() == []) ==> r == 0
      ensures old(Smooth(sock.sched)) && |old(sock.arrived)| >= old(bytestoread) ==>
              bytestoread == 0 && r == old(bytestoread)
      ensures old(sock.sched) == [] ==> sock.sched == [] && sock.now == old(sock.now) + 1
      ensures old(sock.sched) != [] ==> |sock.sched| < |old(sock.sched)| && sock.now >= old(sock.now)
      ensures sock.asked == old(sock.now)
      ensures sock.closing == old(sock.closing) && (old(sock.Quiet()) ==> sock.Quiet()) &&
              (old(sock.Comes()) ==> sock.Comes()) && sock.now >= old(sock.now)
      ensures |sock.sched| < |old(sock.sched)| || sock.sched == []
    {
      hide Rest, Frame, HeaderOctets, PartOf, Smooth, Arrivals, Socket.Quiet, Socket.Comes;
      ghost var follows := AllSendable(sent) && n <= |sent| && InPayload(sock, buf);
      ghost var front := buf[..bytesread];
      ghost var data;
      r, data := sock.ReadInto(buf, bytesread, bytestoread);
      assert buf[..bytesread + |data|] == front + data;
      if follows {
        MoreOf(sent[n].payload, bytesread, front, data, sock.Pending(), lost, Rest(sent, n + 1));
      }
      if r >= 1 {
        bytesread := bytesread + r;
        bytestoread := bytestoread - r;
      }
    }

    /** Reads until the payload is complete, the time is up or the stream ends. */
    method ReadChunks(sock: Socket, buf: array<byte>, timeoutms: int) returns (ended: bool, timems: int)
      requires buf.Length >= JC_MAX_MSGLEN && Filling()
      modifies `bytestoread, `bytesread, sock, buf
      ensures Filling()
      ensures old(AllSendable(sent) && n <= |sent| && InPayload(sock, buf)) ==> InPayload(sock, buf)
      ensures ended && old(bytestoread) > 0 ==> bytestoread > 0 && sock.closing && sock.Pending() == []
      ensures old(Smooth(sock.sched) && sock.closing && sock.Pending() == []) ==> ended
      ensures !ended ==> timems == sock.now - old(sock.now) && (bytestoread == 0 || timems >= timeoutms)
      // no read but the first begins when the time is up
      ensures sock.asked == old(sock.now) || old(sock.now) <= sock.asked < old(sock.now) + timeoutms
      ensures old(Smooth(sock.sched) && |sock.arrived| >= bytestoread) ==>
                bytestoread == 0 && (ended <==> old(bytestoread) == 0)
      ensures sock.closing == old(sock.closing) && (old(sock.Quiet()) ==> sock.Quiet()) &&
              (old(sock.Comes()) ==> sock.Comes()) && sock.now >= old(sock.now)
      ensures |sock.sched| < |old(sock.sched)| || sock.sched == []
    {
      hide InPayload, AllSendable;
      ghost var follows := AllSendable(sent) && n <= |sent| && InPayload(sock, buf);
      ghost var ready := Smooth(sock.sched) && |sock.arrived| >= bytestoread;
      ghost var over := Smooth(sock.sched) && sock.closing && sock.Pending() == [];
      ended, timems := false, 0;
      var starttimems := sock.now;
      while true
        invariant Filling()
        invariant follows ==> InPayload(sock, buf)
        invariant ready ==> Smooth(sock.sched) && |sock.arrived| >= bytestoread
        invariant old(bytestoread) > 0 ==> bytestoread > 0
        invariant ready && old(bytestoread) == 0 ==> bytestoread == 0
        invariant over ==> Smooth(sock.sched) && sock.closing && sock.Pending() == []
        invariant sock.closing == old(sock.closing) && (old(sock.Quiet()) ==> sock.Quiet()) &&
                  (old(sock.Comes()) ==> sock.Comes())
        invariant |sock.sched| <= |old(sock.sched)| && sock.now >= old(sock.now)
        invariant sock.now == old(sock.now) || sock.now < old(sock.now) + timeoutms
        decreases |sock.sched|, starttimems + timeoutms - sock.now
      {
        // the original ends the process when this does not hold
        assert bytesread < buf.Length;
        var r := ReadMore(sock, buf);
        if r == 0 {
          ended := true;
          return;
        }
        timems := sock.now - starttimems;
        if !(bytestoread > 0 && timems < timeoutms) {
          return;
        }
      }
    }

    /** The state 1 part. */
    method ReadPayload(sock: Socket, buf: array<byte>, timeoutms: int) returns (code: int)
      requires buf.Length >= JC_MAX_MSGLEN && state == 1 && Filling()
      modifies `state, `bytestoread, `bytesread, sock, buf
      ensures code == JC_ERR || code == JC_TIMEOUT || code == JC_HAVE_DATA
      ensures code == JC_TIMEOUT ==>
                state == 1 && Filling() && bytestoread > 0 && sock.now - old(sock.now) >= timeoutms
      ensures sock.asked == old(sock.now) || old(sock.now) <= sock.asked < old(sock.now) + timeoutms
      ensures code == JC_HAVE_DATA ==> state == 0 && Filling() && bytestoread == 0
      ensures code == JC_ERR ==> state == 0
      ensures old(Tracks(sock, buf)) ==> InPayload(sock, buf)
      ensures old(bytestoread) > 0 && code == JC_ERR ==>
              Filling() && bytestoread > 0 && sock.closing && sock.Pending() == []
      ensures old(Ready(sock) && bytestoread > 0) ==> code == JC_HAVE_DATA
      ensures old(Smooth(sock.sched) && sock.closing && sock.Pending() == []) ==> code == JC_ERR
      // an empty payload is taken for a closed connection
      ensures old(Smooth(sock.sched) && bytestoread == 0) ==> code == JC_ERR
      ensures sock.closing == old(sock.closing) && (old(sock.Quiet()) ==> sock.Quiet()) &&
              (old(sock.Comes()) ==> sock.Comes()) && sock.now >= old(sock.now)
      ensures |sock.sched| < |old(sock.sched)| || sock.sched == []
    {
      hide InPayload;
      var ended, timems := ReadChunks(sock, buf, timeoutms);
      if ended {
        state := 0;
        return JC_ERR;
      }
      if timems >= timeoutms && bytestoread > 0 {
        return JC_TIMEOUT;
      }
      state := 0;
      code := JC_HAVE_DATA;
    }

    /** One call. The last four arguments of the original are in-out parameters: outside of a delivery
        they keep what the caller passed in, except that an idle reader clears them. */
    method ReadMessage(sock: Socket, buf: array<byte>, msgtype0: u16, reqid0: u16, sendtimems0: u64, timeoutms: int)
      returns (code: int, msgtype: u16, reqid: u16, sendtimems: u64)
      requires Valid(buf)
      modifies this, sock, buf
      ensures Valid(buf)
      ensures code == 0 || code == JC_HAVE_DATA || code == JC_TIMEOUT || code == JC_ERR || Bad(code)
      ensures code == JC_TIMEOUT ==> state == 1 && sock.now - old(sock.now) >= timeoutms
      ensures code != JC_HAVE_DATA ==>
                && n == old(n)
                && (msgtype, reqid, sendtimems) ==
                   if old(state) == 0 then (0, 0, 0) else (msgtype0, reqid0, sendtimems0)
      // at the end of the stream, at once or as soon as nothing interrupts
      ensures old(sock.closing && sock.Pending() == [] && (state == 0 || Smooth(sock.sched))) ==> code == JC_ERR
      // on a connection that carries well-formed messages
      ensures old(Tracks(sock, buf)) && code != JC_ERR ==> Tracks(sock, buf)
      ensures old(Tracks(sock, buf)) ==> !Bad(code)
      ensures old(Tracks(sock, buf)) && code == JC_ERR ==>
                sock.closing && sock.Pending() == [] && (lost == [] ==> n == |sent|)
      ensures old(Tracks(sock, buf)) && code == JC_HAVE_DATA ==>
                n == old(n) + 1 <= |sent| && Delivered(sent[n - 1], buf[..], msgtype, reqid, sendtimems)
      ensures old(Tracks(sock, buf) && Ready(sock)) ==> code == JC_HAVE_DATA
      ensures code == JC_HAVE_DATA ==> state == 0 && 0 <= bytesread == hdr.msglen < buf.Length
      ensures old(Tracks(sock, buf)) && code == JC_HAVE_DATA ==> bytesread == |sent[n - 1].payload|
      ensures sock.closing == old(sock.closing) && (old(sock.Quiet()) ==> sock.Quiet()) &&
              (old(sock.Comes()) ==> sock.Comes()) && sock.now >= old(sock.now)
      ensures |sock.sched| < |old(sock.sched)| || sock.sched == []
    {
      hide Rest, Frame, PartOf, ParseHeader;
      ghost var tracks := Tracks(sock, buf);
      msgtype, reqid, sendtimems := msgtype0, reqid0, sendtimems0;
      if state == 0 {
        msgtype, reqid, sendtimems := 0, 0, 0;
        code := FollowHeader(sock, buf);
        if state == 0 {
          return;
        }
      }
      code := ReadPayload(sock, buf, timeoutms);
      if tracks {
        Outcome(sent[n].payload, bytesread, buf[..bytesread], sock.Pending() + lost, Rest(sent, n + 1));
      }
      if code == JC_HAVE_DATA {
        reqid, msgtype, sendtimems := hdr.reqid, hdr.msgtype, hdr.sendtimems;
        assert tracks ==> buf[..][..bytesread] == buf[..bytesread];
        if tracks {
          n := n + 1;
        }
      }
    }
  }

  lemma NextIsThere(ms: seq<Message>, n: nat)
    requires AllSendable(ms) && n < |ms|
    ensures |Rest(ms, n)| >= HEADER_LENGTH + |ms[n].payload|
  {
  }

  /** When everything has arrived the rest of the current frame is there. */
  lemma ReadyAtLast(reader: MessageReader, sock: Socket, buf: array<byte>)
    requires reader.Valid(buf) && reader.Tracks(sock, buf) && reader.lost == [] && reader.n < |reader.sent|
    requires sock.Quiet()
    ensures reader.Ready(sock)
  {
    hide Rest, Frame;
    NextIsThere(reader.sent, reader.n);
    assert sock.Pending() + [] == sock.arrived;
  }

  lemma Extends(ms: seq<Message>, n: nat, buf: seq<byte>, m: Message)
    requires 0 < n <= |ms| && |ms[n - 1].payload| <= |buf| && m.payload == buf[..|ms[n - 1].payload|]
    requires Delivered(ms[n - 1], buf, m.msgtype, m.reqid, m.sendtimems)
    ensures ms[..n - 1] + [m] == ms[..n]
  {
    assert m == ms[n - 1];
  }

  /** The messages that a buffer and the out-parameters describe, one per delivery. */
  method ReceiveAll(reader: MessageReader, sock: Socket, buf: array<byte>, calls: nat, timeoutms: int)
    returns (got: seq<Message>, code: int)
    requires reader.Valid(buf) && reader.Tracks(sock, buf) && reader.n == 0
    modifies reader, sock, buf
    ensures got <= reader.sent
    ensures code == JC_ERR ==> sock.closing && sock.Pending() == []
    ensures code == JC_ERR && reader.lost == [] ==> got == reader.sent
    // when everything has arrived, as many calls as messages are enough
    ensures old(sock.Quiet() && reader.state == 0) && reader.lost == [] && calls >= |reader.sent| ==> got == reader.sent
    // when it arrives some time, a call for each interruption or delay more
    ensures old(sock.Comes()) && reader.lost == [] && calls >= |old(sock.sched)| + |reader.sent| ==> got == reader.sent
  {
    hide Rest, Frame;
    ghost var there := sock.Quiet() && reader.state == 0 && reader.lost == [];
    ghost var comes := sock.Comes() && reader.lost == [];
    ghost var left := |sock.sched| + |reader.sent|;
    got, code := [], 0;
    var msgtype, reqid, sendtimems := 0, 0, 0;
    for i := 0 to calls
      invariant reader.Valid(buf) && reader.Tracks(sock, buf) && got == reader.sent[..reader.n]
      invariant code != JC_ERR
      invariant there ==> sock.Quiet() && reader.state == 0 && (reader.n >= i || reader.n == |reader.sent|)
      invariant comes ==> sock.Comes()
      invariant comes ==>
                  (sock.sched == [] && reader.n == |reader.sent|) || i + |sock.sched| + |reader.sent| - reader.n <= left
    {
      if (there || (comes && sock.sched == [])) && reader.n < |reader.sent| {
        ReadyAtLast(reader, sock, buf);
      }
      code, msgtype, reqid, sendtimems := reader.ReadMessage(sock, buf, msgtype, reqid, sendtimems, timeoutms);
      if code == JC_ERR {
        return;
      }
      if code == JC_HAVE_DATA {
        got := got + [Message(msgtype, reqid, sendtimems, buf[..reader.bytesread])];
        Extends(reader.sent, reader.n, buf[..], got[reader.n - 1]);
      }
    }
  }
}
