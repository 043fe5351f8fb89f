/** How often images are written to the archive. */
module Archiver {
  import opened Jcamsys

  /** What becomes of a write: everything is written, less than everything, write() fails, or open() does. */
  datatype Outcome = Whole | Short | Failed | NotOpened

  /** An image that is offered: the clock when the decision is made and after the write, whether the archiver
      is configured for this size and switched on, and what becomes of the write. */
  datatype Offer = Offer(img: nat, cam: nat, now: nat, after: nat, configured: bool, enabled: bool, outcome: Outcome)

  // Image number JC_MAX_IMAGES passes the range check of the server and can be selected for archiving; its row
  // stands for the memory behind the array.
  predicate Fits(o: Offer)
  {
    o.img <= JC_MAX_IMAGES && o.cam <= JC_MAX_CAMS
  }

  const WRAP64: nat := 0x1_0000_0000_0000_0000

  /** A difference of two 64-bit unsigned times: one that lies ahead of the clock counts as long ago. */
  function Elapsed(now: int, last: int): (d: nat)
    ensures d < WRAP64
    ensures 0 <= now - last < WRAP64 ==> d == now - last
    ensures 0 < last - now <= WRAP64 ==> d == now - last + WRAP64
    ensures now >= last ==> d <= now - last
  {
    (now - last) % WRAP64
  }

  /** Time to write a file again? */
  predicate Due(o: Offer, last: int, rate: nat)
  {
    o.configured && o.enabled && (Elapsed(o.now, last) > rate || rate == 0)
  }

  /** Between two times of the 64-bit clock a write is due when more than the rate has passed, and also when the
      stored time is ahead, unless it is ahead by almost the whole range. */
  lemma DueIff(o: Offer, last: int, rate: nat)
    requires o.configured && o.enabled && o.now < WRAP64 && 0 <= last < WRAP64 && rate > 0
    ensures Due(o, last, rate) <==> o.now - last > rate || (o.now < last && last - o.now < WRAP64 - rate)
  {
  }

  /** A process that serves a camera which has connected again starts without times: with any later time of the
      clock its first image is due at once, however recently another process has written one. */
  lemma NewProcessIsDue(o: Offer, rate: nat)
    requires o.configured && o.enabled && rate < o.now < WRAP64
    ensures Due(o, 0, rate)
  {
  }

  /** The archiver of one server process. */
  class Archive {
    const lastwritten: array2<int>
    var archivingOk: bool
    var enableArchiver: bool
    var seChanged: nat
    var filesWritten: nat
    // 1 or 0 as last told, -1 in the beginning
    var ptorf: int

    ghost predicate Valid()
      reads this
    {
      lastwritten.Length0 == JC_MAX_IMAGES + 1 && lastwritten.Length1 == JC_MAX_CAMS + 1
    }

    constructor (enableArchiver: bool)
      ensures Valid() && fresh(lastwritten) && this.enableArchiver == enableArchiver && ptorf == -1
      ensures forall i, c :: 0 <= i <= JC_MAX_IMAGES && 0 <= c <= JC_MAX_CAMS ==> lastwritten[i, c] == 0
    {
      lastwritten := new int[JC_MAX_IMAGES + 1, JC_MAX_CAMS + 1]((i, c) => 0);
      archivingOk, seChanged, filesWritten, ptorf := false, 0, 0, -1;
      this.enableArchiver := enableArchiver;
    }

    /** The first time something changes, the switch in the settings follows. */
    method ArState(torf: bool)
      modifies `ptorf, `archivingOk, `enableArchiver, `seChanged
      ensures ptorf == if torf then 1 else 0
      ensures if old(ptorf) == ptorf
              then && archivingOk == old(archivingOk) && enableArchiver == old(enableArchiver)
                   && seChanged == old(seChanged)
              else archivingOk == enableArchiver == torf && seChanged == (old(seChanged) + 1) % 0x1_0000
    {
      if (if torf then 1 else 0) != ptorf {
        ptorf := if torf then 1 else 0;
        archivingOk := torf;
        enableArchiver := torf;
        seChanged := (seChanged + 1) % 0x1_0000;
      }
    }

    /** Offers an image; a write that fails counts like one that succeeds. */
    method AddImage(o: Offer, rate: nat) returns (attempted: bool)
      requires Valid() && Fits(o) && enableArchiver == o.enabled
      modifies this, lastwritten
      ensures Valid() && attempted == Due(o, old(lastwritten[o.img, o.cam]), rate)
      ensures attempted <==> o.configured && o.enabled && (rate == 0 ||
                               (o.now - old(lastwritten[o.img, o.cam])) % WRAP64 > rate)
      ensures forall i, c :: 0 <= i <= JC_MAX_IMAGES && 0 <= c <= JC_MAX_CAMS ==>
                lastwritten[i, c] == if attempted && (i, c) == (o.img, o.cam) then o.after else old(lastwritten[i, c])
      ensures filesWritten == old(filesWritten) + if attempted then 1 else 0
      ensures attempted && o.outcome != NotOpened ==> archivingOk == (o.outcome == Whole)
      // a failure is told once; one that write() reports as such is not told
      ensures attempted && o.outcome in {Short, NotOpened} && old(ptorf) != 0 ==> !archivingOk && !enableArchiver
      ensures attempted && (o.outcome in {Whole, Failed} || old(ptorf) == 0) ==> enableArchiver
      ensures !attempted ==> archivingOk == old(archivingOk) && enableArchiver == old(enableArchiver)
      ensures var told := attempted && o.outcome in {Short, NotOpened};
              && ptorf == (if told then 0 else old(ptorf))
              && seChanged == if told && old(ptorf) != 0 then (old(seChanged) + 1) % 0x1_0000 else old(seChanged)
    {
      if !o.configured || !enableArchiver {
        return false;
      }
      attempted := Elapsed(o.now, lastwritten[o.img, o.cam]) > rate || rate == 0;
      if attempted {
        if o.outcome != NotOpened {
          archivingOk := o.outcome == Whole;
        }
        if o.outcome == NotOpened || o.outcome == Short {
          ArState(false);
        }
        lastwritten[o.img, o.cam] := o.after;
        filesWritten := filesWritten + 1;
      }
    }
  }

  /** The times of the attempts for one image size of one camera. */
  function Attempts(offers: seq<Offer>, img: nat, cam: nat, last: int, rate: nat): (times: seq<int>)
    decreases |offers|
  {
    if offers == [] then []
    else if (offers[0].img, offers[0].cam) == (img, cam) && Due(offers[0], last, rate) then
      [offers[0].now] + Attempts(offers[1..], img, cam, offers[0].after, rate)
    else Attempts(offers[1..], img, cam, last, rate)
  }

  /** Offers one image after the other, between which somebody may turn the switch. */
  method AddImages(archive: Archive, offers: seq<Offer>, rate: nat, img: nat, cam: nat) returns (times: seq<int>)
    requires archive.Valid() && img <= JC_MAX_IMAGES && cam <= JC_MAX_CAMS
    requires forall i :: 0 <= i < |offers| ==> Fits(offers[i])
    modifies archive, archive.lastwritten
    ensures times == Attempts(offers, img, cam, old(archive.lastwritten[img, cam]), rate)
  {
    times := [];
    assert offers[0..] == offers;
    for i := 0 to |offers|
      invariant archive.Valid()
      invariant times + Attempts(offers[i..], img, cam, archive.lastwritten[img, cam], rate)
             == Attempts(offers, img, cam, old(archive.lastwritten[img, cam]), rate)
    {
      ghost var rest := offers[i..];
      assert rest[0] == offers[i] && rest[1..] == offers[i + 1..];
      archive.enableArchiver := offers[i].enabled;
      var attempted := archive.AddImage(offers[i], rate);
      if attempted && (offers[i].img, offers[i].cam) == (img, cam) {
        Append(times, offers[i].now, Attempts(rest[1..], img, cam, offers[i].after, rate));
        times := times + [offers[i].now];
      }
    }
    assert times + [] == times;
  }

  /** Every attempt is made when an image of that size of that camera is offered, configured and switched on. */
  lemma {:induction false} AttemptIsOffer(offers: seq<Offer>, img: nat, cam: nat, last: int, rate: nat, k: nat)
      returns (i: nat)
    requires k < |Attempts(offers, img, cam, last, rate)|
    ensures k <= i < |offers| && Attempts(offers, img, cam, last, rate)[k] == offers[i].now
    ensures (offers[i].img, offers[i].cam) == (img, cam) && offers[i].configured && offers[i].enabled
    decreases |offers|
  {
    hide Elapsed;
    var attempted := (offers[0].img, offers[0].cam) == (img, cam) && Due(offers[0], last, rate);
    if attempted && k == 0 {
      i := 0;
    } else if attempted {
      i := AttemptIsOffer(offers[1..], img, cam, offers[0].after, rate, k - 1);
      i := i + 1;
    } else {
      i := AttemptIsOffer(offers[1..], img, cam, last, rate, k);
      i := i + 1;
    }
  }

  lemma Append(s: seq<int>, x: int, t: seq<int>)
    ensures s + ([x] + t) == s + [x] + t
  {
  }

  // ---- the rate ----

  /** A clock that never goes back. */
  predicate Ordered(offers: seq<Offer>, from: int)
    decreases |offers|
  {
    offers == [] || (from <= offers[0].now <= offers[0].after && Ordered(offers[1..], offers[0].after))
  }

  /** The first attempt comes more than the rate after the last write. */
  lemma {:induction false} FirstAttempt(offers: seq<Offer>, img: nat, cam: nat, last: int, rate: nat, from: int)
    requires rate > 0 && Ordered(offers, from) && last <= from
    ensures var times := Attempts(offers, img, cam, last, rate); times != [] ==> times[0] > last + rate
    decreases |offers|
  {
    hide Elapsed;
    if offers != [] {
      if !((offers[0].img, offers[0].cam) == (img, cam) && Due(offers[0], last, rate)) {
        FirstAttempt(offers[1..], img, cam, last, rate, offers[0].after);
      }
    }
  }

  lemma {:induction false} NextAttempt(offers: seq<Offer>, img: nat, cam: nat, last: int, rate: nat, from: int, k: nat)
    requires rate > 0 && Ordered(offers, from)
    requires k + 1 < |Attempts(offers, img, cam, last, rate)|
    ensures var times := Attempts(offers, img, cam, last, rate); times[k + 1] >= times[k] + rate + 1
    decreases |offers|
  {
    hide Elapsed;
    var o := offers[0];
    if (o.img, o.cam) == (img, cam) && Due(o, last, rate) {
      if k == 0 {
        FirstAttempt(offers[1..], img, cam, o.after, rate, o.after);
      } else {
        NextAttempt(offers[1..], img, cam, o.after, rate, o.after, k - 1);
      }
    } else {
      NextAttempt(offers[1..], img, cam, last, rate, o.after, k);
    }
  }

  /** j - i further attempts take as many periods of more than the rate. */
  function Periods(n: nat, rate: nat): nat
  {
    n * (rate + 1)
  }

  lemma OnePeriod(n: nat, rate: nat)
    ensures Periods(n + 1, rate) == Periods(n, rate) + rate + 1 && Periods(0, rate) == 0
  {
  }

  lemma {:induction false} Spaced(
      offers: seq<Offer>, img: nat, cam: nat, last: int, rate: nat, from: int, i: nat, j: nat)
    requires rate > 0 && Ordered(offers, from)
    requires i <= j < |Attempts(offers, img, cam, last, rate)|
    ensures var times := Attempts(offers, img, cam, last, rate); times[j] >= times[i] + Periods(j - i, rate)
    decreases j - i
  {
    hide Periods, Ordered, Attempts;
    OnePeriod(0, rate);
    if i < j {
      Spaced(offers, img, cam, last, rate, from, i, j - 1);
      NextAttempt(offers, img, cam, last, rate, from, j - 1);
      OnePeriod(j - 1 - i, rate);
    }
  }

  /** Within `span` milliseconds at most span / (rate + 1) + 1 attempts are made for an image size of a camera,
      whatever is offered, however long writes take and whether they succeed. */
  lemma RateLimited(offers: seq<Offer>, img: nat, cam: nat, last: int, rate: nat, from: int, i: nat, j: nat, span: nat)
    requires rate > 0 && Ordered(offers, from)
    requires i <= j < |Attempts(offers, img, cam, last, rate)|
    requires var times := Attempts(offers, img, cam, last, rate); times[j] - times[i] <= span
    ensures j - i + 1 <= span / (rate + 1) + 1
  {
    Spaced(offers, img, cam, last, rate, from, i, j);
    PeriodsWithin(j - i, rate, span);
  }

  lemma MorePeriods(m: nat, n: nat, rate: nat)
    requires m <= n
    ensures Periods(m, rate) <= Periods(n, rate)
  {
    assert (n - m) * (rate + 1) >= 0;
  }

  lemma PeriodsWithin(n: nat, rate: nat, span: nat)
    requires Periods(n, rate) <= span
    ensures n <= span / (rate + 1)
  {
    var q := span / (rate + 1);
    assert Periods(q, rate) + span % (rate + 1) == span;
    OnePeriod(q, rate);
    if n > q {
      MorePeriods(q + 1, n, rate);
    }
  }

  /** n images, each offered when the last period is over and written at once. */
  function Steady(n: nat, start: nat, rate: nat): (offers: seq<Offer>)
    ensures |offers| == n
  {
    if n == 0 then [] else [Offer(0, 1, start, start, true, true, Whole)] + Steady(n - 1, start + rate + 1, rate)
  }

  /** The limit is reached: all of them are attempted. */
  lemma {:induction false} LimitIsReached(n: nat, start: nat, rate: nat, from: int, last: int)
    requires from <= start && rate + 1 < WRAP64 && Elapsed(start, last) > rate
    ensures Ordered(Steady(n, start, rate), from)
    ensures |Attempts(Steady(n, start, rate), 0, 1, last, rate)| == n
  {
    hide Elapsed;
    if n > 0 {
      var rest := Steady(n - 1, start + rate + 1, rate);
      assert Steady(n, start, rate)[1..] == rest;
      LimitIsReached(n - 1, start + rate + 1, rate, start, start);
    }
  }
}
