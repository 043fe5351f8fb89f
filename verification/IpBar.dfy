/** The table of addresses that failed to log in, against a map from addresses to failures. */
module IpBar {
  import opened Jcamsys

  const IPBAR_TABLE_LEN: nat := 8000

  datatype Entry = Entry(ip: nat, failattempts: nat, lastfailtime: int, failcount: int)

  const FREE := Entry(0, 0, 0, 0)

  class IpBarList {
    const table: array<Entry>

    /** The failures of each address since it last logged in. */
    ghost var fails: map<nat, nat>

    ghost predicate Valid()
      reads this, table
    {
      table.Length == IPBAR_TABLE_LEN && Represents(table[..], fails)
    }

    constructor ()
      ensures Valid() && fails == map[] && fresh(table)
    {
      table := new Entry[IPBAR_TABLE_LEN](_ => FREE);
      fails := map[];
    }

    /** The most recent failure, in spite of the name. */
    method FindOlest() returns (toldest: int)
      requires table.Length == IPBAR_TABLE_LEN
      ensures forall i :: 0 <= i < IPBAR_TABLE_LEN ==> table[i].lastfailtime <= toldest
      ensures exists i :: 0 <= i < IPBAR_TABLE_LEN && table[i].lastfailtime == toldest
      ensures toldest == NewestTime(table[..])
    {
      toldest := table[0].lastfailtime;
      for i := 0 to IPBAR_TABLE_LEN
        invariant forall j :: 0 <= j < i ==> table[j].lastfailtime <= toldest
        invariant exists j :: 0 <= j < IPBAR_TABLE_LEN && table[j].lastfailtime == toldest
      {
        if toldest < table[i].lastfailtime {
          toldest := table[i].lastfailtime;
        }
      }
    }

    /** The first free slot; without one the answer is a time and not a slot at all. */
    method FindFree() returns (r: int)
      requires table.Length == IPBAR_TABLE_LEN
      ensures Listed(table[..], 0) ==>
                0 <= r < IPBAR_TABLE_LEN && table[r].ip == 0 && forall i :: 0 <= i < r ==> table[i].ip != 0
      ensures !Listed(table[..], 0) ==>
                && (forall i :: 0 <= i < IPBAR_TABLE_LEN ==> table[i].lastfailtime <= r)
                && (exists i :: 0 <= i < IPBAR_TABLE_LEN && table[i].lastfailtime == r)
      ensures r == if FirstAt(table[..], 0, 0) >= 0 then FirstAt(table[..], 0, 0) else NewestTime(table[..])
    {
      for i := 0 to IPBAR_TABLE_LEN
        invariant forall j :: 0 <= j < i ==> table[j].ip != 0
        invariant FirstAt(table[..], 0, 0) == FirstAt(table[..], 0, i)
      {
        if table[i].ip == 0 {
          return i;
        }
      }
      r := FindOlest();
    }

    method FailedConnections(ip: nat) returns (x: int)
      requires Valid() && ip != 0
      ensures x == Count(fails, ip) == TableCount(table[..], ip)
    {
      for i := 0 to IPBAR_TABLE_LEN
        invariant forall j :: 0 <= j < i ==> table[j].ip != ip
        invariant FirstAt(table[..], ip, 0) == FirstAt(table[..], ip, i)
      {
        if table[i].ip == ip {
          return table[i].failattempts;
        }
      }
      x := -1;
    }

    method FindIp(ip: nat) returns (r: int)
      requires table.Length == IPBAR_TABLE_LEN
      ensures Listed(table[..], ip) ==> 0 <= r < IPBAR_TABLE_LEN && table[r].ip == ip
      ensures !Listed(table[..], ip) && Listed(table[..], 0) ==> 0 <= r < IPBAR_TABLE_LEN && table[r].ip == 0
      ensures !Listed(table[..], ip) && !Listed(table[..], 0) ==>
                Newest(table[..], r) && exists i :: 0 <= i < IPBAR_TABLE_LEN && table[i].lastfailtime == r
      ensures r == Place(table[..], ip)
    {
      for i := 0 to IPBAR_TABLE_LEN
        invariant forall j :: 0 <= j < i ==> table[j].ip != ip
        invariant FirstAt(table[..], ip, 0) == FirstAt(table[..], ip, i)
      {
        if table[i].ip == ip {
          return i;
        }
      }
      r := FindFree();
    }

    /** Forgets an address. When there is no slot for it, the place that is cleared is wherever a time points to:
        with any time of a clock that is outside the table. */
    method ClearEntry(ip: nat)
      requires Valid() && ip != 0
      modifies this, table
      ensures Valid()
      ensures old(HasSlot(ip)) ==> fails == old(fails) - {ip}
      ensures !old(HasSlot(ip)) && !old(PointsInside()) ==> fails == old(fails) && table[..] == old(table[..])
      ensures !old(HasSlot(ip)) && old(PointsInside()) ==>
              exists other :: other in old(fails) && fails == old(fails) - {other}
      ensures table[..] == Cleared(old(table[..]), ip)
    {
      var idx := FindIp(ip);
      if !(0 <= idx < IPBAR_TABLE_LEN) {
        return;
      }
      ghost var before := table[..];
      ghost var owner: nat := if HasSlot(ip) then ip else table[idx].ip;
      IsListed(before, fails, ip);
      IsListed(before, fails, owner);
      table[idx] := Entry(0, 0, 0, table[idx].failcount);
      Forgotten(before, fails, owner, idx, table[idx]);
      fails := fails - {owner};
      assert table[..] == before[idx := table[idx]];
    }

    /** Counts one more failure of an address; `elsewhere` is what stands at a place outside the table.
        A place inside that belongs to another address goes over to this one, count and all. */
    method AddFail(ip: nat, now: int, elsewhere: nat) returns (x: int)
      requires Valid() && ip != 0
      modifies this, table
      ensures Valid()
      ensures old(HasSlot(ip)) ==> fails == old(fails)[ip := Failures(old(fails), ip) + 1] && x == Count(fails, ip)
      ensures !old(HasSlot(ip)) && !old(PointsInside()) ==>
                fails == old(fails) && table[..] == old(table[..]) && x == (elsewhere + 1) % WRAP
      ensures !old(HasSlot(ip)) && old(PointsInside()) ==>
                && x == Count(fails, ip)
                && exists other :: other in old(fails) && fails == (old(fails) - {other})[ip := old(fails)[other] + 1]
      ensures table[..] == CountedIn(old(table[..]), ip, now)
    {
      hide Represents, Place, FirstAt, NewestTime, Listed, CountedIn, Count, Failures;
      var idx := FindIp(ip);
      CountedAt(table[..], ip, now);
      IsListed(table[..], fails, ip);
      if !(0 <= idx < IPBAR_TABLE_LEN) {
        return (elsewhere + 1) % WRAP;
      }
      hide Newest;
      ghost var before := table[..];
      var entry := Entry(ip, (table[idx].failattempts + 1) % WRAP, now, table[idx].failcount);
      if HasSlot(ip) {
        CountedOn(before, fails, ip, idx, entry);
        CountOf(fails, ip, Failures(fails, ip) + 1);
        fails := fails[ip := Failures(fails, ip) + 1];
      } else {
        ghost var other: nat := table[idx].ip;
        IsUsed(before, idx);
        IsListed(before, fails, other);
        TakenOver(before, fails, ip, idx, entry);
        CountOf(fails - {other}, ip, fails[other] + 1);
        fails := (fails - {other})[ip := fails[other] + 1];
      }
      table[idx] := entry;
      assert table[..] == before[idx := table[idx]];
      x := table[idx].failattempts;
    }

    /** The address is in the table, or a slot is free. */
    ghost predicate HasSlot(ip: nat)
      reads this, table
    {
      ip in fails || Listed(table[..], 0)
    }

    /** The most recent failure, taken for a place, is one inside the table. */
    ghost predicate PointsInside()
      reads table
    {
      exists i :: 0 <= i < table.Length && 0 <= table[i].lastfailtime < table.Length &&
          Newest(table[..], table[i].lastfailtime)
    }
  }

  // ---- what the searches find ----

  /** The first slot of an address from i on, or -1. */
  function FirstAt(table: seq<Entry>, ip: nat, i: nat): (r: int)
    requires i <= |table|
    ensures r == -1 || (i <= r < |table| && table[r].ip == ip)
    ensures r == -1 <==> forall j :: i <= j < |table| ==> table[j].ip != ip
    decreases |table| - i
  {
    if i == |table| then -1 else if table[i].ip == ip then i else FirstAt(table, ip, i + 1)
  }

  function NewestTime(table: seq<Entry>): (t: int)
    requires table != []
    ensures forall i :: 0 <= i < |table| ==> table[i].lastfailtime <= t
    ensures exists i :: 0 <= i < |table| && table[i].lastfailtime == t
  {
    var last := table[|table| - 1].lastfailtime;
    if |table| == 1 then
      assert table[0].lastfailtime == last;
      last
    else
      var front := table[..|table| - 1];
      var t := NewestTime(front);
      assert forall i :: 0 <= i < |front| ==> front[i] == table[i];
      if t < last then last else t
  }

  /** The slot of an address, or the first free one, or a time. */
  function Place(table: seq<Entry>, ip: nat): int
    requires table != []
  {
    if FirstAt(table, ip, 0) >= 0 then FirstAt(table, ip, 0)
    else if FirstAt(table, 0, 0) >= 0 then FirstAt(table, 0, 0)
    else NewestTime(table)
  }

  function Cleared(table: seq<Entry>, ip: nat): (t: seq<Entry>)
    requires table != []
    ensures |t| == |table|
  {
    var p := Place(table, ip);
    if 0 <= p < |table| then table[p := Entry(0, 0, 0, table[p].failcount)] else table
  }

  function CountedIn(table: seq<Entry>, ip: nat, now: int): (t: seq<Entry>)
    requires table != []
    ensures |t| == |table|
  {
    var p := Place(table, ip);
    if 0 <= p < |table|
    then table[p := Entry(ip, (table[p].failattempts + 1) % WRAP, now, table[p].failcount)]
    else table
  }

  lemma CountedAt(table: seq<Entry>, ip: nat, now: int)
    requires table != []
    ensures var p := Place(table, ip);
            CountedIn(table, ip, now) ==
            if 0 <= p < |table|
            then table[p := Entry(ip, (table[p].failattempts + 1) % WRAP, now, table[p].failcount)]
            else table
  {
  }

  lemma {:induction false} SameFirst(a: seq<Entry>, b: seq<Entry>, ip: nat, i: nat)
    requires |a| == |b| && i <= |a|
    requires forall j :: 0 <= j < |a| ==> (a[j].ip == ip <==> b[j].ip == ip)
    ensures FirstAt(a, ip, i) == FirstAt(b, ip, i)
    decreases |a| - i
  {
    if i < |a| {
      SameFirst(a, b, ip, i + 1);
    }
  }

  /** The address is found in the table afterwards, with the time of this failure and one failure more than before. */
  lemma CountedInAt(table: seq<Entry>, ip: nat, now: int)
    requires table != [] && ip != 0 && (Listed(table, ip) || Listed(table, 0))
    ensures var t := CountedIn(table, ip, now);
            var p := FirstAt(t, ip, 0);
            && p >= 0 && t[p].ip == ip && t[p].lastfailtime == now
            && t[p].failattempts == (table[p].failattempts + 1) % WRAP
            && forall i :: 0 <= i < |table| && i != p ==> t[i] == table[i]
  {
    hide NewestTime;
    if FirstAt(table, ip, 0) >= 0 {
      SameFirst(table, CountedIn(table, ip, now), ip, 0);
    } else {
      assert CountedIn(table, ip, now)[Place(table, ip)].ip == ip;
    }
  }

  /** What the table shows for an address: its count in 16 bits, or -1. */
  function TableCount(table: seq<Entry>, ip: nat): int
  {
    if FirstAt(table, ip, 0) >= 0 then table[FirstAt(table, ip, 0)].failattempts else -1
  }

  ghost predicate Newest(table: seq<Entry>, time: int)
  {
    forall i :: 0 <= i < |table| ==> table[i].lastfailtime <= time
  }

  // ---- the table and the map ----

  lemma CountOf(fails: map<nat, nat>, ip: nat, n: nat)
    ensures Count(fails[ip := n], ip) == n % WRAP
  {
  }

  ghost predicate Listed(table: seq<Entry>, ip: nat)
  {
    exists i :: 0 <= i < |table| && table[i].ip == ip
  }

  /** Used slots show the failures of their address, and free ones none. */
  predicate Shows(table: seq<Entry>, fails: map<nat, nat>)
  {
    forall i :: 0 <= i < |table| ==>
      if table[i].ip == 0 then table[i].failattempts == 0
      else table[i].ip in fails && table[i].failattempts == fails[table[i].ip] % WRAP
  }

  predicate Once(table: seq<Entry>)
  {
    forall i, j :: 0 <= i < j < |table| && table[i].ip == table[j].ip ==> table[i].ip == 0
  }

  ghost predicate Complete(table: seq<Entry>, fails: map<nat, nat>)
  {
    forall ip :: ip in fails ==> ip != 0 && fails[ip] > 0 && Listed(table, ip)
  }

  ghost predicate Represents(table: seq<Entry>, fails: map<nat, nat>)
  {
    Shows(table, fails) && Once(table) && Complete(table, fails)
  }

  lemma IsListed(table: seq<Entry>, fails: map<nat, nat>, ip: nat)
    requires Represents(table, fails) && ip != 0
    ensures ip in fails <==> Listed(table, ip)
  {
  }

  lemma IsUsed(table: seq<Entry>, idx: nat)
    requires !Listed(table, 0) && idx < |table|
    ensures table[idx].ip != 0
  {
  }

  /** The slot of an address, or a free one for an address without a slot. */
  predicate IsFor(table: seq<Entry>, fails: map<nat, nat>, ip: nat, idx: nat)
  {
    && idx < |table| && ip != 0
    && table[idx].ip == if ip in fails then ip else 0
  }

  lemma Forgotten(table: seq<Entry>, fails: map<nat, nat>, ip: nat, idx: nat, entry: Entry)
    requires Represents(table, fails) && IsFor(table, fails, ip, idx)
    requires entry.ip == 0 && entry.failattempts == 0
    ensures Represents(table[idx := entry], fails - {ip})
  {
    var t, m := table[idx := entry], fails - {ip};
    forall other | other in m
      ensures Listed(t, other)
    {
      assert Listed(table, other);
      var i :| 0 <= i < |table| && table[i].ip == other;
      assert t[i].ip == other;
    }
  }

  lemma CountedOn(table: seq<Entry>, fails: map<nat, nat>, ip: nat, idx: nat, entry: Entry)
    requires Represents(table, fails) && IsFor(table, fails, ip, idx)
    requires entry.ip == ip && entry.failattempts == (table[idx].failattempts + 1) % WRAP
    ensures Represents(table[idx := entry], fails[ip := Failures(fails, ip) + 1])
    ensures entry.failattempts == (Failures(fails, ip) + 1) % WRAP
  {
    var t, m := table[idx := entry], fails[ip := Failures(fails, ip) + 1];
    assert table[idx].failattempts == Failures(fails, ip) % WRAP;
    assert entry.failattempts == (Failures(fails, ip) + 1) % WRAP;
    assert t[idx].ip == ip;
    hide Failures;
    forall other | other in m
      ensures Listed(t, other)
    {
      if other != ip {
        assert Listed(table, other);
        var i :| 0 <= i < |table| && table[i].ip == other;
        assert t[i].ip == other;
      }
    }
  }

  function Failures(fails: map<nat, nat>, ip: nat): nat
  {
    if ip in fails then fails[ip] else 0
  }

  /** What the table shows: the count in 16 bits, -1 for an address that it does not have. */
  function Count(fails: map<nat, nat>, ip: nat): int
  {
    if ip in fails then fails[ip] % WRAP else -1
  }

  lemma TakenOver(table: seq<Entry>, fails: map<nat, nat>, ip: nat, idx: nat, entry: Entry)
    requires Represents(table, fails) && ip != 0 && ip !in fails && idx < |table| && table[idx].ip != 0
    requires entry.ip == ip && entry.failattempts == (table[idx].failattempts + 1) % WRAP
    ensures table[idx].ip in fails
    ensures Represents(table[idx := entry], (fails - {table[idx].ip})[ip := fails[table[idx].ip] + 1])
    ensures entry.failattempts == (fails[table[idx].ip] + 1) % WRAP
  {
    var other: nat := table[idx].ip;
    var free := table[idx := FREE];
    Forgotten(table, fails, other, idx, FREE);
    var t, m := table[idx := entry], (fails - {other})[ip := fails[other] + 1];
    assert t == free[idx := entry];
    assert entry.failattempts == (fails[other] + 1) % WRAP;
    assert t[idx].ip == ip;
    forall a | a in m
      ensures Listed(t, a)
    {
      if a != ip {
        assert Listed(free, a);
        var i :| 0 <= i < |free| && free[i].ip == a;
        assert t[i].ip == a;
      }
    }
  }

  // ---- room in the table ----

  function Used(table: seq<Entry>): (n: nat)
    ensures n <= |table|
  {
    if table == [] then 0 else Used(table[..|table| - 1]) + if table[|table| - 1].ip == 0 then 0 else 1
  }

  lemma {:induction false} UsedIsFullIff(table: seq<Entry>)
    ensures Used(table) == |table| <==> !Listed(table, 0)
  {
    if table != [] {
      var front := table[..|table| - 1];
      UsedIsFullIff(front);
      assert Listed(front, 0) ==> Listed(table, 0) by {
        if Listed(front, 0) {
          var i :| 0 <= i < |front| && front[i].ip == 0;
          assert table[i].ip == 0;
        }
      }
      assert Listed(table, 0) ==> Listed(front, 0) || table[|table| - 1].ip == 0 by {
        if Listed(table, 0) {
          var i :| 0 <= i < |table| && table[i].ip == 0;
          assert i < |front| ==> front[i].ip == 0;
        }
      }
    }
  }

  function Addresses(table: seq<Entry>): (ips: set<nat>)
    ensures forall ip :: ip in ips ==> exists i :: 0 <= i < |table| && table[i].ip == ip != 0
    ensures forall i :: 0 <= i < |table| && table[i].ip != 0 ==> table[i].ip in ips
  {
    set i | 0 <= i < |table| && table[i].ip != 0 :: table[i].ip
  }

  lemma OneMoreAddress(front: seq<Entry>, last: Entry)
    requires Once(front + [last])
    ensures Addresses(front + [last]) == Addresses(front) + if last.ip == 0 then {} else {last.ip}
    ensures last.ip !in Addresses(front)
  {
    var table := front + [last];
    forall ip | ip in Addresses(table)
      ensures ip in Addresses(front) || ip == last.ip != 0
    {
      var i :| 0 <= i < |table| && table[i].ip == ip != 0;
      assert i < |front| ==> front[i].ip in Addresses(front);
    }
    forall ip | ip in Addresses(front)
      ensures ip in Addresses(table) && ip != last.ip
    {
      var i :| 0 <= i < |front| && front[i].ip == ip != 0;
      assert table[i].ip == ip && table[|front|] == last;
    }
    assert table[|front|].ip == last.ip;
  }

  lemma {:induction false} AsManyAddressesAsSlots(table: seq<Entry>)
    requires Once(table)
    ensures |Addresses(table)| == Used(table)
  {
    if table != [] {
      var front, last := table[..|table| - 1], table[|table| - 1];
      assert table == front + [last];
      AsManyAddressesAsSlots(front);
      OneMoreAddress(front, last);
      hide Addresses;
    } else {
      assert Addresses(table) == {};
    }
  }

  /** A free slot is left exactly as long as fewer addresses have failed than the table is long. */
  lemma FreeSlotIff(table: seq<Entry>, fails: map<nat, nat>)
    requires Represents(table, fails)
    ensures Listed(table, 0) <==> |fails| < |table|
  {
    UsedIsFullIff(table);
    AsManyAddressesAsSlots(table);
    assert Addresses(table) == fails.Keys by {
      forall ip | ip in fails
        ensures ip in Addresses(table)
      {
        assert Listed(table, ip);
      }
    }
  }

  // ---- the server ----

  /** A new connection goes on to authentication, or is closed. */
  method Admit(bar: IpBarList, ip: nat, maxFails: int) returns (admitted: bool)
    requires bar.Valid() && ip != 0
    ensures admitted <==> !Barred(bar.fails, ip, maxFails)
    ensures admitted <==> !TableBarred(bar.table[..], ip, maxFails)
  {
    var x := bar.FailedConnections(ip);
    admitted := !(x >= maxFails);
  }

  /** The end of an authentication. With room in the table it is the step of the runs below. */
  method Finish(bar: IpBarList, ip: nat, authenticated: bool, now: int, elsewhere: nat)
    requires bar.Valid() && ip != 0
    modifies bar, bar.table
    ensures bar.Valid()
    ensures ip in old(bar.fails) || |old(bar.fails)| < IPBAR_TABLE_LEN ==>
            bar.fails == Finished(old(bar.fails), ip, authenticated)
    ensures old(!bar.HasSlot(ip) && !bar.PointsInside()) ==>
            bar.fails == old(bar.fails) && bar.table[..] == old(bar.table[..])
    ensures old(!bar.HasSlot(ip) && bar.PointsInside()) ==>
            exists other :: other in old(bar.fails) && bar.fails == TakenFrom(old(bar.fails), other, ip, authenticated)
    ensures bar.table[..] == FinishedIn(old(bar.table[..]), ip, authenticated, now)
  {
    FreeSlotIff(bar.table[..], bar.fails);
    if !authenticated {
      var x := bar.AddFail(ip, now, elsewhere);
      return;
    }
    bar.ClearEntry(ip);
  }

  /** In a full table another address loses its slot, to this one if it failed. */
  function TakenFrom(fails: map<nat, nat>, other: nat, ip: nat, authenticated: bool): map<nat, nat>
    requires other in fails
  {
    if authenticated then fails - {other} else (fails - {other})[ip := fails[other] + 1]
  }

  function FinishedIn(table: seq<Entry>, ip: nat, authenticated: bool, now: int): (t: seq<Entry>)
    requires table != []
    ensures |t| == |table|
  {
    if authenticated then Cleared(table, ip) else CountedIn(table, ip, now)
  }

  predicate Barred(fails: map<nat, nat>, ip: nat, maxFails: int)
  {
    Count(fails, ip) >= maxFails
  }

  function Finished(fails: map<nat, nat>, ip: nat, authenticated: bool): map<nat, nat>
  {
    if authenticated then fails - {ip} else fails[ip := Failures(fails, ip) + 1]
  }

  /** Connections from several addresses at a time: `busy` are those in authentication. */
  datatype Gate = Gate(fails: map<nat, nat>, busy: multiset<nat>)

  datatype Step = Connect(ip: nat) | Done(ip: nat, authenticated: bool)

  predicate Enabled(g: Gate, step: Step)
  {
    step.Done? ==> step.ip in g.busy
  }

  function After(g: Gate, step: Step, maxFails: int): Gate
    requires Enabled(g, step)
  {
    match step
    case Connect(ip) => if Barred(g.fails, ip, maxFails) then g else g.(busy := g.busy + multiset{ip})
    case Done(ip, authenticated) => Gate(Finished(g.fails, ip, authenticated), g.busy - multiset{ip})
  }

  predicate Legal(g: Gate, steps: seq<Step>, maxFails: int)
    decreases |steps|
  {
    steps == [] || (Enabled(g, steps[0]) && Legal(After(g, steps[0], maxFails), steps[1..], maxFails))
  }

  function Run(g: Gate, steps: seq<Step>, maxFails: int): Gate
    requires Legal(g, steps, maxFails)
    decreases |steps|
  {
    if steps == [] then g else Run(After(g, steps[0], maxFails), steps[1..], maxFails)
  }

  /** Once an address is barred and none of its connections is still in authentication, it stays barred. */
  lemma {:induction false} BarredForGood(g: Gate, steps: seq<Step>, maxFails: int, ip: nat)
    requires Legal(g, steps, maxFails) && Barred(g.fails, ip, maxFails) && ip !in g.busy
    ensures var h := Run(g, steps, maxFails); Barred(h.fails, ip, maxFails) && ip !in h.busy
    ensures Failures(Run(g, steps, maxFails).fails, ip) == Failures(g.fails, ip)
    decreases |steps|
  {
    if steps != [] {
      BarredForGood(After(g, steps[0], maxFails), steps[1..], maxFails, ip);
    }
  }

  predicate EndsBarred(g: Gate, steps: seq<Step>, maxFails: int, ip: nat)
    requires Legal(g, steps, maxFails)
  {
    Barred(Run(g, steps, maxFails).fails, ip, maxFails)
  }

  /** A barred address stays barred in every run exactly when none of its connections is in authentication:
      the success of one would clear it. */
  lemma BarredForGoodIff(g: Gate, maxFails: int, ip: nat)
    requires maxFails >= 0 && Barred(g.fails, ip, maxFails)
    ensures (forall steps | Legal(g, steps, maxFails) :: EndsBarred(g, steps, maxFails, ip)) <==> ip !in g.busy
  {
    if ip in g.busy {
      var step := Done(ip, true);
      var h := After(g, step, maxFails);
      assert [step][1..] == [] && Legal(h, [], maxFails) && Run(h, [], maxFails) == h;
      assert Legal(g, [step], maxFails) && Run(g, [step], maxFails) == h;
      assert !EndsBarred(g, [step], maxFails, ip);
    } else {
      forall steps | Legal(g, steps, maxFails)
        ensures EndsBarred(g, steps, maxFails, ip)
      {
        BarredForGood(g, steps, maxFails, ip);
      }
    }
  }

  /** No address ever has more than k connections in authentication. */
  predicate Narrow(g: Gate, steps: seq<Step>, maxFails: int, ip: nat, k: nat)
    requires Legal(g, steps, maxFails)
    decreases |steps|
  {
    g.busy[ip] <= k && (steps != [] ==> Narrow(After(g, steps[0], maxFails), steps[1..], maxFails, ip, k))
  }

  function Limit(maxFails: int, k: nat): int
  {
    (if maxFails < 1 then 1 else maxFails) - 1 + k
  }

  /** The chances of an address between two logins are limited, also counting those that are still open. */
  lemma {:induction false} FailuresAreLimited(g: Gate, steps: seq<Step>, maxFails: int, ip: nat, k: nat)
    requires Legal(g, steps, maxFails) && Narrow(g, steps, maxFails, ip, k)
    requires Limit(maxFails, k) < WRAP && Failures(g.fails, ip) + g.busy[ip] <= Limit(maxFails, k)
    ensures var h := Run(g, steps, maxFails); Failures(h.fails, ip) + h.busy[ip] <= Limit(maxFails, k)
    decreases |steps|
  {
    if steps != [] {
      FailuresAreLimited(After(g, steps[0], maxFails), steps[1..], maxFails, ip, k);
    }
  }

  /** An address alone at the gate: n failures, b connections in authentication. */
  function Alone(ip: nat, n: nat, b: nat): Gate
  {
    Gate(if n == 0 then map[] else map[ip := n], multiset{}[ip := b])
  }

  /** A run from one such state to another in which never more than k connections are in authentication. */
  ghost predicate Leads(g: Gate, steps: seq<Step>, maxFails: int, ip: nat, k: nat, h: Gate)
  {
    Legal(g, steps, maxFails) && Narrow(g, steps, maxFails, ip, k) && Run(g, steps, maxFails) == h
  }

  lemma LeadsOn(g: Gate, step: Step, rest: seq<Step>, maxFails: int, ip: nat, k: nat, h: Gate)
    requires Enabled(g, step) && g.busy[ip] <= k && Leads(After(g, step, maxFails), rest, maxFails, ip, k, h)
    ensures Leads(g, [step] + rest, maxFails, ip, k, h)
  {
    assert ([step] + rest)[0] == step && ([step] + rest)[1..] == rest;
  }

  lemma LeadsNowhere(g: Gate, maxFails: int, ip: nat, k: nat)
    requires g.busy[ip] <= k
    ensures Leads(g, [], maxFails, ip, k, g)
  {
  }

  lemma FailsOnce(ip: nat, n: nat, b: nat, maxFails: int)
    requires b > 0
    ensures Enabled(Alone(ip, n, b), Done(ip, false))
    ensures After(Alone(ip, n, b), Done(ip, false), maxFails) == Alone(ip, n + 1, b - 1)
  {
  }

  lemma IsLetIn(ip: nat, n: nat, b: nat, maxFails: int)
    requires n < WRAP && maxFails >= 0 && (n == 0 || n < maxFails)
    ensures After(Alone(ip, n, b), Connect(ip), maxFails) == Alone(ip, n, b + 1)
  {
  }

  lemma {:induction false} AllFail(ip: nat, n: nat, b: nat, maxFails: int, k: nat) returns (steps: seq<Step>)
    requires b <= k
    ensures Leads(Alone(ip, n, b), steps, maxFails, ip, k, Alone(ip, n + b, 0))
    decreases b
  {
    hide After, Enabled, Leads;
    if b == 0 {
      LeadsNowhere(Alone(ip, n, 0), maxFails, ip, k);
      steps := [];
    } else {
      FailsOnce(ip, n, b, maxFails);
      var rest := AllFail(ip, n + 1, b - 1, maxFails, k);
      LeadsOn(Alone(ip, n, b), Done(ip, false), rest, maxFails, ip, k, Alone(ip, n + b, 0));
      steps := [Done(ip, false)] + rest;
    }
  }

  lemma {:induction false} AllConnect(ip: nat, n: nat, b: nat, maxFails: int, k: nat) returns (steps: seq<Step>)
    requires b <= k && n < WRAP && maxFails >= 0 && (n == 0 || n < maxFails)
    ensures Leads(Alone(ip, n, b), steps, maxFails, ip, k, Alone(ip, n + k, 0))
    decreases k - b
  {
    hide After, Enabled, Leads;
    if b == k {
      steps := AllFail(ip, n, b, maxFails, k);
    } else {
      IsLetIn(ip, n, b, maxFails);
      var rest := AllConnect(ip, n, b + 1, maxFails, k);
      LeadsOn(Alone(ip, n, b), Connect(ip), rest, maxFails, ip, k, Alone(ip, n + k, 0));
      steps := [Connect(ip)] + rest;
    }
  }

  lemma {:induction false} OneAfterTheOther(ip: nat, n: nat, m: nat, maxFails: int, k: nat) returns (steps: seq<Step>)
    requires k > 0 && n <= m < WRAP && maxFails >= 0 && (m == 0 || m < maxFails)
    ensures Leads(Alone(ip, n, 0), steps, maxFails, ip, k, Alone(ip, m + k, 0))
    decreases m - n
  {
    hide After, Enabled, Leads;
    if n == m {
      steps := AllConnect(ip, n, 0, maxFails, k);
    } else {
      var end := Alone(ip, m + k, 0);
      IsLetIn(ip, n, 0, maxFails);
      FailsOnce(ip, n, 1, maxFails);
      var rest := OneAfterTheOther(ip, n + 1, m, maxFails, k);
      LeadsOn(Alone(ip, n, 1), Done(ip, false), rest, maxFails, ip, k, end);
      LeadsOn(Alone(ip, n, 0), Connect(ip), [Done(ip, false)] + rest, maxFails, ip, k, end);
      steps := [Connect(ip)] + ([Done(ip, false)] + rest);
    }
  }

  /** The limit is reached: some run from the empty table has that many failures. */
  lemma LimitIsReached(maxFails: int, ip: nat, k: nat) returns (steps: seq<Step>)
    requires maxFails >= 0 && k > 0 && Limit(maxFails, k) < WRAP
    ensures Legal(Gate(map[], multiset{}), steps, maxFails) && Narrow(Gate(map[], multiset{}), steps, maxFails, ip, k)
    ensures Failures(Run(Gate(map[], multiset{}), steps, maxFails).fails, ip) == Limit(maxFails, k)
  {
    var m := if maxFails < 1 then 0 else maxFails - 1;
    assert Alone(ip, 0, 0) == Gate(map[], multiset{});
    steps := OneAfterTheOther(ip, 0, m, maxFails, k);
  }

  /** From an empty table: a connection reaches authentication exactly when its address has failed
      fewer than maxFails times since it last logged in, or never. */
  lemma AdmittedIff(steps: seq<Step>, maxFails: int, ip: nat, k: nat)
    requires Legal(Gate(map[], multiset{}), steps, maxFails) && Narrow(Gate(map[], multiset{}), steps, maxFails, ip, k)
    requires Limit(maxFails, k) < WRAP && maxFails >= 0
    ensures var fails := Run(Gate(map[], multiset{}), steps, maxFails).fails;
            !Barred(fails, ip, maxFails) <==> ip !in fails || fails[ip] < maxFails
  {
    FailuresAreLimited(Gate(map[], multiset{}), steps, maxFails, ip, k);
  }

  // ---- runs on the table, full or not ----

  /** The table and the connections in authentication. */
  datatype Desk = Desk(table: seq<Entry>, busy: multiset<nat>)

  datatype Event = Arrive(ip: nat) | Leave(ip: nat, authenticated: bool, now: int)

  /** All failure times lie behind the places of the table, as those of a clock do from the third hour of 1970 on. */
  predicate Timely(table: seq<Entry>)
  {
    forall i :: 0 <= i < |table| && table[i].ip != 0 ==> table[i].lastfailtime >= IPBAR_TABLE_LEN
  }

  predicate Sound(d: Desk)
  {
    |d.table| == IPBAR_TABLE_LEN && Timely(d.table)
  }

  predicate TableBarred(table: seq<Entry>, ip: nat, maxFails: int)
  {
    TableCount(table, ip) >= maxFails
  }

  predicate Possible(d: Desk, event: Event)
  {
    event.ip != 0 && (event.Leave? ==> event.ip in d.busy && event.now >= IPBAR_TABLE_LEN)
  }

  /** The place for an address is its own, a free one, or none. */
  lemma PlaceIsOwnOrFree(table: seq<Entry>, ip: nat)
    requires |table| == IPBAR_TABLE_LEN && Timely(table)
    ensures var p := Place(table, ip); 0 <= p < |table| ==> table[p].ip == ip || table[p].ip == 0
  {
  }

  /** Another address is not touched, even if the table is full. */
  lemma OthersKeep(table: seq<Entry>, ip: nat, authenticated: bool, now: int, other: nat)
    requires |table| == IPBAR_TABLE_LEN && Timely(table) && now >= IPBAR_TABLE_LEN && ip != 0
    ensures var t := FinishedIn(table, ip, authenticated, now);
            Timely(t) && (other != 0 && other != ip ==> TableCount(t, other) == TableCount(table, other))
  {
    var t := FinishedIn(table, ip, authenticated, now);
    PlaceIsOwnOrFree(table, ip);
    hide Place;
    if other != 0 && other != ip {
      SameFirst(table, t, other, 0);
    }
  }

  function Next(d: Desk, event: Event, maxFails: int): (e: Desk)
    requires Sound(d) && Possible(d, event)
    ensures Sound(e)
  {
    match event
    case Arrive(ip) => if TableBarred(d.table, ip, maxFails) then d else d.(busy := d.busy + multiset{ip})
    case Leave(ip, authenticated, now) =>
      OthersKeep(d.table, ip, authenticated, now, 0);
      Desk(FinishedIn(d.table, ip, authenticated, now), d.busy - multiset{ip})
  }

  lemma TableShows(table: seq<Entry>, fails: map<nat, nat>, ip: nat)
    requires Represents(table, fails) && ip != 0
    ensures TableCount(table, ip) == Count(fails, ip)
  {
    IsListed(table, fails, ip);
  }

  lemma PlaceIsFor(table: seq<Entry>, fails: map<nat, nat>, ip: nat)
    requires Represents(table, fails) && ip != 0 && (ip in fails || |fails| < |table|)
    ensures table != [] && 0 <= Place(table, ip) < |table| && IsFor(table, fails, ip, Place(table, ip))
  {
    FreeSlotIff(table, fails);
    IsListed(table, fails, ip);
    hide Represents, NewestTime;
  }

  lemma FinishedRepresents(table: seq<Entry>, fails: map<nat, nat>, ip: nat, authenticated: bool, now: int)
    requires Represents(table, fails) && ip != 0 && (ip in fails || |fails| < |table|)
    ensures Represents(FinishedIn(table, ip, authenticated, now), Finished(fails, ip, authenticated))
  {
    hide Represents, Place, IsFor, FirstAt, NewestTime, Listed;
    PlaceIsFor(table, fails, ip);
    var p := Place(table, ip);
    if authenticated {
      Forgotten(table, fails, ip, p, Entry(0, 0, 0, table[p].failcount));
    } else {
      CountedOn(table, fails, ip, p, Entry(ip, (table[p].failattempts + 1) % WRAP, now, table[p].failcount));
    }
  }

  /** As long as there is room, what happens on the table is a step of the runs above. */
  lemma TableFollows(d: Desk, g: Gate, event: Event, maxFails: int)
    requires Sound(d) && Possible(d, event) && Represents(d.table, g.fails) && d.busy == g.busy
    requires event.ip in g.fails || |g.fails| < IPBAR_TABLE_LEN
    ensures var step := if event.Arrive? then Connect(event.ip) else Done(event.ip, event.authenticated);
            && Enabled(g, step)
            && Represents(Next(d, event, maxFails).table, After(g, step, maxFails).fails)
            && Next(d, event, maxFails).busy == After(g, step, maxFails).busy
  {
    hide Represents, FinishedIn, Finished, TableCount, Count;
    TableShows(d.table, g.fails, event.ip);
    if event.Leave? {
      FinishedRepresents(d.table, g.fails, event.ip, event.authenticated, event.now);
    }
  }

  predicate Happens(d: Desk, events: seq<Event>, maxFails: int)
    requires Sound(d)
    decreases |events|
  {
    events == [] || (Possible(d, events[0]) && Happens(Next(d, events[0], maxFails), events[1..], maxFails))
  }

  function Afterwards(d: Desk, events: seq<Event>, maxFails: int): Desk
    requires Sound(d) && Happens(d, events, maxFails)
    decreases |events|
  {
    if events == [] then d else Afterwards(Next(d, events[0], maxFails), events[1..], maxFails)
  }

  lemma {:induction false} TableBarredForGood(d: Desk, events: seq<Event>, maxFails: int, ip: nat)
    requires Sound(d) && Happens(d, events, maxFails) && ip != 0
    requires TableBarred(d.table, ip, maxFails) && ip !in d.busy
    ensures TableBarred(Afterwards(d, events, maxFails).table, ip, maxFails)
    decreases |events|
  {
    hide TableCount, FinishedIn;
    if events != [] {
      var event := events[0];
      if event.Leave? {
        OthersKeep(d.table, event.ip, event.authenticated, event.now, ip);
      }
      TableBarredForGood(Next(d, event, maxFails), events[1..], maxFails, ip);
    }
  }

  predicate EndsTableBarred(d: Desk, events: seq<Event>, maxFails: int, ip: nat)
    requires Sound(d) && Happens(d, events, maxFails)
  {
    TableBarred(Afterwards(d, events, maxFails).table, ip, maxFails)
  }

  /** A login clears the slot of its address. */
  lemma LoginClears(table: seq<Entry>, ip: nat)
    requires |table| == IPBAR_TABLE_LEN && Once(table) && ip != 0 && TableCount(table, ip) >= 0
    ensures TableCount(Cleared(table, ip), ip) == -1
  {
  }

  /** On the table, with room or full: a barred address stays barred in every run exactly when none of its
      connections is in authentication. */
  lemma TableBarredForGoodIff(d: Desk, maxFails: int, ip: nat)
    requires Sound(d) && Once(d.table) && ip != 0 && maxFails >= 0 && TableBarred(d.table, ip, maxFails)
    ensures (forall events | Happens(d, events, maxFails) :: EndsTableBarred(d, events, maxFails, ip)) <==>
            ip !in d.busy
  {
    if ip in d.busy {
      var event := Leave(ip, true, IPBAR_TABLE_LEN);
      var e := Next(d, event, maxFails);
      LoginClears(d.table, ip);
      hide TableCount;
      assert [event][1..] == [] && Happens(e, [], maxFails) && Afterwards(e, [], maxFails) == e;
      assert Happens(d, [event], maxFails) && Afterwards(d, [event], maxFails) == e;
      assert !EndsTableBarred(d, [event], maxFails, ip);
    } else {
      forall events | Happens(d, events, maxFails)
        ensures EndsTableBarred(d, events, maxFails, ip)
      {
        TableBarredForGood(d, events, maxFails, ip);
      }
    }
  }
}
