/** Change notification between processes: writers mark sensors of one type as active or inactive and
    count the changes modulo 65536; each child compares the counter with its copy and sends the whole array
    when they differ. Every access to the array and to the counter is a step of its own: a writer that counts
    first loads the counter and then stores what it loaded plus one. */
module SensorRuns {
  import opened Jcamsys

  const SENSORS: nat := JC_MAX_SENSORS + 1

  /** A process inside jc_sensor_mark_active or jc_sensor_mark_inactive. */
  datatype Writer = Resting | Checked(sensor: nat, value: bool) | Written | Loaded(counter: nat)

  /** A child inside poll_sensor_change. */
  datatype Phase = Idle | Differs | Copying(copied: seq<bool>)

  /** `seen` is the number of all stores at the time the counter was copied; no program variable. */
  datatype Child = Child(phase: Phase, local: nat, last: seq<bool>, seen: nat)

  /** `total` counts the stores to the counter; no program variable. */
  datatype State = State(data: seq<bool>, counter: nat, writers: seq<Writer>, children: seq<Child>, total: nat)

  datatype Step =
    | Check(w: nat, sensor: nat, value: bool) | Write(w: nat) | Load(w: nat) | Store(w: nat)
    | Fork
    | Compare(c: nat) | CopyCounter(c: nat) | CopyElement(c: nat) | Send(c: nat)

  function AllInactive(): (d: seq<bool>)
    ensures |d| == SENSORS
  {
    seq(SENSORS, _ => false)
  }

  /** A child that has sent nothing: as if it had copied the counter and the array in the beginning. */
  function Newborn(): Child
  {
    Child(Idle, 0, AllInactive(), 0)
  }

  function Init(writers: nat): State
  {
    State(AllInactive(), 0, seq(writers, _ => Resting), [], 0)
  }

  predicate Enabled(s: State, step: Step)
  {
    match step
    case Check(w, sensor, value) => w < |s.writers| && s.writers[w] == Resting && sensor < SENSORS
    case Write(w) => w < |s.writers| && s.writers[w].Checked? && s.writers[w].sensor < |s.data|
    case Load(w) => w < |s.writers| && s.writers[w] == Written
    case Store(w) => w < |s.writers| && s.writers[w].Loaded?
    case Fork => true
    case Compare(c) => c < |s.children| && s.children[c].phase == Idle
    case CopyCounter(c) => c < |s.children| && s.children[c].phase == Differs
    case CopyElement(c) => c < |s.children| && s.children[c].phase.Copying? && |s.children[c].phase.copied| < |s.data|
    case Send(c) => c < |s.children| && s.children[c].phase.Copying? && |s.children[c].phase.copied| == |s.data|
  }

  function After(s: State, step: Step): State
    requires Enabled(s, step)
  {
    match step
    case Check(w, sensor, value) =>
      // no event when the sensor is in that state already
      if sensor < |s.data| && s.data[sensor] == value then s else s.(writers := s.writers[w := Checked(sensor, value)])
    case Write(w) =>
      s.(data := s.data[s.writers[w].sensor := s.writers[w].value], writers := s.writers[w := Written])
    case Load(w) =>
      s.(writers := s.writers[w := Loaded(s.counter)])
    case Store(w) =>
      s.(counter := (s.writers[w].counter + 1) % WRAP, writers := s.writers[w := Resting], total := s.total + 1)
    case Fork =>
      s.(children := s.children + [Newborn()])
    case Compare(c) =>
      if s.counter == s.children[c].local then s else With(s, c, s.children[c].(phase := Differs))
    case CopyCounter(c) =>
      With(s, c, s.children[c].(phase := Copying([]), local := s.counter, seen := s.total))
    case CopyElement(c) =>
      var copied := s.children[c].phase.copied;
      With(s, c, s.children[c].(phase := Copying(copied + [s.data[|copied|]])))
    case Send(c) =>
      With(s, c, s.children[c].(phase := Idle, last := s.children[c].phase.copied))
  }

  function With(s: State, c: nat, child: Child): State
    requires c < |s.children|
  {
    s.(children := s.children[c := child])
  }

  predicate Legal(s: State, steps: seq<Step>)
    decreases |steps|
  {
    steps == [] || (Enabled(s, steps[0]) && Legal(After(s, steps[0]), steps[1..]))
  }

  function Run(s: State, steps: seq<Step>): State
    requires Legal(s, steps)
    decreases |steps|
  {
    if steps == [] then s else Run(After(s, steps[0]), steps[1..])
  }

  // ---- what every step keeps ----

  predicate Pending(w: Writer)
  {
    w == Written || w.Loaded?
  }

  predicate HalfDone(s: State)
  {
    exists w :: 0 <= w < |s.writers| && Pending(s.writers[w])
  }

  /** Some writer will store what follows the given value, or has still to load. */
  predicate Fresh(s: State, local: nat)
  {
    exists w :: 0 <= w < |s.writers| && Pending(s.writers[w])
                && (s.writers[w].Loaded? ==> s.writers[w].counter == local)
  }

  predicate UpToDate(s: State, child: Child)
  {
    if child.phase.Copying?
    then |child.phase.copied| <= |s.data| && child.phase.copied == s.data[..|child.phase.copied|]
    else child.last == s.data
  }

  /** What is left to notice for a child that is behind. */
  predicate Late(s: State, child: Child)
  {
    if s.total == child.seen then Fresh(s, child.local)
    else if s.total == child.seen + 1 then HalfDone(s) || s.counter == (child.local + 1) % WRAP
    else true
  }

  predicate ChildGood(s: State, child: Child)
  {
    && |s.data| == SENSORS && child.seen <= s.total && child.local < WRAP && |child.last| == SENSORS
    && (child.phase.Copying? ==> |child.phase.copied| <= SENSORS)
    && (child.seen == s.total ==> child.local == s.counter)
    && (UpToDate(s, child) || Late(s, child))
  }

  predicate Good(s: State)
  {
    && |s.data| == SENSORS && s.counter < WRAP
    && (forall w :: 0 <= w < |s.writers| && s.writers[w].Checked? ==> s.writers[w].sensor < SENSORS)
    && (forall c :: 0 <= c < |s.children| ==> ChildGood(s, s.children[c]))
    && ChildGood(s, Newborn())
  }

  predicate ByWriter(step: Step)
  {
    step.Check? || step.Write? || step.Load? || step.Store?
  }

  /** Whatever a writer does, a child that waits stays good. */
  lemma WriterKeepsChildGood(s: State, step: Step, child: Child)
    requires Good(s) && ChildGood(s, child) && Enabled(s, step) && ByWriter(step)
    ensures ChildGood(After(s, step), child)
  {
    var t := After(s, step);
    if step.Write? {
      assert Pending(t.writers[step.w]);
    } else if !UpToDate(s, child) {
      if s.total == child.seen {
        var w :| 0 <= w < |s.writers| && Pending(s.writers[w])
                 && (s.writers[w].Loaded? ==> s.writers[w].counter == child.local);
        assert !step.Store? || w != step.w ==> Pending(t.writers[w]);
      } else if s.total == child.seen + 1 && HalfDone(s) && !step.Store? {
        var w :| 0 <= w < |s.writers| && Pending(s.writers[w]);
        assert Pending(t.writers[w]);
      }
    }
  }

  /** The writers' steps. */
  lemma WritersKeepGood(s: State, step: Step)
    requires Good(s) && Enabled(s, step) && ByWriter(step)
    ensures Good(After(s, step))
  {
    var t := After(s, step);
    WriterKeepsChildGood(s, step, Newborn());
    forall c | 0 <= c < |t.children|
      ensures ChildGood(t, t.children[c])
    {
      WriterKeepsChildGood(s, step, s.children[c]);
    }
  }

  /** A child does not depend on what the others do. */
  lemma SameForChild(s: State, t: State, child: Child)
    requires ChildGood(s, child)
    requires t.data == s.data && t.counter == s.counter && t.writers == s.writers && t.total == s.total
    ensures ChildGood(t, child)
  {
    SamePending(s, t, child.local);
    hide HalfDone, Fresh;
  }

  lemma SamePending(s: State, t: State, local: nat)
    requires t.writers == s.writers
    ensures HalfDone(t) == HalfDone(s) && Fresh(t, local) == Fresh(s, local)
  {
  }

  predicate ByChild(step: Step, c: nat)
  {
    step == Compare(c) || step == CopyCounter(c) || step == CopyElement(c) || step == Send(c)
  }

  lemma OwnStepKeepsGood(s: State, step: Step, c: nat)
    requires Good(s) && Enabled(s, step) && ByChild(step, c) && c < |s.children|
    ensures var t := After(s, step); c < |t.children| && ChildGood(t, t.children[c])
  {
    var t := After(s, step);
    var child := s.children[c];
    assert ChildGood(s, child);
    SamePending(s, t, t.children[c].local);
    hide HalfDone, Fresh;
    if step == CopyElement(c) {
      var k := |child.phase.copied|;
      assert s.data[..k] + [s.data[k]] == s.data[..k + 1];
    } else if step == Send(c) {
      assert s.data[..|s.data|] == s.data;
    }
  }

  /** The children's steps. */
  lemma ChildrenKeepGood(s: State, step: Step)
    requires Good(s) && Enabled(s, step) && !ByWriter(step)
    ensures Good(After(s, step))
  {
    var t := After(s, step);
    SameForChild(s, t, Newborn());
    forall c | 0 <= c < |t.children|
      ensures ChildGood(t, t.children[c])
    {
      if ByChild(step, c) {
        OwnStepKeepsGood(s, step, c);
      } else {
        SameForChild(s, t, t.children[c]);
      }
    }
    hide ChildGood;
  }

  lemma {:induction false} RunsAreGood(s: State, steps: seq<Step>)
    requires Good(s) && Legal(s, steps)
    ensures Good(Run(s, steps))
    decreases |steps|
  {
    hide Good;
    if steps != [] {
      if ByWriter(steps[0]) {
        WritersKeepGood(s, steps[0]);
      } else {
        ChildrenKeepGood(s, steps[0]);
      }
      RunsAreGood(After(s, steps[0]), steps[1..]);
    }
  }

  /** In every run of any number of writers and children: a child that is between two polls and finds the
      counter equal to its copy has sent the array as it is, provided that at most one store was made since
      its copy and no writer stands between its change and its store. */
  lemma EqualCountersMeanUpToDate(writers: nat, steps: seq<Step>, c: nat)
    requires Legal(Init(writers), steps)
    requires var s := Run(Init(writers), steps);
             && c < |s.children| && s.children[c].phase == Idle && s.children[c].local == s.counter
             && s.total - s.children[c].seen < 2 && !HalfDone(s)
    ensures var s := Run(Init(writers), steps); s.children[c].last == s.data
  {
    RunsAreGood(Init(writers), steps);
    var s := Run(Init(writers), steps);
    assert ChildGood(s, s.children[c]);
  }

  // ---- when counting does not overlap ----

  /** At most one writer is between its load and its store. */
  predicate OneCounts(s: State)
  {
    forall v, w :: 0 <= v < w < |s.writers| && s.writers[v].Loaded? ==> !s.writers[w].Loaded?
  }

  predicate Exclusive(s: State, steps: seq<Step>)
    requires Legal(s, steps)
    decreases |steps|
  {
    OneCounts(s) && (steps != [] ==> Exclusive(After(s, steps[0]), steps[1..]))
  }

  /** Then the counter is the number of stores modulo 65536, and so is every copy of it. */
  predicate InStep(s: State)
  {
    && s.counter == s.total % WRAP
    && (forall w :: 0 <= w < |s.writers| && s.writers[w].Loaded? ==> s.writers[w].counter == s.counter)
    && (forall c :: 0 <= c < |s.children| ==> s.children[c].local == s.children[c].seen % WRAP)
  }

  lemma StepKeepsInStep(s: State, step: Step)
    requires InStep(s) && OneCounts(s) && Enabled(s, step)
    ensures InStep(After(s, step))
  {
    if step.Store? {
      assert forall w :: 0 <= w < |s.writers| && s.writers[w].Loaded? ==> w == step.w;
    }
  }

  lemma {:induction false} RunsAreInStep(s: State, steps: seq<Step>)
    requires InStep(s) && Legal(s, steps) && Exclusive(s, steps)
    ensures InStep(Run(s, steps))
    decreases |steps|
  {
    hide InStep, OneCounts;
    if steps != [] {
      StepKeepsInStep(s, steps[0]);
      RunsAreInStep(After(s, steps[0]), steps[1..]);
    }
  }

  lemma {:induction false} OneWriterIsExclusive(s: State, steps: seq<Step>)
    requires |s.writers| == 1 && Legal(s, steps)
    ensures Exclusive(s, steps)
    decreases |steps|
  {
    if steps != [] {
      OneWriterIsExclusive(After(s, steps[0]), steps[1..]);
    }
  }

  /** In runs in which counting does not overlap, fewer than 65536 stores since the copy are enough. */
  lemma EqualCountersMeanUpToDateInTurn(writers: nat, steps: seq<Step>, c: nat)
    requires Legal(Init(writers), steps) && Exclusive(Init(writers), steps)
    requires var s := Run(Init(writers), steps);
             && c < |s.children| && s.children[c].phase == Idle && s.children[c].local == s.counter
             && s.total - s.children[c].seen < WRAP && !HalfDone(s)
    ensures var s := Run(Init(writers), steps); s.children[c].last == s.data
  {
    RunsAreGood(Init(writers), steps);
    RunsAreInStep(Init(writers), steps);
    var s := Run(Init(writers), steps);
    assert ChildGood(s, s.children[c]);
    Unwrapped(s.total, s.children[c].seen);
  }

  lemma Unwrapped(total: nat, seen: nat)
    requires seen <= total < seen + WRAP && total % WRAP == seen % WRAP
    ensures total == seen
  {
  }

  lemma {:induction false} RunOfConcatenation(s: State, a: seq<Step>, b: seq<Step>)
    requires Legal(s, a) && Legal(Run(s, a), b)
    ensures Legal(s, a + b) && Run(s, a + b) == Run(Run(s, a), b)
    decreases |a|
  {
    if a == [] {
      assert a + b == b;
    } else {
      assert (a + b)[0] == a[0] && (a + b)[1..] == a[1..] + b;
      RunOfConcatenation(After(s, a[0]), a[1..], b);
    }
  }

  // ---- calls that nothing interrupts ----

  /** Marking a sensor as active or inactive, as one step. */
  function Marked(data: seq<bool>, counter: nat, sensor: nat, value: bool): (r: (seq<bool>, nat))
    requires sensor < |data|
  {
    if data[sensor] == value then (data, counter) else (data[sensor := value], (counter + 1) % WRAP)
  }

  lemma RunOfOne(s: State, step: Step)
    requires Enabled(s, step)
    ensures Legal(s, [step]) && Run(s, [step]) == After(s, step)
  {
    assert [step][1..] == [];
    assert Run(After(s, step), []) == After(s, step);
  }

  function Changed(s: State, sensor: nat): State
    requires sensor < |s.data|
  {
    s.(data := s.data[sensor := !s.data[sensor]], counter := (s.counter + 1) % WRAP, total := s.total + 1)
  }

  /** One writer changes a sensor and counts the change. */
  lemma Change(s: State, w: nat, sensor: nat) returns (steps: seq<Step>)
    requires |s.data| == SENSORS && w < |s.writers| && s.writers[w] == Resting && sensor < SENSORS
    ensures Legal(s, steps) && Run(s, steps) == Changed(s, sensor)
  {
    var check := Check(w, sensor, !s.data[sensor]);
    var s1 := After(s, check);
    var s2 := After(s1, Write(w));
    var s3 := After(s2, Load(w));
    var s4 := After(s3, Store(w));
    assert s4.writers == s.writers;
    RunOfOne(s, check);
    RunOfOne(s1, Write(w));
    RunOfOne(s2, Load(w));
    RunOfOne(s3, Store(w));
    hide Enabled, After;
    RunOfConcatenation(s2, [Load(w)], [Store(w)]);
    RunOfConcatenation(s1, [Write(w)], [Load(w)] + [Store(w)]);
    RunOfConcatenation(s, [check], [Write(w)] + ([Load(w)] + [Store(w)]));
    steps := [check] + ([Write(w)] + ([Load(w)] + [Store(w)]));
  }

  /** A mark that nothing interrupts is its steps in a row. */
  lemma MarkedIsItsSteps(s: State, w: nat, sensor: nat, value: bool) returns (steps: seq<Step>)
    requires |s.data| == SENSORS && sensor < SENSORS && w < |s.writers| && s.writers[w] == Resting
    ensures Legal(s, steps)
    ensures var t := Run(s, steps);
            (t.data, t.counter) == Marked(s.data, s.counter, sensor, value) && t.writers == s.writers
  {
    if s.data[sensor] == value {
      steps := [Check(w, sensor, value)];
      RunOfOne(s, Check(w, sensor, value));
    } else {
      steps := Change(s, w, sensor);
    }
  }

  // ---- a poll delivers ----

  lemma {:induction false} CopyRest(s: State, c: nat) returns (steps: seq<Step>)
    requires c < |s.children| && s.children[c].phase.Copying? && |s.children[c].phase.copied| <= |s.data|
    requires s.children[c].phase.copied == s.data[..|s.children[c].phase.copied|]
    ensures Legal(s, steps)
    ensures Run(s, steps) == With(s, c, s.children[c].(phase := Idle, last := s.data))
    decreases |s.data| - |s.children[c].phase.copied|
  {
    if |s.children[c].phase.copied| == |s.data| {
      steps := [Send(c)];
      assert s.children[c].phase.copied == s.data;
      assert Run(After(s, Send(c)), []) == After(s, Send(c));
    } else {
      var t := After(s, CopyElement(c));
      var rest := CopyRest(t, c);
      steps := [CopyElement(c)] + rest;
      assert With(t, c, t.children[c].(phase := Idle, last := t.data)) ==
          With(s, c, s.children[c].(phase := Idle, last := s.data));
    }
  }

  /** A child that finds the counters different and is not interrupted sends the array as it is. */
  lemma PollDelivers(s: State, c: nat) returns (steps: seq<Step>)
    requires c < |s.children| && s.children[c].phase == Idle && s.children[c].local != s.counter
    ensures Legal(s, steps)
    ensures Run(s, steps) == With(s, c, Child(Idle, s.counter, s.data, s.total))
  {
    var t := After(s, Compare(c));
    var u := After(t, CopyCounter(c));
    var rest := CopyRest(u, c);
    RunOfConcatenation(t, [CopyCounter(c)], rest);
    RunOfConcatenation(s, [Compare(c)], [CopyCounter(c)] + rest);
    steps := [Compare(c)] + ([CopyCounter(c)] + rest);
    assert With(u, c, u.children[c].(phase := Idle, last := u.data)) ==
        With(s, c, Child(Idle, s.counter, s.data, s.total));
  }

  // ---- what is missed ----

  /** Sensor 0 changed n times. */
  function Toggled(s: State, n: nat): State
    requires |s.data| == SENSORS && s.counter < WRAP
  {
    s.(data := s.data[0 := s.data[0] != (n % 2 == 1)], counter := (s.counter + n) % WRAP, total := s.total + n)
  }

  predicate CanChange(s: State, w: nat)
  {
    |s.data| == SENSORS && w < |s.writers| && s.writers[w] == Resting && s.counter < WRAP
  }

  lemma ToggledOnceMore(s: State, n: nat)
    requires |s.data| == SENSORS && s.counter < WRAP
    ensures Toggled(Toggled(s, 1), n) == Toggled(s, n + 1) && Toggled(s, 0) == s
  {
    assert ((s.counter + 1) % WRAP + n) % WRAP == (s.counter + (n + 1)) % WRAP;
    assert s.data[0 := s.data[0] != (1 % 2 == 1)][0 := (s.data[0] != (1 % 2 == 1)) != (n % 2 == 1)] ==
        s.data[0 := s.data[0] != ((n + 1) % 2 == 1)];
  }

  lemma ToggleFirst(s: State, w: nat) returns (steps: seq<Step>)
    requires CanChange(s, w)
    ensures Legal(s, steps) && Run(s, steps) == Toggled(s, 1) && CanChange(Toggled(s, 1), w)
  {
    steps := Change(s, w, 0);
  }

  lemma {:induction false} Toggles(s: State, w: nat, n: nat) returns (steps: seq<Step>)
    requires CanChange(s, w)
    ensures Legal(s, steps) && Run(s, steps) == Toggled(s, n)
    decreases n
  {
    hide Toggled, Enabled, After;
    if n == 0 {
      ToggledOnceMore(s, 0);
      steps := [];
    } else {
      var one := ToggleFirst(s, w);
      var rest := Toggles(Toggled(s, 1), w, n - 1);
      ToggledOnceMore(s, n - 1);
      RunOfConcatenation(s, one, rest);
      steps := one + rest;
    }
  }

  /** A child between two polls finds the counter equal to its copy, n stores later, and has sent
      something else; `half` tells whether a writer stands between its change and its store. */
  predicate Misses(s: State, c: nat, n: nat, half: bool)
  {
    && c < |s.children| && s.children[c].phase == Idle && s.children[c].local == s.counter
    && s.total == s.children[c].seen + n && HalfDone(s) == half && s.children[c].last != s.data
  }

  ghost predicate RunMisses(writers: nat, steps: seq<Step>, c: nat, n: nat, half: bool)
  {
    Legal(Init(writers), steps) && Misses(Run(Init(writers), steps), c, n, half)
  }

  // ---- what is missed when counting does not overlap ----

  ghost predicate ExclusiveRunMisses(writers: nat, steps: seq<Step>, c: nat, n: nat, half: bool)
  {
    RunMisses(writers, steps, c, n, half) && Exclusive(Init(writers), steps)
  }

  /** One child that has sent nothing, and n changes of sensor 0. */
  function Start(n: nat): State
  {
    State(AllInactive()[0 := n % 2 == 1], n % WRAP, [Resting], [Newborn()], n)
  }

  lemma StartRun(n: nat) returns (steps: seq<Step>)
    ensures Legal(Init(1), steps) && Run(Init(1), steps) == Start(n)
  {
    var s := After(Init(1), Fork);
    assert s == Start(0) by {
      assert Init(1).writers == [Resting];
      assert AllInactive()[0 := 0 % 2 == 1] == AllInactive();
    }
    RunOfOne(Init(1), Fork);
    var many := Toggles(s, 0, n);
    assert Toggled(s, n) == Start(n);
    hide Toggled, Enabled, After, Init, Start;
    RunOfConcatenation(Init(1), [Fork], many);
    steps := [Fork] + many;
  }

  /** With one writer such a run goes on to one that misses a change. */
  lemma StartGoesOn(k: nat, more: seq<Step>, n: nat, half: bool) returns (steps: seq<Step>)
    requires Legal(Start(k), more) && Misses(Run(Start(k), more), 0, n, half)
    ensures ExclusiveRunMisses(1, steps, 0, n, half)
  {
    assert |Init(1).writers| == 1;
    hide Enabled, After, Init, Misses, Start, Exclusive;
    var many := StartRun(k);
    RunOfConcatenation(Init(1), many, more);
    steps := many + more;
    OneWriterIsExclusive(Init(1), steps);
  }

  lemma StartEnds(u: State, n: nat)
    requires |u.data| == SENSORS && u.data[1] && u.counter == 0 && u.total == n && |u.writers| == 1
    requires u.children == [Newborn()] && (u.writers[0] == Resting || u.writers[0] == Written)
    ensures Misses(u, 0, n, u.writers[0] == Written)
  {
    assert u.writers[0] == Written ==> Pending(u.writers[0]);
  }

  /** A full turn of the counter goes unnoticed. */
  lemma TurnMisses(n: nat) returns (steps: seq<Step>)
    requires n > 0 && n % WRAP == 0
    ensures ExclusiveRunMisses(1, steps, 0, n, false)
  {
    var s := Start(n - 1);
    NextTurn(n);
    NotTouched(n - 1);
    StartEnds(Changed(s, 1), n);
    hide Enabled, After, Legal, Run, ExclusiveRunMisses;
    var last := Change(s, 0, 1);
    steps := StartGoesOn(n - 1, last, n, false);
  }

  lemma NotTouched(n: nat)
    ensures !Start(n).data[1]
  {
  }

  lemma NextTurn(n: nat)
    requires n > 0 && n % WRAP == 0
    ensures ((n - 1) % WRAP + 1) % WRAP == 0
  {
  }

  function ChangedOnly(s: State, w: nat, sensor: nat): State
    requires w < |s.writers| && sensor < |s.data|
  {
    s.(data := s.data[sensor := !s.data[sensor]], writers := s.writers[w := Written])
  }

  /** A writer changes a sensor and has not counted yet. */
  lemma ChangeOnly(s: State, w: nat, sensor: nat) returns (steps: seq<Step>)
    requires |s.data| == SENSORS && w < |s.writers| && s.writers[w] == Resting && sensor < SENSORS
    ensures Legal(s, steps) && Run(s, steps) == ChangedOnly(s, w, sensor)
  {
    var check := Check(w, sensor, !s.data[sensor]);
    var t := After(s, check);
    RunOfOne(s, check);
    RunOfOne(t, Write(w));
    assert t.writers[w := Written] == s.writers[w := Written];
    RunOfConcatenation(s, [check], [Write(w)]);
    steps := [check] + [Write(w)];
  }

  /** So does a change that is not counted yet, after any number of full turns. */
  lemma UncountedMisses(n: nat) returns (steps: seq<Step>)
    requires n % WRAP == 0
    ensures ExclusiveRunMisses(1, steps, 0, n, true)
  {
    var s := Start(n);
    NotTouched(n);
    StartEnds(ChangedOnly(s, 0, 1), n);
    hide Enabled, After, Legal, Run, ExclusiveRunMisses;
    var last := ChangeOnly(s, 0, 1);
    steps := StartGoesOn(n, last, n, true);
  }

  lemma SameTurn(total: nat, seen: nat)
    requires seen <= total && total % WRAP == seen % WRAP
    ensures (total - seen) % WRAP == 0
  {
  }

  /** When counting does not overlap, a change is missed after n stores in some run of some number of writers and
      children exactly when n is a whole number of turns of the counter, and not 0 unless a change is still
      uncounted. */
  lemma MissesInTurnIff(n: nat, half: bool)
    ensures (exists writers: nat, steps, c: nat :: ExclusiveRunMisses(writers, steps, c, n, half)) <==>
            n % WRAP == 0 && (n > 0 || half)
  {
    forall writers: nat, steps, c: nat | ExclusiveRunMisses(writers, steps, c, n, half)
      ensures n % WRAP == 0 && (n > 0 || half)
    {
      RunsAreGood(Init(writers), steps);
      RunsAreInStep(Init(writers), steps);
      var s := Run(Init(writers), steps);
      assert ChildGood(s, s.children[c]);
      SameTurn(s.total, s.children[c].seen);
    }
    if n % WRAP == 0 && half {
      var steps := UncountedMisses(n);
    } else if n % WRAP == 0 && n > 0 {
      var steps := TurnMisses(n);
    }
  }

  // ---- what is missed when counting overlaps ----

  /** What the child of the next run has seen: sensor 2 of writer 0 and sensor 3 of writer 1. */
  function Seen(): (d: seq<bool>)
    ensures |d| == SENSORS && !d[0] && !d[1]
  {
    AllInactive()[2 := true][3 := true]
  }

  /** Writer 0 has loaded 0 and waits; writer 1 has counted once before the only child polled, and k times after. */
  function Overlap(k: nat): State
  {
    State(Seen()[0 := k % 2 == 1], (1 + k) % WRAP, [Loaded(0), Resting], [Child(Idle, 1, Seen(), 1)], 1 + k)
  }

  lemma OverlapStart() returns (steps: seq<Step>)
    ensures Legal(Init(2), steps)
    ensures Run(Init(2), steps) == State(AllInactive()[2 := true], 0, [Loaded(0), Resting], [Newborn()], 0)
  {
    var s := After(Init(2), Fork);
    assert s == State(AllInactive(), 0, [Resting, Resting], [Newborn()], 0);
    RunOfOne(Init(2), Fork);
    var first := ChangeOnly(s, 0, 2);
    var t := Run(s, first);
    RunOfOne(t, Load(0));
    assert After(t, Load(0)).writers == [Loaded(0), Resting];
    hide Enabled, Init;
    RunOfConcatenation(s, first, [Load(0)]);
    RunOfConcatenation(Init(2), [Fork], first + [Load(0)]);
    steps := [Fork] + (first + [Load(0)]);
  }

  lemma OverlapRun(k: nat) returns (steps: seq<Step>)
    ensures Legal(Init(2), steps) && Run(Init(2), steps) == Overlap(k)
  {
    var a := OverlapStart();
    var s := Run(Init(2), a);
    var b := Change(s, 1, 3);
    var t := Run(s, b);
    assert t.counter == 1 && t.data == Seen() && t.total == 1;
    var c := PollDelivers(t, 0);
    var u := Run(t, c);
    assert u.children == [Child(Idle, 1, Seen(), 1)];
    assert Seen()[0 := 0 % 2 == 1] == Seen();
    var d := Toggles(u, 1, k);
    assert Toggled(u, k) == Overlap(k);
    hide Enabled, After, Init, Toggled, Overlap;
    RunOfConcatenation(Init(2), a, b);
    RunOfConcatenation(Init(2), a + b, c);
    RunOfConcatenation(Init(2), a + b + c, d);
    steps := a + b + c + d;
  }

  /** Writer 0 stores 1: the counter is what the child has copied. */
  function LateStored(s: State): State
    requires |s.writers| == 2
  {
    s.(counter := 1, writers := [Resting, s.writers[1]], total := s.total + 1)
  }

  lemma LateStore(s: State) returns (steps: seq<Step>)
    requires |s.writers| == 2 && s.writers[0] == Loaded(0)
    ensures Legal(s, steps) && Run(s, steps) == LateStored(s)
  {
    steps := [Store(0)];
    RunOfOne(s, Store(0));
    assert s.writers[0 := Resting] == [Resting, s.writers[1]];
  }

  /** Such a run goes on to one that misses a change. */
  lemma OverlapGoesOn(k: nat, more: seq<Step>, n: nat, half: bool) returns (steps: seq<Step>)
    requires Legal(Overlap(k), more) && Misses(Run(Overlap(k), more), 0, n, half)
    ensures RunMisses(2, steps, 0, n, half)
  {
    hide Enabled, After, Init, Misses, Overlap;
    var many := OverlapRun(k);
    RunOfConcatenation(Init(2), many, more);
    steps := many + more;
  }

  lemma OverlapFields(k: nat)
    ensures var s := Overlap(k);
            && |s.data| == SENSORS && !s.data[1] && s.writers == [Loaded(0), Resting]
            && s.children == [Child(Idle, 1, Seen(), 1)] && s.total == k + 1
  {
  }

  lemma OverlapEnds(u: State, n: nat)
    requires |u.data| == SENSORS && u.data[1] && u.counter == 1 && u.total == n + 1 && |u.writers| == 2
    requires u.children == [Child(Idle, 1, Seen(), 1)] && u.writers[0] == Resting
    requires u.writers[1] == Resting || u.writers[1] == Written
    ensures Misses(u, 0, n, u.writers[1] == Written)
  {
    assert u.writers[1] == Written ==> Pending(u.writers[1]);
  }

  predicate OneLate(s: State)
  {
    |s.data| == SENSORS && |s.writers| == 2 && s.writers[0] == Loaded(0) && s.writers[1] == Resting
  }

  /** Writer 1 counts a change that the child has not seen, and writer 0 turns the counter back. */
  lemma ChangeThenStore(s: State) returns (steps: seq<Step>)
    requires OneLate(s)
    ensures Legal(s, steps) && Run(s, steps) == LateStored(Changed(s, 1))
  {
    var a := Change(s, 1, 1);
    var b := LateStore(Changed(s, 1));
    hide *;
    RunOfConcatenation(s, a, b);
    steps := a + b;
  }

  /** Writer 0 turns the counter back, and writer 1 changes a sensor. */
  lemma StoreThenChange(s: State) returns (steps: seq<Step>)
    requires OneLate(s)
    ensures Legal(s, steps) && Run(s, steps) == ChangedOnly(LateStored(s), 1, 1)
  {
    var a := LateStore(s);
    var b := ChangeOnly(LateStored(s), 1, 1);
    hide *;
    RunOfConcatenation(s, a, b);
    steps := a + b;
  }

  lemma EndAfterChange(n: nat)
    requires n >= 2
    ensures OneLate(Overlap(n - 2)) && Misses(LateStored(Changed(Overlap(n - 2), 1)), 0, n, false)
  {
    OverlapFields(n - 2);
    hide Overlap;
    OverlapEnds(LateStored(Changed(Overlap(n - 2), 1)), n);
  }

  lemma EndAfterStore(n: nat)
    requires n >= 1
    ensures OneLate(Overlap(n - 1)) && Misses(ChangedOnly(LateStored(Overlap(n - 1)), 1, 1), 0, n, true)
  {
    OverlapFields(n - 1);
    hide Overlap;
    OverlapEnds(ChangedOnly(LateStored(Overlap(n - 1)), 1, 1), n);
  }

  lemma OverlapMisses(n: nat) returns (steps: seq<Step>)
    requires n >= 2
    ensures RunMisses(2, steps, 0, n, false)
  {
    hide *;
    EndAfterChange(n);
    var more := ChangeThenStore(Overlap(n - 2));
    steps := OverlapGoesOn(n - 2, more, n, false);
  }

  lemma UncountedOverlapMisses(n: nat) returns (steps: seq<Step>)
    requires n >= 1
    ensures RunMisses(2, steps, 0, n, true)
  {
    hide *;
    EndAfterStore(n);
    var more := StoreThenChange(Overlap(n - 1));
    steps := OverlapGoesOn(n - 1, more, n, true);
  }

  /** A change is missed after n stores in some run of some number of writers and children exactly when a change
      is still uncounted or at least two stores were made: two that overlap are enough. */
  lemma MissesIff(n: nat, half: bool)
    ensures (exists writers: nat, steps, c: nat :: RunMisses(writers, steps, c, n, half)) <==> half || n >= 2
  {
    forall writers: nat, steps, c: nat | RunMisses(writers, steps, c, n, half)
      ensures half || n >= 2
    {
      RunsAreGood(Init(writers), steps);
      var s := Run(Init(writers), steps);
      assert ChildGood(s, s.children[c]);
    }
    if half && n == 0 {
      var steps := UncountedMisses(0);
    } else if half {
      var steps := UncountedOverlapMisses(n);
    } else if n >= 2 {
      var steps := OverlapMisses(n);
    }
  }
}
