/** The sensor state in shared memory and the poll of a child, when nothing else runs in between. */
module Sensors {
  import opened Jcamsys
  import opened SensorRuns

  const JC_MAX_SENSTYPE: nat := 4

  // The check of the original lets numbers up to JC_MAX_SENSORS through as sensor types. The rows from
  // JC_MAX_SENSTYPE on stand for the memory behind the arrays.
  const ROWS: nat := JC_MAX_SENSORS + 1

  class SensorState {
    const active: array2<bool>
    const activeChanged: array<nat>
    const changeTimeMs: array2<nat>
    const changePtimeMs: array2<nat>

    ghost predicate Valid()
      reads this
    {
      && active.Length0 == ROWS && active.Length1 == SENSORS && activeChanged.Length == ROWS
      && changeTimeMs.Length0 == ROWS && changeTimeMs.Length1 == SENSORS
      && changePtimeMs.Length0 == ROWS && changePtimeMs.Length1 == SENSORS && changeTimeMs != changePtimeMs
    }

    constructor ()
      ensures Valid() && fresh({active, activeChanged, changeTimeMs, changePtimeMs})
      ensures forall t :: 0 <= t < ROWS ==> Row(t) == AllInactive() && activeChanged[t] == 0
    {
      active := new bool[ROWS, SENSORS]((t, i) => false);
      activeChanged := new nat[ROWS](_ => 0);
      changeTimeMs, changePtimeMs := new nat[ROWS, SENSORS]((t, i) => 0), new nat[ROWS, SENSORS]((t, i) => 0);
    }

    /** The sensors of one type. */
    ghost function Row(senstype: nat): (r: seq<bool>)
      requires Valid() && senstype < ROWS
      reads this, active
      ensures |r| == SENSORS
    {
      seq(SENSORS, i requires 0 <= i < SENSORS reads this, active requires Valid() => active[senstype, i])
    }

    method MarkTime(senstype: nat, sensor: nat, now: nat)
      requires Valid() && senstype < ROWS && sensor < SENSORS
      modifies changeTimeMs, changePtimeMs
      ensures changeTimeMs[senstype, sensor] == now &&
              changePtimeMs[senstype, sensor] == old(changeTimeMs[senstype, sensor])
      ensures forall t, i :: 0 <= t < ROWS && 0 <= i < SENSORS && (t, i) != (senstype, sensor) ==>
                changeTimeMs[t, i] == old(changeTimeMs[t, i]) && changePtimeMs[t, i] == old(changePtimeMs[t, i])
    {
      changePtimeMs[senstype, sensor] := changeTimeMs[senstype, sensor];
      changeTimeMs[senstype, sensor] := now;
    }

    /** jc_sensor_mark_active for value == true, jc_sensor_mark_inactive for value == false. */
    method Mark(senstype: int, sensor: int, value: bool, now: nat)
      requires Valid()
      modifies active, activeChanged, changeTimeMs, changePtimeMs
      ensures 0 <= senstype < ROWS && 0 <= sensor < SENSORS ==>
                (Row(senstype), activeChanged[senstype]) ==
                    Marked(old(Row(senstype)), old(activeChanged[senstype]), sensor, value)
      ensures forall t :: 0 <= t < ROWS && (t != senstype || !(0 <= sensor < SENSORS)) ==>
                Row(t) == old(Row(t)) && activeChanged[t] == old(activeChanged[t])
      // the time of the change, only when there was one
      ensures forall t, i :: 0 <= t < ROWS && 0 <= i < SENSORS ==>
                && changeTimeMs[t, i] == (if old(active[t, i]) != active[t, i] then now else old(changeTimeMs[t, i]))
                && changePtimeMs[t, i] ==
                   if old(active[t, i]) != active[t, i] then old(changeTimeMs[t, i]) else old(changePtimeMs[t, i])
      // which sensor, and the counter
      ensures forall t, i :: 0 <= t < ROWS && 0 <= i < SENSORS ==>
                active[t, i] == if t == senstype && i == sensor then value else old(active[t, i])
      ensures forall t :: 0 <= t < ROWS ==>
                activeChanged[t] ==
                if t == senstype && 0 <= sensor < SENSORS && old(active[t, sensor]) != value
                then (old(activeChanged[t]) + 1) % WRAP else old(activeChanged[t])
    {
      if senstype < 0 || senstype > JC_MAX_SENSORS || sensor < 0 || sensor > JC_MAX_SENSORS {
        return;
      }
      if active[senstype, sensor] == value {
        return;
      }
      active[senstype, sensor] := value;
      MarkTime(senstype, sensor, now);
      activeChanged[senstype] := (activeChanged[senstype] + 1) % WRAP;
      assert Row(senstype) == old(Row(senstype))[sensor := value];
    }
  }

  /** A child's copies of the counters. */
  class Poller {
    const local: array<nat>

    constructor ()
      ensures fresh(local) && local.Length == JC_MAX_SENSTYPE && forall t :: 0 <= t < JC_MAX_SENSTYPE ==> local[t] == 0
    {
      local := new nat[JC_MAX_SENSTYPE](_ => 0);
    }

    /** Sends the sensors of exactly those types whose counter differs from the copy, in order, and brings the copies
        up to date. */
    method PollSensorChange(ss: SensorState) returns (sent: seq<(nat, seq<bool>)>)
      requires ss.Valid() && local.Length == JC_MAX_SENSTYPE && local != ss.activeChanged
      modifies local
      ensures forall t :: 0 <= t < JC_MAX_SENSTYPE ==> local[t] == ss.activeChanged[t]
      ensures forall t :: 0 <= t < JC_MAX_SENSTYPE && old(local[t]) != ss.activeChanged[t] ==> (t, ss.Row(t)) in sent
      ensures forall k :: 0 <= k < |sent| ==>
                sent[k].0 < JC_MAX_SENSTYPE && sent[k].1 == ss.Row(sent[k].0) &&
                    old(local[sent[k].0]) != ss.activeChanged[sent[k].0]
      ensures forall j, k :: 0 <= j < k < |sent| ==> sent[j].0 < sent[k].0
    {
      sent := [];
      for i := 0 to JC_MAX_SENSTYPE
        invariant forall t :: 0 <= t < i ==> local[t] == ss.activeChanged[t]
        invariant forall t :: i <= t < JC_MAX_SENSTYPE ==> local[t] == old(local[t])
        invariant forall t :: 0 <= t < i && old(local[t]) != ss.activeChanged[t] ==> (t, ss.Row(t)) in sent
        invariant forall k :: 0 <= k < |sent| ==>
                    sent[k].0 < i && sent[k].1 == ss.Row(sent[k].0) &&
                        old(local[sent[k].0]) != ss.activeChanged[sent[k].0]
        invariant forall j, k :: 0 <= j < k < |sent| ==> sent[j].0 < sent[k].0
      {
        if ss.activeChanged[i] != local[i] {
          local[i] := ss.activeChanged[i];
          var copied := MsgSensActive(ss, i);
          sent := sent + [(i, copied)];
        }
      }
    }
  }

  /** Copies the sensors of one type into a message, one by one. */
  method MsgSensActive(ss: SensorState, senstype: nat) returns (copied: seq<bool>)
    requires ss.Valid() && senstype < JC_MAX_SENSTYPE
    ensures copied == ss.Row(senstype)
  {
    copied := [];
    for i := 0 to SENSORS
      invariant copied == ss.Row(senstype)[..i]
    {
      copied := copied + [ss.active[senstype, i]];
    }
  }
}
