/** Camera numbers for camera ids. */
module CameraSlots {
  import opened Jcamsys

  // The settings have the indices 0 to JC_MAX_CAMS. The search loops go one further, to memory that
  // belongs to something else: here that is one more cell, and anybody may change it.
  const BEHIND: nat := JC_MAX_CAMS + 1

  /** The ids in the settings; "" stands for a free slot. */
  type Ids = s: seq<string> | |s| == BEHIND + 1 witness Vacant()

  function Vacant(): (s: seq<string>)
    ensures |s| == BEHIND + 1
  {
    seq(BEHIND + 1, _ => "")
  }

  /** The first cell from i on that holds x. */
  function First(ids: Ids, x: string, i: nat): (r: int)
    requires i <= BEHIND + 1
    ensures r == JC_ERR || (i <= r <= BEHIND && ids[r] == x && forall j :: i <= j < r ==> ids[j] != x)
    ensures r == JC_ERR ==> forall j :: i <= j <= BEHIND ==> ids[j] != x
    decreases BEHIND + 1 - i
  {
    if i > BEHIND then JC_ERR else if ids[i] == x then i else First(ids, x, i + 1)
  }

  /** The slot of an id, or the next free one. */
  function Slot(ids: Ids, id: string): int
  {
    if First(ids, id, 1) != JC_ERR then First(ids, id, 1) else First(ids, "", 1)
  }

  function Registered(ids: Ids, id: string): Ids
  {
    if Slot(ids, id) > 0 then ids[Slot(ids, id) := id] else ids
  }

  class Settings {
    const cs: array<string>

    constructor ()
      ensures fresh(cs) && cs[..] == Vacant()
    {
      cs := new string[BEHIND + 1](_ => "");
      new;
      assert cs[..] == Vacant();
    }

    method FindFreeSlot() returns (r: int)
      requires cs.Length == BEHIND + 1
      ensures r == First(cs[..], "", 1)
    {
      for i := 1 to BEHIND + 1
        invariant First(cs[..], "", 1) == First(cs[..], "", i)
      {
        if cs[i] == "" {
          return i;
        }
      }
      r := JC_ERR;
    }

    method FindSlot(id: string) returns (r: int)
      requires cs.Length == BEHIND + 1
      ensures r == Slot(cs[..], id)
    {
      for i := 1 to BEHIND + 1
        invariant First(cs[..], id, 1) == First(cs[..], id, i)
      {
        if cs[i] == id {
          return i;
        }
      }
      r := FindFreeSlot();
    }

    /** A camera registers and gets a number, which is positive if there is one. */
    method Register(id: string) returns (feederCam: int)
      requires cs.Length == BEHIND + 1
      modifies cs
      ensures feederCam == Slot(old(cs[..]), id) && cs[..] == Registered(old(cs[..]), id)
    {
      feederCam := FindSlot(id);
      if feederCam > 0 {
        cs[feederCam] := id;
      }
    }
  }

  /** The answer is a camera number, not the cell behind the settings, exactly when the id has a slot,
      or there is a free one and the id is not what stands behind the settings. */
  lemma SlotIsCameraIff(ids: Ids, id: string)
    requires id != ""
    ensures 1 <= Slot(ids, id) <= JC_MAX_CAMS <==>
              id in ids[1..BEHIND] || ("" in ids[1..BEHIND] && ids[BEHIND] != id)
  {
    Within(ids, id);
    Within(ids, "");
  }

  lemma Within(ids: Ids, x: string)
    ensures x in ids[1..BEHIND] <==> 1 <= First(ids, x, 1) <= JC_MAX_CAMS
  {
    if x in ids[1..BEHIND] {
      var k :| 0 <= k < JC_MAX_CAMS && ids[1..BEHIND][k] == x;
      assert ids[k + 1] == x;
    }
    if 1 <= First(ids, x, 1) <= JC_MAX_CAMS {
      assert ids[1..BEHIND][First(ids, x, 1) - 1] == x;
    }
  }

  /** A registration is refused exactly when every cell belongs to another id. */
  lemma RefusedIff(ids: Ids, id: string)
    requires id != ""
    ensures Slot(ids, id) == JC_ERR <==> forall i :: 1 <= i <= BEHIND ==> ids[i] != "" && ids[i] != id
  {
  }

  // ---- runs ----

  /** A registration, settings that keep the id, or a change of the memory behind the settings. */
  datatype Step = Register(id: string) | Settings(cam: nat) | Foreign(text: string)

  function After(ids: Ids, step: Step): Ids
  {
    match step
    case Register(id) => if id == "" then ids else Registered(ids, id)
    case Settings(cam) => ids
    case Foreign(text) => ids[BEHIND := text]
  }

  function Run(ids: Ids, steps: seq<Step>): Ids
    decreases |steps|
  {
    if steps == [] then ids else Run(After(ids, steps[0]), steps[1..])
  }

  /** No two cameras have one id. */
  predicate Distinct(ids: Ids)
  {
    forall i, j :: 1 <= i < j <= JC_MAX_CAMS && ids[i] == ids[j] ==> ids[i] == ""
  }

  lemma {:induction false} DistinctForGood(ids: Ids, steps: seq<Step>)
    requires Distinct(ids)
    ensures Distinct(Run(ids, steps))
    decreases |steps|
  {
    if steps != [] {
      DistinctForGood(After(ids, steps[0]), steps[1..]);
    }
  }

  /** From then on a camera always gets the number that it got first, and no other id gets it. */
  lemma {:induction false} SameNumberForGood(ids: Ids, steps: seq<Step>, id: string, cam: nat)
    requires Distinct(ids) && id != "" && 1 <= cam <= JC_MAX_CAMS && ids[cam] == id
    ensures Run(ids, steps)[cam] == id && Slot(Run(ids, steps), id) == cam
    ensures forall other :: other != "" && other != id ==> Slot(Run(ids, steps), other) != cam
    decreases |steps|
  {
    if steps != [] {
      SameNumberForGood(After(ids, steps[0]), steps[1..], id, cam);
    }
  }

  /** The first registration fixes the number. */
  lemma FirstRegistration(steps: seq<Step>, later: seq<Step>, id: string)
    requires id != "" && 1 <= Slot(Run(Vacant(), steps), id) <= JC_MAX_CAMS
    ensures var ids := Run(Vacant(), steps); Slot(Run(After(ids, Register(id)), later), id) == Slot(ids, id)
  {
    DistinctForGood(Vacant(), steps);
    var ids := Run(Vacant(), steps);
    DistinctForGood(ids, [Register(id)]);
    assert [Register(id)][1..] == [] && Run(ids, [Register(id)]) == After(ids, Register(id));
    SameNumberForGood(After(ids, Register(id)), later, id, Slot(ids, id));
  }
}
