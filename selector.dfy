/**
 * The scan in `main` that picks the rollout step to announce next: the first
 * schedule entry strictly above the release's current user fraction.
 */
module NextStep {
  import opened Wrappers
  import RolloutSchedule

  /** The first entry of `steps` strictly greater than `current`, or `None` when every entry is at most `current`. */
  function FirstAbove(steps: seq<real>, current: real): (r: Option<real>)
    ensures r.None? <==> forall i :: 0 <= i < |steps| ==> steps[i] <= current
    ensures r.Some? ==> r.value in steps && r.value > current
  {
    if |steps| == 0 then None
    else if steps[0] > current then Some(steps[0])
    else
      var r := FirstAbove(steps[1..], current);
      assert forall i :: 1 <= i < |steps| ==> steps[i] == steps[1..][i - 1];
      r
  }

  /**
   * The loop over the schedule that assigns the new rollout fraction and
   * breaks at the first step above the current one.
   */
  method SelectNextStep(steps: seq<real>, current: real) returns (next: Option<real>)
    ensures next == FirstAbove(steps, current)
  {
    next := None;
    for i := 0 to |steps|
      invariant next == None
      invariant FirstAbove(steps[i..], current) == FirstAbove(steps, current)
    {
      assert steps[i..][1..] == steps[i + 1..];
      if steps[i] > current {
        next := Some(steps[i]);
        break;
      }
    }
  }

  /** An entry above `current` with nothing above `current` before it is the one chosen. */
  lemma {:induction false} FirstAboveAt(steps: seq<real>, current: real, k: int)
    requires 0 <= k < |steps| && steps[k] > current
    requires forall j :: 0 <= j < k ==> steps[j] <= current
    ensures FirstAbove(steps, current) == Some(steps[k])
  {
    if k > 0 {
      assert forall j :: 0 <= j < k - 1 ==> steps[1..][j] == steps[j + 1];
      FirstAboveAt(steps[1..], current, k - 1);
    }
  }

  /** A chosen entry sits at some index before which nothing is above `current`. */
  lemma {:induction false} FirstAboveIndex(steps: seq<real>, current: real) returns (k: nat)
    requires FirstAbove(steps, current).Some?
    ensures k < |steps| && steps[k] == FirstAbove(steps, current).value
    ensures forall j :: 0 <= j < k ==> steps[j] <= current
  {
    if steps[0] > current {
      k := 0;
    } else {
      var k' := FirstAboveIndex(steps[1..], current);
      k := k' + 1;
    }
  }

  /**
   * On an ascending schedule the chosen entry is the least entry above
   * `current`; an entry equal to `current` is never chosen.
   */
  lemma LeastAbove(steps: seq<real>, current: real, x: real)
    requires RolloutSchedule.Ascending(steps)
    requires x in steps && x > current
    ensures current < FirstAbove(steps, current).value <= x
  {
    var i :| 0 <= i < |steps| && steps[i] == x;
    assert FirstAbove(steps, current).Some?;
    var k := FirstAboveIndex(steps, current);
    assert k <= i;
  }

  lemma ExampleSelections()
    ensures FirstAbove([0.01, 0.2, 0.5, 1.0], 0.05) == Some(0.2)
    ensures FirstAbove([0.01, 0.2, 0.5, 1.0], 0.2) == Some(0.5)
    ensures FirstAbove([0.01, 0.2, 0.5, 1.0], 1.0) == None
  {
    FirstAboveAt([0.01, 0.2, 0.5, 1.0], 0.05, 1);
    FirstAboveAt([0.01, 0.2, 0.5, 1.0], 0.2, 2);
  }
}
