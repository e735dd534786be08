/**
 * The release loop of `main`: it decides, release by release, whether the run
 * ends or a "rollout will increase from X to Y" notification is attempted.
 * The track query and the webhook POST are outside the model: the releases
 * come in as a value, and each attempted notification is recorded as a
 * (current, next) pair.
 */
module ReleaseGate {
  import opened Wrappers
  import opened RolloutSchedule
  import opened NextStep

  /** One entry of the track's `releases` list: its `status` and, when present, its `userFraction`. */
  datatype Release = Release(status: string, userFraction: Option<real>)

  /** A notification attempt: the rollout is announced to move from `current` to `next`. */
  datatype Notification = Notification(current: real, next: real)

  /** Why the run ended. */
  datatype StopReason =
    | NoReleases                  // `releases` missing or empty; exit status 0
    | Completed                   // a completed release; exit status 0
    | Halted                      // a halted release; exit status 0
    | ScheduleRejected(error: ParseError)  // `parse_rollout_steps` raised `SystemExit`
    | MissingUserFraction         // `release['userFraction']` raised `KeyError`
    | NoHigherStep(current: real) // no step above `current`; building the message fails on `None * 100`
    | AllHandled                  // the loop ran past the last release

  /** The notifications attempted, in order, and how the run ended. */
  datatype Run = Run(sent: seq<Notification>, stop: StopReason)

  /** What one pass of the loop body does with one release. */
  datatype Decision = Stop(reason: StopReason) | Notify(notification: Notification)

  predicate IsTerminal(status: string)
  {
    status == "completed" || status == "halted"
  }

  /** The loop body: status checks first, then the schedule, then the user fraction, then the next step. */
  function Handle(release: Release, rawSteps: string): Decision
  {
    if release.status == "completed" then Stop(Completed)
    else if release.status == "halted" then Stop(Halted)
    else
      match ParseRolloutSteps(rawSteps)
      case Failure(e) => Stop(ScheduleRejected(e))
      case Success(steps) =>
        match release.userFraction
        case None => Stop(MissingUserFraction)
        case Some(current) =>
          match FirstAbove(steps, current)
          case None => Stop(NoHigherStep(current))
          case Some(next) => Notify(Notification(current, next))
  }

  /**
   * A release is announced only if it is neither completed nor halted, the
   * schedule parses and the release has a user fraction; the announcement
   * carries that fraction and the first schedule step above it.
   */
  lemma HandleNotifies(release: Release, rawSteps: string)
    requires Handle(release, rawSteps).Notify?
    ensures var n := Handle(release, rawSteps).notification;
      && !IsTerminal(release.status)
      && ParseRolloutSteps(rawSteps).Success?
      && release.userFraction == Some(n.current)
      && FirstAbove(ParseRolloutSteps(rawSteps).value, n.current) == Some(n.next)
  {
  }

  /** The `for release in releases` loop, from a given release on. */
  function Walk(releases: seq<Release>, rawSteps: string): Run
  {
    if |releases| == 0 then Run([], AllHandled)
    else
      match Handle(releases[0], rawSteps)
      case Stop(reason) => Run([], reason)
      case Notify(n) =>
        var rest := Walk(releases[1..], rawSteps);
        Run([n] + rest.sent, rest.stop)
  }

  /** The whole decision: `releases` is `None` when the track has no `releases` key. */
  function RunTrack(releases: Option<seq<Release>>, rawSteps: string): Run
  {
    if releases.None? || |releases.value| == 0 then Run([], NoReleases)
    else Walk(releases.value, rawSteps)
  }

  /** Lines 121-163 of `main`, with each `sys.exit` and uncaught exception returned as the stop reason. */
  method Gate(releases: Option<seq<Release>>, rawSteps: string) returns (run: Run)
    ensures run == RunTrack(releases, rawSteps)
  {
    if releases.None? || |releases.value| == 0 {
      return Run([], NoReleases);
    }
    var rs := releases.value;
    var sent: seq<Notification> := [];
    for i := 0 to |rs|
      invariant Walk(rs, rawSteps) == Run(sent + Walk(rs[i..], rawSteps).sent, Walk(rs[i..], rawSteps).stop)
    {
      assert rs[i..][0] == rs[i] && rs[i..][1..] == rs[i + 1..];
      var release := rs[i];
      if release.status == "completed" {
        return Run(sent, Completed);
      }
      if release.status == "halted" {
        return Run(sent, Halted);
      }
      var parsed := ParseRolloutSteps(rawSteps);
      if parsed.Failure? {
        return Run(sent, ScheduleRejected(parsed.error));
      }
      if release.userFraction.None? {
        return Run(sent, MissingUserFraction);
      }
      var current := release.userFraction.value;
      var next := SelectNextStep(parsed.value, current);
      if next.None? {
        return Run(sent, NoHigherStep(current));
      }
      sent := sent + [Notification(current, next.value)];
    }
    return Run(sent, AllHandled);
  }

  // ---------------------------------------------------------------------------
  // Properties of the decision
  // ---------------------------------------------------------------------------

  /**
   * The run is a prefix of releases that each produce a notification,
   * followed by the first release that stops the run (or the end of the list).
   */
  lemma {:induction false} WalkTrace(releases: seq<Release>, rawSteps: string)
    ensures var run := Walk(releases, rawSteps);
      && |run.sent| <= |releases|
      && (forall i :: 0 <= i < |run.sent| ==> Handle(releases[i], rawSteps) == Notify(run.sent[i]))
      && (if |run.sent| < |releases| then Handle(releases[|run.sent|], rawSteps) == Stop(run.stop)
          else run.stop == AllHandled)
  {
    if |releases| > 0 {
      var d := Handle(releases[0], rawSteps);
      if d.Notify? {
        var rest := Walk(releases[1..], rawSteps);
        WalkTrace(releases[1..], rawSteps);
        var run := Walk(releases, rawSteps);
        assert run == Run([d.notification] + rest.sent, rest.stop);
        forall i | 1 <= i < |run.sent|
          ensures Handle(releases[i], rawSteps) == Notify(run.sent[i])
        {
          assert run.sent[i] == rest.sent[i - 1] && releases[i] == releases[1..][i - 1];
        }
        if |run.sent| < |releases| {
          assert releases[|run.sent|] == releases[1..][|rest.sent|];
        }
      }
    }
  }

  /**
   * Every notification belongs to the in-progress release at the same
   * position: it announces that release's user fraction and the least
   * schedule step above it.
   */
  lemma Notifications(releases: seq<Release>, rawSteps: string, i: int)
    requires 0 <= i < |RunTrack(Some(releases), rawSteps).sent|
    ensures var n := RunTrack(Some(releases), rawSteps).sent[i];
      && i < |releases|
      && !IsTerminal(releases[i].status)
      && ParseRolloutSteps(rawSteps).Success?
      && releases[i].userFraction == Some(n.current)
      && n.next in ParseRolloutSteps(rawSteps).value
      && n.current < n.next
      && forall x :: x in ParseRolloutSteps(rawSteps).value && x > n.current ==> n.next <= x
  {
    WalkTrace(releases, rawSteps);
    var n := Walk(releases, rawSteps).sent[i];
    HandleNotifies(releases[i], rawSteps);
    var steps := ParseRolloutSteps(rawSteps).value;
    forall x | x in steps && x > n.current ensures n.next <= x {
      LeastAbove(steps, n.current, x);
    }
  }

  /** Releases are handled in order: nothing at or after the first completed or halted release is announced. */
  lemma StopsAtFirstTerminal(releases: seq<Release>, rawSteps: string, k: int)
    requires 0 <= k < |releases| && IsTerminal(releases[k].status)
    ensures |RunTrack(Some(releases), rawSteps).sent| <= k
    ensures (forall j :: 0 <= j < k ==> Handle(releases[j], rawSteps).Notify?) ==>
      RunTrack(Some(releases), rawSteps).stop == (if releases[k].status == "completed" then Completed else Halted)
  {
    WalkTrace(releases, rawSteps);
    assert Handle(releases[k], rawSteps).Stop?;
  }

  /** A rejected schedule means no notification at all: parsing comes before any attempt. */
  lemma RejectedScheduleSendsNothing(releases: Option<seq<Release>>, rawSteps: string)
    requires ParseRolloutSteps(rawSteps).Failure?
    ensures RunTrack(releases, rawSteps).sent == []
    ensures RunTrack(releases, rawSteps).stop in
      {NoReleases, Completed, Halted, ScheduleRejected(ParseRolloutSteps(rawSteps).error)}
  {
  }

  /**
   * When the first release is completed or halted, the schedule is never
   * parsed: the outcome is the same for every schedule string, malformed ones
   * included, and nothing is announced.
   */
  lemma TerminalIgnoresSchedule(releases: seq<Release>, rawSteps: string, otherSteps: string)
    requires |releases| > 0 && IsTerminal(releases[0].status)
    ensures RunTrack(Some(releases), rawSteps) == RunTrack(Some(releases), otherSteps)
    ensures RunTrack(Some(releases), rawSteps).sent == []
  {
  }

  /** No releases at all: the run ends quietly. */
  lemma NoReleasesSendsNothing(rawSteps: string)
    ensures RunTrack(None, rawSteps) == Run([], NoReleases)
    ensures RunTrack(Some([]), rawSteps) == Run([], NoReleases)
  {
  }

  /** A single in-progress release is announced exactly when its schedule parses and has a step above it. */
  lemma SingleRelease(r: Release, rawSteps: string, steps: seq<real>, current: real)
    requires !IsTerminal(r.status) && r.userFraction == Some(current)
    requires ParseRolloutSteps(rawSteps) == Success(steps)
    ensures RunTrack(Some([r]), rawSteps) ==
      match FirstAbove(steps, current)
      case Some(next) => Run([Notification(current, next)], AllHandled)
      case None => Run([], NoHigherStep(current))
  {
    assert [r][0] == r && [r][1..] == [];
    match FirstAbove(steps, current)
    case Some(next) =>
      assert Handle(r, rawSteps) == Notify(Notification(current, next));
      assert Walk([], rawSteps) == Run([], AllHandled);
    case None =>
      assert Handle(r, rawSteps) == Stop(NoHigherStep(current));
  }

  /** An in-progress release at 5% with schedule "1,20,50,100" is announced as moving to 20%. */
  lemma ExampleAnnounced()
    ensures RunTrack(Some([Release("inProgress", Some(0.05))]), "1,20,50,100")
      == Run([Notification(0.05, 0.2)], AllHandled)
  {
    ExampleAccepted();
    ExampleSelections();
    SingleRelease(Release("inProgress", Some(0.05)), "1,20,50,100", [0.01, 0.2, 0.5, 1.0], 0.05);
  }

  /** A release already at 100% has no higher step, and the run ends without a notification. */
  lemma ExampleExhausted()
    ensures RunTrack(Some([Release("inProgress", Some(1.0))]), "1,20,50,100")
      == Run([], NoHigherStep(1.0))
  {
    ExampleAccepted();
    ExampleSelections();
    SingleRelease(Release("inProgress", Some(1.0)), "1,20,50,100", [0.01, 0.2, 0.5, 1.0], 1.0);
  }

  /** A completed release ends the run before the malformed schedule "1,,x" is looked at. */
  lemma ExampleCompleted()
    ensures RunTrack(Some([Release("completed", None)]), "1,,x") == Run([], Completed)
  {
  }
}
