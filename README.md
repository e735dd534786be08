# Phased release messenger: rollout-step decision core

The messenger is a build step that looks at a Google Play release track and,
while a staged rollout is in progress, posts a chat card saying that the
rollout will increase from its current user fraction to the next configured
step. This project models the decision part of it in Dafny and proves
properties of that model:

- `RolloutSchedule.ParseRolloutSteps` (`schedule.dfy`) is `parse_rollout_steps`.
  It takes the operator's step string, for example `"1,20,50,100"`. The string
  is split on commas and each token is stripped of whitespace and read as an
  integer. Every value must lie in [0, 100], and each value must be strictly
  greater than the one before. The result is the list of exact fractions
  `p / 100`. Anything else gives one of three errors, checked in this order:
  `InvalidFormat`, `OutOfRange`, `NotMonotonic`.
- `Text` (`text.dfy`) models the Python built-ins the parser relies on:
  `str.split(",")`, `str.strip()` and `int(...)`.
- `NextStep.SelectNextStep` (`selector.dfy`) is the `for step in rollout_steps`
  loop with its `break`. It is proved equal to the specification function
  `FirstAbove`: the first step strictly above the current fraction, or `None`.
- `ReleaseGate.Gate` (`gate.dfy`) is the release loop of `main`. It is proved
  equal to the specification function `RunTrack`. That function returns the
  notifications attempted, each a `(current, next)` pair, and the reason the
  run stopped.

Inputs that the program gets from outside are parameters here. The track's
`releases` list is `Option<seq<Release>>`, where `None` means the key is
absent; each release has a `status` string and an optional `userFraction`. The
raw step string is the second command-line argument. The webhook POST is not
performed; each attempt is recorded as a `Notification`.

What the code does in the places where a reader might expect otherwise:

- When no step is above the current fraction, the code prints a notice and
  goes on to build the card. Line 217 then evaluates `None * 100`, which raises
  `TypeError`, so no message is posted and the run aborts. The model ends the
  run with `NoHigherStep(current)` and records no notification: no "no higher
  step" message is ever posted.
- The code does not stop after the first release. Every in-progress release
  in the list gets its own notification attempt, provided every earlier
  `send_post` returned; a POST that raises ends the run in the source, and the
  model assumes every POST returns (see "Left out"). The run stops at the first
  completed or halted release, at a schedule error, at a missing
  `userFraction`, or at a release with no higher step. The model follows the
  code (`WalkTrace`, `StopsAtFirstTerminal`).
- A non-terminal release without `userFraction`, such as a draft, makes line
  146 raise `KeyError`. The model returns `MissingUserFraction`. The schedule
  is parsed first (line 143), so a schedule error is reported before that.
- The schedule is parsed again for every in-progress release (line 143 is
  inside the loop). The model does the same; the parse is deterministic, so
  the result is the same each time.

## Model

| member | source | states |
|---|---|---|
| `Text.Split` | phased_release_messenger.py:66 | `split(",")` yields exactly one token more than there are commas, so `""` gives one empty token |
| `Text.SplitPiecesWithoutSep` | phased_release_messenger.py:66 | no token contains a comma |
| `Text.SplitWithoutSep` | phased_release_messenger.py:66 | a string without a comma is a single token |
| `Text.SplitAtSep` | phased_release_messenger.py:66 | a comma divides the tokens into those of the text before it followed by those of the text after it |
| `Text.JoinSplit` | phased_release_messenger.py:66 | joining the tokens with commas gives back the original string, so splitting loses nothing |
| `Text.SplitJoin` | phased_release_messenger.py:66 | splitting the comma-join of comma-free tokens gives back exactly those tokens |
| `Text.StripLeftPadded` | phased_release_messenger.py:66 | leading whitespace in front of a core that does not start with whitespace is removed, and nothing else |
| `Text.StripRightPadded` | phased_release_messenger.py:66 | trailing whitespace after a core that does not end with whitespace is removed, and nothing else |
| `Text.StripPadded` | phased_release_messenger.py:66 | `strip()` returns exactly the core inside any whitespace padding |
| `Text.Strip` | phased_release_messenger.py:66 | `s.strip()`: leading then trailing whitespace removed (characterised by `StripPadded`) |
| `Text.StripBlank` | phased_release_messenger.py:66 | a token made only of whitespace strips to the empty string |
| `Text.DecimalValue` | phased_release_messenger.py:66 | reading the decimal digits of a natural number gives that number back |
| `Text.ParseLiteralFormat` | phased_release_messenger.py:66 | in the model, `int(str(n)) == n` for every integer, negative ones included; this holds of Python for integers of at most 4300 digits |
| `Text.ParseFormatInt` | phased_release_messenger.py:66 | in the model, `int(s.strip()) == n` for the decimal spelling of n with any whitespace around it; this holds of Python for integers of at most 4300 digits |
| `Text.ParseInt` | phased_release_messenger.py:66-68 | `int(t)`: the stripped token read as an optionally signed decimal literal of any length, `None` where `ValueError` is raised on a literal of at most 4300 digits (characterised by `ParseFormatInt`, `ParseBlank`) |
| `Text.ParseBlank` | phased_release_messenger.py:66-68 | an empty or whitespace-only token is not an integer |
| `Text.FormatIntChars` | phased_release_messenger.py:66 | the decimal spelling of an integer contains no comma, and no other character besides digits and '-' |
| `Text.PaddedIntWithoutSep` | phased_release_messenger.py:66 | a whitespace-padded integer contains no comma, so it is one token |
| `RolloutSchedule.IncreasingPairwise` | phased_release_messenger.py:73 | the adjacent-pair check implies that every earlier step is below every later one |
| `RolloutSchedule.ParseTokens` | phased_release_messenger.py:66-68 | the comprehension `[int(s.strip()) for s in ...]`: each token converted in order, `None` as soon as one is not an integer |
| `RolloutSchedule.ToFractions` | phased_release_messenger.py:76 | `[step / 100.0 for step in steps]` with exact division |
| `RolloutSchedule.ParseTokensSpec` | phased_release_messenger.py:65-68 | the token conversion succeeds iff every token is an integer, and then it gives one value per token, in order |
| `RolloutSchedule.ValidateSteps` | phased_release_messenger.py:70-76 | when the range and order checks pass, the result has one fraction per value, each in [0, 1], strictly increasing |
| `RolloutSchedule.ParseRolloutSteps` | phased_release_messenger.py:45-76 | on success: one fraction per comma-separated token, each in [0, 1], strictly increasing |
| `RolloutSchedule.ValidTokens` | phased_release_messenger.py:70-74 | the range and order checks pass exactly on the values of well-formed tokens |
| `RolloutSchedule.ParseSucceedsIff` | phased_release_messenger.py:65-76 | parsing succeeds iff every token is an integer, every value is in [0, 100] and adjacent values strictly increase; then entry i is token i divided by 100 |
| `RolloutSchedule.FormatCheckedFirst` | phased_release_messenger.py:65-68 | a single non-integer token anywhere gives `InvalidFormat`, whatever the other tokens are |
| `RolloutSchedule.RangeCheckedSecond` | phased_release_messenger.py:70-71 | with all tokens integers, one value outside [0, 100] gives `OutOfRange`, whatever the order |
| `RolloutSchedule.OrderCheckedLast` | phased_release_messenger.py:73-74 | with all tokens integers in range, any adjacent pair that does not strictly increase (equal values included) gives `NotMonotonic` |
| `RolloutSchedule.ParseFormattedTokens` | phased_release_messenger.py:66 | the tokens of a schedule written out as `",".join(str(p))` read back as the original values |
| `RolloutSchedule.ParseFormatSteps` | phased_release_messenger.py:65-76 | writing any valid schedule out and parsing it back gives exactly its values divided by 100 |
| `RolloutSchedule.FormattedOutOfRange` | phased_release_messenger.py:70-71 | a written-out schedule with a value outside [0, 100] is rejected as out of range, even if it is also out of order |
| `RolloutSchedule.FormattedNotMonotonic` | phased_release_messenger.py:73-74 | a written-out in-range schedule with a non-increasing adjacent pair is rejected as not monotonic |
| `RolloutSchedule.SingleStepAccepted` | phased_release_messenger.py:73 | one in-range value, padded with any whitespace, is always accepted as the one-step schedule p/100 |
| `RolloutSchedule.SingleTokenValue` | phased_release_messenger.py:66 | a one-token list converts to the one value of its token |
| `RolloutSchedule.BlankTokenRejected` | phased_release_messenger.py:66-68 | a blank token anywhere among the comma-separated tokens gives `InvalidFormat` |
| `RolloutSchedule.DoubledCommaRejected` | phased_release_messenger.py:66-68 | any string containing ",," gives `InvalidFormat` |
| `RolloutSchedule.TrailingCommaRejected` | phased_release_messenger.py:66-68 | any string ending in "," gives `InvalidFormat` |
| `RolloutSchedule.ExampleAccepted` | phased_release_messenger.py:47-60 | "1,20,50,100" parses to [0.01, 0.2, 0.5, 1.0] |
| `RolloutSchedule.ExampleDescending` | phased_release_messenger.py:73-74 | "50,20" gives `NotMonotonic` |
| `RolloutSchedule.ExampleRepeated` | phased_release_messenger.py:73-74 | "1,20,20,50" gives `NotMonotonic` |
| `RolloutSchedule.ExamplesOutOfRange` | phased_release_messenger.py:70-71 | "1,150" and "150,20" give `OutOfRange` |
| `RolloutSchedule.ExamplesEmptyToken` | phased_release_messenger.py:66-68 | "" and "1," give `InvalidFormat` |
| `RolloutSchedule.ExampleBadToken` | phased_release_messenger.py:65-68 | "1,x,50" gives `InvalidFormat` |
| `RolloutSchedule.ExampleBadTokenFirst` | phased_release_messenger.py:65-71 | "150,x" gives `InvalidFormat`, not `OutOfRange`: the format check comes first |
| `NextStep.FirstAbove` | phased_release_messenger.py:147-156 | the choice is `None` iff every step is at most the current fraction; otherwise it is a schedule step strictly above the current fraction |
| `NextStep.SelectNextStep` | phased_release_messenger.py:146-156 | the scan with `break` returns exactly `FirstAbove(steps, current)` |
| `NextStep.FirstAboveAt` | phased_release_messenger.py:150-153 | a step above the current fraction with no such step before it is the one chosen |
| `NextStep.FirstAboveIndex` | phased_release_messenger.py:150-153 | the chosen step sits at an index before which no step is above the current fraction |
| `NextStep.LeastAbove` | phased_release_messenger.py:150-153 | on an ascending schedule with some step above the current fraction, a step is chosen and it is the least step above the current fraction |
| `NextStep.ExampleSelections` | phased_release_messenger.py:150-156 | with schedule [0.01, 0.2, 0.5, 1.0]: 0.05 selects 0.2, 0.2 selects 0.5 (strictness), 1.0 selects nothing |
| `ReleaseGate.Handle` | phased_release_messenger.py:127-163 | the loop body for one release: `Completed`, `Halted`, then the parse error, then `MissingUserFraction`, then `NoHigherStep`, otherwise a notification of (current, first step above it) |
| `ReleaseGate.Walk` | phased_release_messenger.py:125-163 | the loop over the releases: the notifications of the leading releases that produce one, then the first stop reason, or `AllHandled` after the last release |
| `ReleaseGate.RunTrack` | phased_release_messenger.py:121-163 | a missing or empty `releases` list gives `NoReleases` with no notification; otherwise the loop over the releases |
| `ReleaseGate.HandleNotifies` | phased_release_messenger.py:127-156 | a release gives a notification only if it is neither completed nor halted, the schedule parses and the release has a user fraction; the notification announces that fraction and the first schedule step above it |
| `ReleaseGate.Gate` | phased_release_messenger.py:121-163 | the loop with its early exits returns exactly `RunTrack(releases, rawSteps)` |
| `ReleaseGate.WalkTrace` | phased_release_messenger.py:125-163 | the run announces a prefix of the releases, one per release, in list order, and stops at the first release that does not produce a notification, or after the last release |
| `ReleaseGate.Notifications` | phased_release_messenger.py:140-163 | the i-th notification belongs to the i-th release: it is in progress, its user fraction is the announced current value, and the announced next value is the least schedule step above it |
| `ReleaseGate.StopsAtFirstTerminal` | phased_release_messenger.py:125-138 | nothing at or after a completed or halted release is announced, and the run ends as `Completed` or `Halted` once it gets there |
| `ReleaseGate.RejectedScheduleSendsNothing` | phased_release_messenger.py:140-143 | a malformed schedule means no notification at all; the run ends with no releases, completed, halted, or the parse error |
| `ReleaseGate.TerminalIgnoresSchedule` | phased_release_messenger.py:130-143 | when the first release is completed or halted the outcome does not depend on the schedule string, so a malformed one causes no error, and nothing is announced |
| `ReleaseGate.NoReleasesSendsNothing` | phased_release_messenger.py:121-123 | a missing or empty `releases` list ends the run with no notification |
| `ReleaseGate.SingleRelease` | phased_release_messenger.py:125-163 | one in-progress release with a valid schedule is announced iff a step above its fraction exists; otherwise the run stops with `NoHigherStep` |
| `ReleaseGate.ExampleAnnounced` | phased_release_messenger.py:140-163 | an in-progress release at 0.05 with "1,20,50,100" is announced as moving to 0.2 |
| `ReleaseGate.ExampleExhausted` | phased_release_messenger.py:155-156 | an in-progress release at 1.0 with "1,20,50,100" is not announced and the run stops with `NoHigherStep(1.0)` |
| `ReleaseGate.ExampleCompleted` | phased_release_messenger.py:131-133 | a completed release ends the run even with the malformed schedule "1,,x" |

## Left out

- Play Developer API access (`get_edit_id`, `get_info_for_track`, credentials, `build`) is external: the release list is an input value.
- `AccessTokenRefreshError` handling (lines 249-252) is not modelled, because credential failure comes from the external API.
- `send_post` and its HTTP status handling are network I/O: an attempt is recorded as a `Notification`. The code ignores only the HTTP status code (lines 85-88).
- `ReleaseGate.Walk` assumes that every `send_post` returns. In the source, a transport error from `requests.post` (line 80) or a JSON decode error from `response.json()` (line 86) escapes `main`, since only `AccessTokenRefreshError` is caught (line 249), and ends the run before the next release; the model records notifications for the later in-progress releases instead.
- The Adaptive Card payload and its text are presentation; only the failure of line 217 on a missing next step is reflected, as `NoHigherStep`.
- Reading `sys.argv`, the `print` logging, and `sys.exit` as a process mechanism are left out; each exit is a `StopReason` value.
- Fractions are exact reals. `step / 100.0` in IEEE doubles and float comparisons against `userFraction` are not modelled.
- `Text.ParseInt` is a simplification of Python's `int()`. It accepts surrounding whitespace, an optional sign and one or more ASCII digits. It does not accept digit-group underscores (`"1_0"`) or non-ASCII decimal digits, which Python's `int()` does accept. Nor does it model the limit on the length of a decimal literal: since CPython 3.11 (and the 3.7.14, 3.8.14, 3.9.14 and 3.10.7 security releases) `int()` raises `ValueError` on more than 4300 digits, leading zeros included, by default. A schedule token that long therefore gives `InvalidFormat` in the source, where the model gives `OutOfRange` (or accepts a zero-padded in-range value). The limit is configurable at run time (`sys.set_int_max_str_digits`, `PYTHONINTMAXSTRDIGITS`) and absent in older releases, so the model reads literals of any length.
- `Text.IsSpace` covers the characters for which `str.isspace()` holds, as of Unicode 6.3 and later.
- Running the decision twice on the same inputs gives the same result by construction, because every member is a function of its inputs; no lemma states it.
