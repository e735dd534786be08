/**
 * `parse_rollout_steps`: turns an operator-supplied string such as
 * "1,20,50,100" into the ascending rollout fractions [0.01, 0.2, 0.5, 1.0],
 * or into one of three errors, checked in a fixed order.
 */
module RolloutSchedule {
  import opened Wrappers
  import opened Text

  /** The three ways the schedule is rejected; each is a distinct `SystemExit` in the source. */
  datatype ParseError = InvalidFormat | OutOfRange | NotMonotonic

  /** A percentage the Play Console accepts as a step. */
  predicate InRange(p: int)
  {
    0 <= p <= 100
  }

  predicate AllInRange(steps: seq<int>)
  {
    forall i :: 0 <= i < |steps| ==> InRange(steps[i])
  }

  /** Every step is strictly greater than the one before it. */
  predicate StrictlyIncreasing(steps: seq<int>)
  {
    forall i :: 0 <= i < |steps| - 1 ==> steps[i] < steps[i + 1]
  }

  predicate Ascending(fractions: seq<real>)
  {
    forall i, j :: 0 <= i < j < |fractions| ==> fractions[i] < fractions[j]
  }

  /** Adjacent strict increase implies that every earlier step is below every later one. */
  lemma {:induction false} IncreasingPairwise(steps: seq<int>, i: int, j: int)
    requires StrictlyIncreasing(steps)
    requires 0 <= i < j < |steps|
    ensures steps[i] < steps[j]
  {
    if j > i + 1 {
      IncreasingPairwise(steps, i, j - 1);
    }
  }

  /** `[int(s.strip()) for s in tokens]`: every token converted, or `None` if one is not an integer. */
  function ParseTokens(tokens: seq<string>): Option<seq<int>>
  {
    if |tokens| == 0 then Some([])
    else
      match ParseInt(tokens[0])
      case None => None
      case Some(n) =>
        match ParseTokens(tokens[1..])
        case None => None
        case Some(ns) => Some([n] + ns)
  }

  /** The conversion succeeds iff every token is an integer, and then it keeps one value per token, in order. */
  lemma {:induction false} ParseTokensSpec(tokens: seq<string>)
    ensures ParseTokens(tokens).Some? <==> forall i :: 0 <= i < |tokens| ==> ParseInt(tokens[i]).Some?
    ensures ParseTokens(tokens).Some? ==> |ParseTokens(tokens).value| == |tokens|
    ensures ParseTokens(tokens).Some? ==>
      forall i :: 0 <= i < |tokens| ==> ParseTokens(tokens).value[i] == ParseInt(tokens[i]).value
  {
    if |tokens| > 0 {
      ParseTokensSpec(tokens[1..]);
      assert forall i :: 1 <= i < |tokens| ==> tokens[1..][i - 1] == tokens[i];
    }
  }

  /** `[step / 100.0 for step in steps]`, with exact division. */
  function ToFractions(steps: seq<int>): seq<real>
  {
    seq(|steps|, i requires 0 <= i < |steps| => steps[i] as real / 100.0)
  }

  /**
   * The checks after conversion: any value outside [0, 100] first, then any
   * adjacent pair that does not strictly increase; otherwise the fractions.
   */
  function ValidateSteps(steps: seq<int>): (r: Result<seq<real>, ParseError>)
    ensures r.Success? ==> |r.value| == |steps|
    ensures r.Success? ==> forall i :: 0 <= i < |r.value| ==> 0.0 <= r.value[i] <= 1.0
    ensures r.Success? ==> Ascending(r.value)
  {
    if !AllInRange(steps) then Failure(OutOfRange)
    else if !StrictlyIncreasing(steps) then Failure(NotMonotonic)
    else
      var r := ToFractions(steps);
      assert Ascending(r) by {
        forall i, j | 0 <= i < j < |r| ensures r[i] < r[j] { IncreasingPairwise(steps, i, j); }
      }
      Success(r)
  }

  /**
   * `parse_rollout_steps(raw)`. A success holds one fraction per token, each in
   * [0, 1], in strictly increasing order.
   */
  function ParseRolloutSteps(raw: string): (r: Result<seq<real>, ParseError>)
    ensures r.Success? ==> |r.value| == Count(raw, ',') + 1
    ensures r.Success? ==> forall i :: 0 <= i < |r.value| ==> 0.0 <= r.value[i] <= 1.0
    ensures r.Success? ==> Ascending(r.value)
  {
    var tokens := Split(raw, ',');
    match ParseTokens(tokens)
    case None => Failure(InvalidFormat)
    case Some(steps) =>
      ParseTokensSpec(tokens);
      ValidateSteps(steps)
  }

  // ---------------------------------------------------------------------------
  // What the parser accepts and what it rejects
  // ---------------------------------------------------------------------------

  /** The tokens of a schedule that is accepted: all integers, all in range, adjacent values strictly increasing. */
  ghost predicate WellFormed(tokens: seq<string>)
  {
    (forall i :: 0 <= i < |tokens| ==> ParseInt(tokens[i]).Some?)
    && (forall i :: 0 <= i < |tokens| ==> InRange(ParseInt(tokens[i]).value))
    && (forall i :: 0 <= i < |tokens| - 1 ==> ParseInt(tokens[i]).value < ParseInt(tokens[i + 1]).value)
  }

  /** The checks after conversion pass exactly on the values of well-formed tokens. */
  lemma ValidTokens(tokens: seq<string>)
    requires ParseTokens(tokens).Some?
    ensures ValidateSteps(ParseTokens(tokens).value).Success? <==> WellFormed(tokens)
  {
    ParseTokensSpec(tokens);
    var steps := ParseTokens(tokens).value;
    assert forall i :: 0 <= i < |tokens| ==> ParseInt(tokens[i]).value == steps[i];
    assert AllInRange(steps) <==> forall i :: 0 <= i < |tokens| ==> InRange(ParseInt(tokens[i]).value);
  }

  /**
   * Parsing succeeds exactly when the comma-separated tokens are well formed,
   * and then entry i is token i divided by 100.
   */
  lemma ParseSucceedsIff(raw: string)
    ensures ParseRolloutSteps(raw).Success? <==> WellFormed(Split(raw, ','))
    ensures ParseRolloutSteps(raw).Success? ==>
      var tokens := Split(raw, ',');
      var r := ParseRolloutSteps(raw).value;
      |r| == |tokens| && forall i :: 0 <= i < |tokens| ==> r[i] == ParseInt(tokens[i]).value as real / 100.0
  {
    var tokens := Split(raw, ',');
    ParseTokensSpec(tokens);
    if ParseTokens(tokens).Some? {
      ValidTokens(tokens);
    }
  }

  /** A token that is not an integer is reported first, whatever the other tokens hold. */
  lemma FormatCheckedFirst(raw: string, k: int)
    requires 0 <= k < |Split(raw, ',')| && ParseInt(Split(raw, ',')[k]).None?
    ensures ParseRolloutSteps(raw) == Failure(InvalidFormat)
  {
    ParseTokensSpec(Split(raw, ','));
  }

  /** With every token an integer, a value outside [0, 100] is reported before any ordering fault. */
  lemma RangeCheckedSecond(raw: string, k: int)
    requires forall i :: 0 <= i < |Split(raw, ',')| ==> ParseInt(Split(raw, ',')[i]).Some?
    requires 0 <= k < |Split(raw, ',')| && !InRange(ParseInt(Split(raw, ',')[k]).value)
    ensures ParseRolloutSteps(raw) == Failure(OutOfRange)
  {
    ParseTokensSpec(Split(raw, ','));
    var steps := ParseTokens(Split(raw, ',')).value;
    assert !InRange(steps[k]);
  }

  /** With every token an in-range integer, a pair that does not increase (equal values included) is reported last. */
  lemma OrderCheckedLast(raw: string, k: int)
    requires forall i :: 0 <= i < |Split(raw, ',')| ==> ParseInt(Split(raw, ',')[i]).Some?
    requires forall i :: 0 <= i < |Split(raw, ',')| ==> InRange(ParseInt(Split(raw, ',')[i]).value)
    requires 0 <= k < |Split(raw, ',')| - 1
    requires ParseInt(Split(raw, ',')[k]).value >= ParseInt(Split(raw, ',')[k + 1]).value
    ensures ParseRolloutSteps(raw) == Failure(NotMonotonic)
  {
    var tokens := Split(raw, ',');
    ParseTokensSpec(tokens);
    var steps := ParseTokens(tokens).value;
    assert AllInRange(steps) by {
      forall i | 0 <= i < |steps| ensures InRange(steps[i]) { assert steps[i] == ParseInt(tokens[i]).value; }
    }
    assert steps[k] >= steps[k + 1];
  }

  /** The schedule string an operator would write for `steps`: `",".join(str(p) for p in steps)`. */
  function FormatSteps(steps: seq<int>): string
    requires |steps| > 0
  {
    Join(seq(|steps|, i requires 0 <= i < |steps| => FormatInt(steps[i])), ',')
  }

  /** The tokens of a written-out schedule read back as its values, whatever the values are. */
  lemma ParseFormattedTokens(steps: seq<int>)
    requires |steps| > 0
    ensures ParseTokens(Split(FormatSteps(steps), ',')) == Some(steps)
  {
    var tokens := seq(|steps|, i requires 0 <= i < |steps| => FormatInt(steps[i]));
    forall i | 0 <= i < |tokens| ensures ',' !in tokens[i] { FormatIntChars(steps[i], ','); }
    SplitJoin(tokens, ',');
    forall i | 0 <= i < |tokens| ensures ParseInt(tokens[i]) == Some(steps[i]) {
      ParseFormatInt(steps[i], [], []);
      assert [] + tokens[i] + [] == tokens[i];
    }
    ParseTokensSpec(tokens);
    assert ParseTokens(tokens).value == steps;
  }

  /** Writing a valid schedule out and parsing it back gives its fractions. */
  lemma ParseFormatSteps(steps: seq<int>)
    requires |steps| > 0 && AllInRange(steps) && StrictlyIncreasing(steps)
    ensures ParseRolloutSteps(FormatSteps(steps)) == Success(ToFractions(steps))
  {
    ParseFormattedTokens(steps);
  }

  /** Written-out values outside [0, 100] are rejected as out of range, even when they are also out of order. */
  lemma FormattedOutOfRange(steps: seq<int>, k: int)
    requires 0 <= k < |steps| && !InRange(steps[k])
    ensures ParseRolloutSteps(FormatSteps(steps)) == Failure(OutOfRange)
  {
    ParseFormattedTokens(steps);
  }

  /** Written-out in-range values with a pair that does not increase are rejected as not monotonic. */
  lemma FormattedNotMonotonic(steps: seq<int>, k: int)
    requires AllInRange(steps) && 0 <= k < |steps| - 1 && steps[k] >= steps[k + 1]
    ensures ParseRolloutSteps(FormatSteps(steps)) == Failure(NotMonotonic)
  {
    ParseFormattedTokens(steps);
  }

  /** A single in-range step, with or without surrounding whitespace, is always accepted. */
  lemma SingleStepAccepted(p: int, pre: string, post: string)
    requires InRange(p) && AllSpace(pre) && AllSpace(post)
    ensures ParseRolloutSteps(pre + FormatInt(p) + post) == Success([p as real / 100.0])
  {
    var s := pre + FormatInt(p) + post;
    PaddedIntWithoutSep(p, pre, post, ',');
    SplitWithoutSep(s, ',');
    ParseFormatInt(p, pre, post);
    SingleTokenValue(s, p);
    assert ToFractions([p]) == [p as real / 100.0];
  }

  lemma SingleTokenValue(s: string, p: int)
    requires ParseInt(s) == Some(p)
    ensures ParseTokens([s]) == Some([p])
  {
    ParseTokensSpec([s]);
    var r := ParseTokens([s]);
    assert [s][0] == s;
    assert r.Some? && |r.value| == 1 && r.value[0] == p;
    assert r.value == [p];
  }

  /**
   * A blank token anywhere in the schedule (the empty string, a leading,
   * trailing or doubled comma, or "1, ,2") is a format error.
   */
  lemma BlankTokenRejected(tokens: seq<string>, k: int)
    requires forall i :: 0 <= i < |tokens| ==> ',' !in tokens[i]
    requires 0 <= k < |tokens| && AllSpace(tokens[k])
    ensures ParseRolloutSteps(Join(tokens, ',')) == Failure(InvalidFormat)
  {
    SplitJoin(tokens, ',');
    ParseBlank(tokens[k]);
    FormatCheckedFirst(Join(tokens, ','), k);
  }

  /** Two commas in a row leave an empty token between them. */
  lemma DoubledCommaRejected(a: string, b: string)
    ensures ParseRolloutSteps(a + ",," + b) == Failure(InvalidFormat)
  {
    assert a + ",," + b == a + [','] + ([','] + b);
    SplitAtSep(a, [','] + b, ',');
    assert [','] + b == [] + [','] + b;
    SplitAtSep([], b, ',');
    var tokens := Split(a, ',') + [[]] + Split(b, ',');
    assert Split(a + ",," + b, ',') == tokens;
    assert tokens[|Split(a, ',')|] == [];
    ParseBlank([]);
    FormatCheckedFirst(a + ",," + b, |Split(a, ',')|);
  }

  /** A trailing comma leaves an empty last token. */
  lemma TrailingCommaRejected(a: string)
    ensures ParseRolloutSteps(a + ",") == Failure(InvalidFormat)
  {
    assert a + "," == a + [','] + [];
    SplitAtSep(a, [], ',');
    var tokens := Split(a, ',') + [[]];
    assert Split(a + ",", ',') == tokens && tokens[|tokens| - 1] == [];
    ParseBlank([]);
    FormatCheckedFirst(a + ",", |tokens| - 1);
  }

  // ---------------------------------------------------------------------------
  // Worked examples
  // ---------------------------------------------------------------------------

  lemma Spellings()
    ensures FormatInt(1) == "1" && FormatInt(20) == "20" && FormatInt(50) == "50"
    ensures FormatInt(100) == "100" && FormatInt(150) == "150"
  {
    assert Decimal(10) == "10";
    assert Decimal(15) == "15";
  }

  /** The schedule string for literal values, spelled out token by token. */
  lemma FormatStepsLiteral(steps: seq<int>, tokens: seq<string>)
    requires |steps| == |tokens| > 0
    requires forall i :: 0 <= i < |steps| ==> FormatInt(steps[i]) == tokens[i]
    ensures FormatSteps(steps) == Join(tokens, ',')
  {
    assert seq(|steps|, i requires 0 <= i < |steps| => FormatInt(steps[i])) == tokens;
  }

  lemma ExampleText()
    ensures FormatSteps([1, 20, 50, 100]) == "1,20,50,100"
  {
    Spellings();
    FormatStepsLiteral([1, 20, 50, 100], ["1", "20", "50", "100"]);
    assert Join(["1", "20", "50", "100"], ',') == "1,20,50,100";
  }

  lemma ExampleAccepted()
    ensures ParseRolloutSteps("1,20,50,100") == Success([0.01, 0.2, 0.5, 1.0])
  {
    ExampleText();
    ParseFormatSteps([1, 20, 50, 100]);
    assert ToFractions([1, 20, 50, 100]) == [0.01, 0.2, 0.5, 1.0];
  }

  /** Descending adjacent values are rejected. */
  lemma ExampleDescending()
    ensures ParseRolloutSteps("50,20") == Failure(NotMonotonic)
  {
    Spellings();
    FormatStepsLiteral([50, 20], ["50", "20"]);
    assert Join(["50", "20"], ',') == "50,20";
    FormattedNotMonotonic([50, 20], 0);
  }

  /** Equal adjacent values are rejected: the increase must be strict. */
  lemma ExampleRepeated()
    ensures ParseRolloutSteps("1,20,20,50") == Failure(NotMonotonic)
  {
    Spellings();
    FormatStepsLiteral([1, 20, 20, 50], ["1", "20", "20", "50"]);
    assert Join(["1", "20", "20", "50"], ',') == "1,20,20,50";
    FormattedNotMonotonic([1, 20, 20, 50], 1);
  }

  /** A value above 100 is rejected, even when the order is also wrong. */
  lemma ExamplesOutOfRange()
    ensures ParseRolloutSteps("1,150") == Failure(OutOfRange)
    ensures ParseRolloutSteps("150,20") == Failure(OutOfRange)
  {
    Spellings();
    FormatStepsLiteral([1, 150], ["1", "150"]);
    assert Join(["1", "150"], ',') == "1,150";
    FormattedOutOfRange([1, 150], 1);
    FormatStepsLiteral([150, 20], ["150", "20"]);
    assert Join(["150", "20"], ',') == "150,20";
    FormattedOutOfRange([150, 20], 0);
  }

  /** The empty string and a trailing comma each leave an empty token. */
  lemma ExamplesEmptyToken()
    ensures ParseRolloutSteps("") == Failure(InvalidFormat)
    ensures ParseRolloutSteps("1,") == Failure(InvalidFormat)
  {
    ParseBlank("");
    TrailingCommaRejected("1");
  }

  /** A non-integer token gives a format error. */
  lemma ExampleBadToken()
    ensures ParseRolloutSteps("1,x,50") == Failure(InvalidFormat)
  {
    assert Join(["1", "x", "50"], ',') == "1,x,50";
    SplitJoin(["1", "x", "50"], ',');
    assert ParseInt("x") == None;
    FormatCheckedFirst("1,x,50", 1);
  }

  /** A non-integer token wins over every other fault, here an out-of-range value. */
  lemma ExampleBadTokenFirst()
    ensures ParseRolloutSteps("150,x") == Failure(InvalidFormat)
  {
    assert Join(["150", "x"], ',') == "150,x";
    SplitJoin(["150", "x"], ',');
    assert ParseInt("x") == None;
    FormatCheckedFirst("150,x", 1);
  }
}
