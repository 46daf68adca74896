/**
 * The r1v reward functions (examples/reward_function/r1v.py): the two accuracy scorers and the
 * two entry points that combine them with the format score.
 *
 * The grading routine `grade_answer` belongs to a library outside this model. It is a parameter
 * here, free to judge any pair of strings either way or to raise; nothing about it is assumed.
 */
module Reward {
  import opened Wrappers
  import opened Text
  import opened Tags
  import opened Tokens
  import opened Weighting

  /** What one call `grade_answer(given, target)` does: returns true, returns false, or raises. */
  datatype Verdict = Accept | Reject | Raises

  type GradeAnswer = (string, string) -> Verdict

  /** A value of the scorer's input mapping: a `str` or any other Python object. */
  datatype Value = Str(text: string) | NonStr

  /** The argument of `compute_score`: a `dict`, or anything else. */
  datatype RewardInput = Mapping(fields: map<string, Value>) | NotMapping

  /** The exceptions the entry points let escape. */
  datatype ScoreError =
    | NotAMapping        // the `ValueError` raised for a non-dict argument
    | MissingKey(key: string)
    | ResponseNotString  // `re.fullmatch` refuses a non-`str` response

  datatype Scores = Scores(overall: real, format: real, accuracy: real)

  const DefaultFormatWeight: real := 0.1

  /** `response.replace("\n", "").replace(" ", "")`: tabs, carriage returns and other whitespace stay. */
  function SquashSpaces(response: string): (t: string)
    ensures '\n' !in t && ' ' !in t
    ensures forall c :: c != '\n' && c != ' ' ==> (c in t <==> c in response)
  {
    DeleteChar(DeleteChar(response, '\n'), ' ')
  }

  /** The answer text `accuracy_reward` grades: the stripped tagged answer, else the stripped response. */
  function GivenAnswer(response: string): (given: string)
    ensures Trimmed(given)
    ensures SearchAnswer(SquashSpaces(response)).None? ==> given == Trim(response)
  {
    var t := SquashSpaces(response);
    match SearchAnswer(t)
    case Some(span) => Trim(t[span.start..span.end])
    case None => Trim(response)
  }

  /**
   * Against the regex itself: when `re.search` matches the squashed response, the given answer is its
   * group stripped; when it matches nothing, the whole response stripped.
   */
  lemma GivenAnswerIsRegexGroup(response: string)
    ensures var t := SquashSpaces(response);
            forall p, q :: RegexSearchFinds(t, p, q) ==> GivenAnswer(response) == Trim(t[p + |AnswerOpen|..q])
    ensures (forall p, q :: !GroupMatch(SquashSpaces(response), p, q)) ==> GivenAnswer(response) == Trim(response)
  {
    var t := SquashSpaces(response);
    SearchIsRegexSearch(t);
    forall p, q | RegexSearchFinds(t, p, q) ensures GivenAnswer(response) == Trim(t[p + |AnswerOpen|..q]) {
      assert SearchAnswer(t).Some?;
      var span := SearchAnswer(t).value;
      RegexSearchUnique(t, p, q, span.start - |AnswerOpen|, span.end);
      assert t[span.start..span.end] == t[p + |AnswerOpen|..q];
    }
  }

  /** `accuracy_reward`: 1.0 iff `grade_answer` accepts the given answer against the stripped ground truth. */
  function AccuracyReward(response: string, groundTruth: Value, grade: GradeAnswer): (r: real)
    ensures r == 0.0 || r == 1.0
    ensures r == 1.0 <==> groundTruth.Str? && grade(GivenAnswer(response), Trim(groundTruth.text)) == Accept
  {
    // A ground truth that is not a `str` is taken to raise at `strip()` (as `None`, numbers and lists do);
    // the error is swallowed.
    if !groundTruth.Str? then 0.0
    else if grade(GivenAnswer(response), Trim(groundTruth.text)) == Accept then 1.0
    else 0.0
  }

  /** A response made of one tagged answer, with nothing to delete, is graded on that answer stripped. */
  lemma GivenAnswerOfTagged(y: string)
    requires '\n' !in y && ' ' !in y
    requires forall k :: !OccursAt(y, AnswerClose, k)
    ensures GivenAnswer(AnswerOpen + y + AnswerClose) == Trim(y)
  {
    var s := AnswerOpen + y + AnswerClose;
    TaggedHasNoSpaces(y);
    SquashSpacesAbsent(s);
    TaggedSearch(y);
    assert s[8..8 + |y|] == y;
  }

  lemma TaggedHasNoSpaces(y: string)
    requires '\n' !in y && ' ' !in y
    ensures var s := AnswerOpen + y + AnswerClose; '\n' !in s && ' ' !in s
  {
    var s := AnswerOpen + y + AnswerClose;
    forall i | 0 <= i < |s| ensures s[i] != '\n' && s[i] != ' ' {
      if i < 8 {
        assert s[i] == AnswerOpen[i];
      } else if i < 8 + |y| {
        assert s[i] == y[i - 8];
      } else {
        assert s[i] == AnswerClose[i - 8 - |y|];
      }
    }
  }

  /** The search finds the opening tag at the front and the closing tag at the back. */
  lemma TaggedSearch(y: string)
    requires forall k :: !OccursAt(y, AnswerClose, k)
    ensures SearchAnswer(AnswerOpen + y + AnswerClose) == Some(Span(8, 8 + |y|))
  {
    var s := AnswerOpen + y + AnswerClose;
    NoCloseInside(y);
    assert OccursAt(s, AnswerOpen, 0) by {
      assert s[..8] == AnswerOpen;
    }
    assert OccursAt(s, AnswerClose, 8 + |y|) by {
      assert s[8 + |y|..] == AnswerClose;
    }
  }

  lemma SquashSpacesAbsent(s: string)
    requires '\n' !in s && ' ' !in s
    ensures SquashSpaces(s) == s
  {
    DeleteCharAbsent(s, '\n');
    DeleteCharAbsent(s, ' ');
  }

  /** `</answer>` cannot start inside `y`: not wholly inside it, and not straddling into the closing tag. */
  lemma NoCloseInside(y: string)
    requires forall k :: !OccursAt(y, AnswerClose, k)
    ensures forall q :: 8 <= q < 8 + |y| ==> !OccursAt(AnswerOpen + y + AnswerClose, AnswerClose, q)
  {
    var s := AnswerOpen + y + AnswerClose;
    forall q | 8 <= q < 8 + |y| ensures !OccursAt(s, AnswerClose, q) {
      if q + 9 <= 8 + |y| {
        assert s[q..q + 9] == y[q - 8..q + 1];
        assert !OccursAt(y, AnswerClose, q - 8);
      } else if q + 9 <= |s| {
        var d := 8 + |y| - q;
        assert s[8 + |y|] == AnswerClose[0];
        assert s[q..q + 9][d] == s[8 + |y|];
        assert '<' !in AnswerClose[1..];
        assert AnswerClose[d] == AnswerClose[1..][d - 1];
      }
    }
  }

  /** Without a `<` there is no tag to find: the whole response, stripped, is graded. */
  lemma GivenAnswerUntagged(response: string)
    requires '<' !in response
    ensures GivenAnswer(response) == Trim(response)
  {
    var t := SquashSpaces(response);
    assert '<' !in t;
    forall k | 0 <= k && k + 8 <= |t| ensures !OccursAt(t, AnswerOpen, k) {
      assert t[k..k + 8][0] == t[k] && t[k] in t;
    }
    assert SearchAnswer(t).None?;
  }

  /**
   * The loop of `sqa_accuracy_reward` over the tokens: 1.0 at the first accepted token, 0.0 when the
   * grading of a token raises first or every token is rejected.
   */
  function FirstAccepted(tokens: seq<string>, target: string, grade: GradeAnswer): (r: real)
    ensures r == 0.0 || r == 1.0
    ensures r == 1.0 <==> AcceptedBeforeAnyRaise(tokens, target, grade)
  {
    if tokens == [] then 0.0
    else match grade(tokens[0], target)
      case Accept => 1.0
      case Raises => 0.0
      case Reject =>
        RejectedHead(tokens, target, grade);
        FirstAccepted(tokens[1..], target, grade)
  }

  /** Some token is accepted and every token before it rejected (none raised). */
  ghost predicate AcceptedBeforeAnyRaise(tokens: seq<string>, target: string, grade: GradeAnswer)
  {
    exists k :: 0 <= k < |tokens| && grade(tokens[k], target) == Accept
              && forall j :: 0 <= j < k ==> grade(tokens[j], target) == Reject
  }

  lemma RejectedHead(tokens: seq<string>, target: string, grade: GradeAnswer)
    requires tokens != [] && grade(tokens[0], target) == Reject
    ensures AcceptedBeforeAnyRaise(tokens, target, grade) <==> AcceptedBeforeAnyRaise(tokens[1..], target, grade)
  {
    var rest := tokens[1..];
    if AcceptedBeforeAnyRaise(rest, target, grade) {
      var k :| 0 <= k < |rest| && grade(rest[k], target) == Accept
               && forall j :: 0 <= j < k ==> grade(rest[j], target) == Reject;
      assert grade(tokens[k + 1], target) == Accept;
      forall j | 0 <= j < k + 1 ensures grade(tokens[j], target) == Reject {
        if j > 0 { assert tokens[j] == rest[j - 1]; }
      }
    }
    if AcceptedBeforeAnyRaise(tokens, target, grade) {
      var k :| 0 <= k < |tokens| && grade(tokens[k], target) == Accept
               && forall j :: 0 <= j < k ==> grade(tokens[j], target) == Reject;
      assert k > 0;
      assert grade(rest[k - 1], target) == Accept;
      forall j | 0 <= j < k - 1 ensures grade(rest[j], target) == Reject {
        assert rest[j] == tokens[j + 1];
      }
    }
  }

  /** When grading never raises, a single accepted token is enough. */
  lemma FirstAcceptedAny(tokens: seq<string>, target: string, grade: GradeAnswer)
    requires forall k :: 0 <= k < |tokens| ==> grade(tokens[k], target) != Raises
    ensures FirstAccepted(tokens, target, grade) == 1.0 <==>
              exists k :: 0 <= k < |tokens| && grade(tokens[k], target) == Accept
  {
    if exists k :: 0 <= k < |tokens| && grade(tokens[k], target) == Accept {
      var k :| 0 <= k < |tokens| && grade(tokens[k], target) == Accept;
      var m := FirstAcceptIndex(tokens, target, grade, k);
    }
  }

  /** The least index `grade_answer` accepts, given one index it accepts. */
  lemma {:induction false} FirstAcceptIndex(tokens: seq<string>, target: string, grade: GradeAnswer, k: nat)
    returns (m: nat)
    requires forall i :: 0 <= i < |tokens| ==> grade(tokens[i], target) != Raises
    requires k < |tokens| && grade(tokens[k], target) == Accept
    ensures m <= k && grade(tokens[m], target) == Accept
    ensures forall j :: 0 <= j < m ==> grade(tokens[j], target) == Reject
    decreases k
  {
    if exists j :: 0 <= j < k && grade(tokens[j], target) == Accept {
      var j :| 0 <= j < k && grade(tokens[j], target) == Accept;
      m := FirstAcceptIndex(tokens, target, grade, j);
    } else {
      m := k;
    }
  }

  /** The tokens `sqa_accuracy_reward` grades, or `None` when the response has no tagged answer. */
  function AnswerTokens(response: string): (tokens: Option<seq<string>>)
    ensures tokens.None? <==> SearchAnswer(SquashSpaces(response)).None?
    ensures tokens.Some? ==> forall k :: 0 <= k < |tokens.value| ==> IsToken(tokens.value[k])
  {
    var t := SquashSpaces(response);
    match SearchAnswer(t)
    case None => None
    case Some(span) => Some(Tokenize(Trim(t[span.start..span.end])))
  }

  /**
   * Against the regex itself: when `re.search` matches the squashed response, the tokens are those of
   * its group stripped; when it matches nothing there are no tokens.
   */
  lemma AnswerTokensIsRegexGroup(response: string)
    ensures var t := SquashSpaces(response);
            forall p, q :: RegexSearchFinds(t, p, q) ==> AnswerTokens(response) == Some(Tokenize(Trim(t[p + |AnswerOpen|..q])))
    ensures (forall p, q :: !GroupMatch(SquashSpaces(response), p, q)) ==> AnswerTokens(response).None?
  {
    var t := SquashSpaces(response);
    SearchIsRegexSearch(t);
    forall p, q | RegexSearchFinds(t, p, q)
      ensures AnswerTokens(response) == Some(Tokenize(Trim(t[p + |AnswerOpen|..q])))
    {
      assert SearchAnswer(t).Some?;
      var span := SearchAnswer(t).value;
      RegexSearchUnique(t, p, q, span.start - |AnswerOpen|, span.end);
      assert t[span.start..span.end] == t[p + |AnswerOpen|..q];
    }
  }

  /** A tagged answer without `<` inside is the text tokenised: its spaces and line breaks deleted, then stripped. */
  lemma AnswerTokensOfTagged(y: string)
    requires '<' !in y
    ensures AnswerTokens(AnswerOpen + y + AnswerClose) == Some(Tokenize(Trim(SquashSpaces(y))))
  {
    var y' := SquashSpaces(y);
    SquashSpacesOfTagged(y);
    forall k ensures !OccursAt(y', AnswerClose, k) {
      if 0 <= k && k + 9 <= |y'| {
        assert y'[k..k + 9][0] == y'[k] && y'[k] in y';
      }
    }
    TaggedSearch(y');
    assert (AnswerOpen + y' + AnswerClose)[8..8 + |y'|] == y';
  }

  /** Deleting spaces and line breaks leaves the tags alone. */
  lemma SquashSpacesOfTagged(y: string)
    ensures SquashSpaces(AnswerOpen + y + AnswerClose) == AnswerOpen + SquashSpaces(y) + AnswerClose
  {
    DeleteCharTagged(y, '\n');
    DeleteCharTagged(DeleteChar(y, '\n'), ' ');
  }

  lemma DeleteCharTagged(y: string, c: char)
    requires c == '\n' || c == ' '
    ensures DeleteChar(AnswerOpen + y + AnswerClose, c) == AnswerOpen + DeleteChar(y, c) + AnswerClose
  {
    DeleteCharAppend(AnswerOpen + y, AnswerClose, c);
    DeleteCharAppend(AnswerOpen, y, c);
    DeleteCharAbsent(AnswerOpen, c);
    DeleteCharAbsent(AnswerClose, c);
  }

  /**
   * Spaces are deleted before splitting, so words run together: the tagged answer
   * `cat, dog and fish` yields the two tokens `cat` and `dogandfish`, and no token is `dog`.
   */
  lemma AnswerTokensRunTogether(y: string)
    requires y == "cat, dog and fish"
    ensures AnswerTokens(AnswerOpen + y + AnswerClose) == Some(["cat", "dogandfish"])
  {
    AnswerTokensOfTagged(y);
    var t := SquashExample(y);
    ExampleTrimmed(t);
    TokenizeWordsRunTogether(t);
  }

  lemma ExampleTrimmed(t: string)
    requires t == "cat,dogandfish"
    ensures Trim(t) == t
  {
    assert !IsSpace(t[0]) && !IsSpace(t[|t| - 1]);
    TrimOfTrimmed(t);
  }

  lemma SquashExample(y: string) returns (t: string)
    requires y == "cat, dog and fish"
    ensures t == "cat,dogandfish" && SquashSpaces(y) == t
  {
    ExampleWords(y);
    SquashWords("cat,", "dog", "and", "fish");
    ExampleJoined();
    t := "cat,dogandfish";
  }

  lemma ExampleWords(y: string)
    requires y == "cat, dog and fish"
    ensures y == "cat," + " " + "dog" + " " + "and" + " " + "fish"
  {
  }

  lemma ExampleJoined()
    ensures "cat," + "dog" + "and" + "fish" == "cat,dogandfish"
  {
  }

  /** Four words without spaces or line breaks, joined by single spaces, lose only those spaces. */
  lemma SquashWords(a: string, b: string, c: string, d: string)
    requires ' ' !in a + b + c + d && '\n' !in a + b + c + d
    ensures SquashSpaces(a + " " + b + " " + c + " " + d) == a + b + c + d
  {
    var ab := a + " " + b;
    var abc := ab + " " + c;
    var y := abc + " " + d;
    assert '\n' !in y by {
      assert forall x :: x in y ==> x == ' ' || x in a + b + c + d;
    }
    DeleteCharAbsent(y, '\n');
    SpaceJoined(abc, d);
    SpaceJoined(ab, c);
    SpaceJoined(a, b);
    assert a + b + c + d == ((a + b) + c) + d;
    assert ' ' !in a && ' ' !in b && ' ' !in c && ' ' !in d by {
      assert forall x :: x in a || x in b || x in c || x in d ==> x in a + b + c + d;
    }
    DeleteCharAbsent(a, ' ');
    DeleteCharAbsent(b, ' ');
    DeleteCharAbsent(c, ' ');
    DeleteCharAbsent(d, ' ');
  }

  lemma SpaceJoined(a: string, b: string)
    ensures DeleteChar(a + " " + b, ' ') == DeleteChar(a, ' ') + DeleteChar(b, ' ')
  {
    DeleteCharAppend(a + " ", b, ' ');
    DeleteCharAppend(a, " ", ' ');
  }

  /** `sqa_accuracy_reward`: token matching, with no fallback to the untagged response. */
  function SqaAccuracyReward(response: string, groundTruth: Value, grade: GradeAnswer): (r: real)
    ensures r == 0.0 || r == 1.0
    ensures AnswerTokens(response).None? ==> r == 0.0
    ensures r == 1.0 <==>
              && AnswerTokens(response).Some? && groundTruth.Str?
              && AcceptedBeforeAnyRaise(AnswerTokens(response).value, Trim(groundTruth.text), grade)
  {
    match AnswerTokens(response)
    case None => 0.0
    case Some(tokens) =>
      // A ground truth that is not a `str` is taken to raise at `strip()` (as `None`, numbers and lists do);
      // the error is swallowed.
      if !groundTruth.Str? then 0.0
      else FirstAccepted(tokens, Trim(groundTruth.text), grade)
  }

  /** The two sub-scores weighted into one: `(1 - w) * accuracy + w * format`. */
  function Combine(format: real, accuracy: real, formatWeight: real): (s: Scores)
    ensures s.format == format && s.accuracy == accuracy
    ensures ((format == 0.0 || format == 1.0) && (accuracy == 0.0 || accuracy == 1.0) && 0.0 <= formatWeight <= 1.0)
              ==> 0.0 <= s.overall <= 1.0
    ensures accuracy == format ==> s.overall == accuracy
    ensures 0.0 <= formatWeight <= 1.0 && accuracy <= format ==> accuracy <= s.overall <= format
    ensures 0.0 <= formatWeight <= 1.0 && format <= accuracy ==> format <= s.overall <= accuracy
  {
    var overall := Weighted(formatWeight, accuracy, format);
    if 0.0 <= formatWeight <= 1.0 then
      WeightedBetween(formatWeight, accuracy, format);
      Scores(overall, format, accuracy)
    else
      Scores(overall, format, accuracy)
  }

  /** Below full format weight, a better accuracy at the same format score strictly raises the overall score. */
  lemma CombineAccuracyMonotone(format: real, a1: real, a2: real, formatWeight: real)
    requires formatWeight < 1.0 && a1 < a2
    ensures Combine(format, a1, formatWeight).overall < Combine(format, a2, formatWeight).overall
  {
    WeightedIncreasesInFirst(formatWeight, a1, a2, format);
  }

  /** Above zero format weight, a better format score at the same accuracy strictly raises the overall score. */
  lemma CombineFormatMonotone(f1: real, f2: real, accuracy: real, formatWeight: real)
    requires formatWeight > 0.0 && f1 < f2
    ensures Combine(f1, accuracy, formatWeight).overall < Combine(f2, accuracy, formatWeight).overall
  {
    WeightedIncreasesInSecond(formatWeight, accuracy, f1, f2);
  }

  /** The checks both entry points make, in order, before scoring: the response, then the ground truth. */
  function ScoringArguments(input: RewardInput): (r: Result<(string, Value), ScoreError>)
    ensures input.NotMapping? ==> r == Err(NotAMapping)
    ensures r.Ok? <==> input.Mapping? && "response" in input.fields && input.fields["response"].Str?
                       && "ground_truth" in input.fields
    ensures r.Ok? ==> r.value == (input.fields["response"].text, input.fields["ground_truth"])
    ensures input.Mapping? && "response" !in input.fields ==> r == Err(MissingKey("response"))
    ensures (input.Mapping? && "response" in input.fields && !input.fields["response"].Str?)
            ==> r == Err(ResponseNotString)
    ensures (input.Mapping? && "response" in input.fields && input.fields["response"].Str?
             && "ground_truth" !in input.fields)
            ==> r == Err(MissingKey("ground_truth"))
  {
    if input.NotMapping? then Err(NotAMapping)
    else if "response" !in input.fields then Err(MissingKey("response"))
    else if !input.fields["response"].Str? then Err(ResponseNotString)
    else if "ground_truth" !in input.fields then Err(MissingKey("ground_truth"))
    else Ok((input.fields["response"].text, input.fields["ground_truth"]))
  }

  /** `compute_score`: the format score and the exact-extraction accuracy, combined. */
  function ComputeScore(input: RewardInput, formatWeight: real, grade: GradeAnswer): (r: Result<Scores, ScoreError>)
    ensures input.NotMapping? ==> r == Err(NotAMapping)
    ensures r.Ok? <==> ScoringArguments(input).Ok?
    ensures r.Ok? ==> var (response, groundTruth) := ScoringArguments(input).value;
                      && r.value.format == FormatReward(response)
                      && r.value.accuracy == AccuracyReward(response, groundTruth, grade)
    ensures r.Ok? ==> r.value.overall == Weighted(formatWeight, r.value.accuracy, r.value.format)
    ensures r.Ok? && 0.0 <= formatWeight <= 1.0 ==> 0.0 <= r.value.overall <= 1.0
    ensures r.Err? ==> r == Err(ScoringArguments(input).error)
  {
    match ScoringArguments(input)
    case Err(e) => Err(e)
    case Ok((response, groundTruth)) =>
      var format := FormatReward(response);
      var accuracy := AccuracyReward(response, groundTruth, grade);
      Ok(Combine(format, accuracy, formatWeight))
  }

  /** `sqa_compute_score`: the format score and the token-matching accuracy, combined. */
  function SqaComputeScore(input: RewardInput, formatWeight: real, grade: GradeAnswer): (r: Result<Scores, ScoreError>)
    ensures input.NotMapping? ==> r == Err(NotAMapping)
    ensures r.Ok? <==> ScoringArguments(input).Ok?
    ensures r.Ok? ==> var (response, groundTruth) := ScoringArguments(input).value;
                      && r.value.format == FormatReward(response)
                      && r.value.accuracy == SqaAccuracyReward(response, groundTruth, grade)
    ensures r.Ok? ==> r.value.overall == Weighted(formatWeight, r.value.accuracy, r.value.format)
    ensures r.Ok? && 0.0 <= formatWeight <= 1.0 ==> 0.0 <= r.value.overall <= 1.0
    ensures r.Err? ==> r == Err(ScoringArguments(input).error)
  {
    match ScoringArguments(input)
    case Err(e) => Err(e)
    case Ok((response, groundTruth)) =>
      var format := FormatReward(response);
      var accuracy := SqaAccuracyReward(response, groundTruth, grade);
      Ok(Combine(format, accuracy, formatWeight))
  }

  /** Under the default weight a correct answer in the right format scores 1.0, a correct one without it 0.9. */
  lemma DefaultWeighting()
    ensures Combine(1.0, 1.0, DefaultFormatWeight).overall == 1.0
    ensures Combine(0.0, 1.0, DefaultFormatWeight).overall == 0.9
    ensures Combine(1.0, 0.0, DefaultFormatWeight).overall == 0.1
  {
  }
}
