/**
 * The tag grammar of model responses (examples/reward_function/r1v.py):
 * the full-match format pattern `<think>.*?</think>\s*<answer>.*?</answer>` (with `.` matching
 * newlines) and the search `<answer>(.*?)</answer>` that extracts the answer text.
 */
module Tags {
  import opened Wrappers
  import opened Text

  const ThinkOpen: string := "<think>"
  const ThinkClose: string := "</think>"
  const AnswerOpen: string := "<answer>"
  const AnswerClose: string := "</answer>"

  /** A response of the required shape: a thought, a whitespace gap, an answer. */
  datatype Tagged = Tagged(thought: string, gap: string, answer: string) {
    predicate Valid()
    {
      AllSpace(gap)
    }

    function Render(): string
    {
      ThinkOpen + thought + ThinkClose + gap + AnswerOpen + answer + AnswerClose
    }
  }

  /** The language of the format pattern: the whole string is some valid `Tagged` rendered. */
  ghost predicate InFormatLanguage(s: string)
  {
    exists t: Tagged :: t.Valid() && t.Render() == s
  }

  /** Greedy `\s*` from index `i`: the end of the maximal whitespace run starting there. */
  function SkipSpace(s: string, i: nat): (k: nat)
    requires i <= |s|
    ensures i <= k <= |s|
    ensures AllSpace(s[i..k])
    ensures k == |s| || !IsSpace(s[k])
    decreases |s| - i
  {
    if i < |s| && IsSpace(s[i]) then
      var k := SkipSpace(s, i + 1);
      assert s[i..k] == [s[i]] + s[i + 1..k];
      k
    else
      i
  }

  /** The maximal whitespace run is the only one that can be followed by a non-space character. */
  lemma {:induction false} SkipSpaceOfRun(s: string, i: nat, m: nat)
    requires i <= m <= |s| && AllSpace(s[i..m])
    requires m == |s| || !IsSpace(s[m])
    ensures SkipSpace(s, i) == m
    decreases m - i
  {
    if i < m {
      assert s[i] == s[i..m][0];
      assert s[i + 1..m] == s[i..m][1..];
      SkipSpaceOfRun(s, i + 1, m);
    }
  }

  /**
   * The pattern after the thought, tried with the thought ending at `i`: `</think>` there, the greedy
   * `\s*`, `<answer>`, and a lazy `.*?</answer>` that must end the string.
   */
  predicate TailMatches(s: string, i: nat)
  {
    OccursAt(s, ThinkClose, i) && AnswerFrom(s, SkipSpace(s, i + |ThinkClose|))
  }

  /** The rest of the pattern from index `k`: `<answer>` there, then a lazy `.*?</answer>` that must end the string. */
  predicate AnswerFrom(s: string, k: nat)
  {
    OccursAt(s, AnswerOpen, k) && k + |AnswerOpen| + |AnswerClose| <= |s| && EndsWith(s, AnswerClose)
  }

  /** The backtracking over the lazy thought `.*?`: each candidate end from `i` rightwards. */
  predicate ScanFrom(s: string, i: nat)
    decreases |s| - i
  {
    if i + |ThinkClose| > |s| then false
    else TailMatches(s, i) || ScanFrom(s, i + 1)
  }

  /** `re.fullmatch(pattern, s)` succeeds. */
  predicate FormatAccepts(s: string)
  {
    StartsWith(s, ThinkOpen) && ScanFrom(s, |ThinkOpen|)
  }

  lemma {:induction false} ScanFindsWitness(s: string, i: nat) returns (j: nat)
    requires ScanFrom(s, i)
    ensures i <= j && TailMatches(s, j)
    decreases |s| - i
  {
    if TailMatches(s, i) {
      j := i;
    } else {
      j := ScanFindsWitness(s, i + 1);
    }
  }

  lemma {:induction false} ScanReaches(s: string, i: nat, j: nat)
    requires i <= j && TailMatches(s, j)
    ensures ScanFrom(s, i)
    decreases j - i
  {
    if i < j {
      ScanReaches(s, i + 1, j);
    }
  }

  /** Cutting `s` at the four tag positions gives back the parts of a `Tagged`. */
  lemma Reassemble(s: string, j: nat, k: nat)
    requires |ThinkOpen| <= j && j + |ThinkClose| <= k && k + |AnswerOpen| + |AnswerClose| <= |s|
    requires s[..|ThinkOpen|] == ThinkOpen && s[j..j + |ThinkClose|] == ThinkClose
    requires s[k..k + |AnswerOpen|] == AnswerOpen && s[|s| - |AnswerClose|..] == AnswerClose
    ensures Tagged(s[|ThinkOpen|..j], s[j + |ThinkClose|..k], s[k + |AnswerOpen|..|s| - |AnswerClose|]).Render() == s
  {
    assert |ThinkOpen| == 7 && |ThinkClose| == 8 && |AnswerOpen| == 8 && |AnswerClose| == 9;
    SevenParts(s, 7, j, j + 8, k, k + 8, |s| - 9);
  }

  /** `s` cut at six ascending positions is the concatenation of the seven slices. */
  lemma SevenParts(s: string, a: nat, b: nat, c: nat, d: nat, e: nat, f: nat)
    requires a <= b <= c <= d <= e <= f <= |s|
    ensures s == s[..a] + s[a..b] + s[b..c] + s[c..d] + s[d..e] + s[e..f] + s[f..]
  {
    PrefixExtends(s, a, b);
    PrefixExtends(s, b, c);
    PrefixExtends(s, c, d);
    PrefixExtends(s, d, e);
    PrefixExtends(s, e, f);
    PrefixExtends(s, f, |s|);
  }

  /** A longer prefix is the shorter one followed by the slice between them. */
  lemma PrefixExtends(s: string, i: nat, j: nat)
    requires i <= j <= |s|
    ensures s[..j] == s[..i] + s[i..j]
  {
  }

  /** Where the gap of a tail match ends, and the tags around it. */
  lemma TailParts(s: string, j: nat) returns (k: nat)
    requires TailMatches(s, j)
    ensures k == SkipSpace(s, j + |ThinkClose|)
    ensures j + |ThinkClose| <= k && k + |AnswerOpen| + |AnswerClose| <= |s|
    ensures s[j..j + |ThinkClose|] == ThinkClose && s[k..k + |AnswerOpen|] == AnswerOpen
    ensures s[|s| - |AnswerClose|..] == AnswerClose
    ensures AllSpace(s[j + |ThinkClose|..k])
  {
    k := SkipSpace(s, j + |ThinkClose|);
    assert AnswerFrom(s, k);
  }

  /** Every accepted response splits into thought, whitespace gap and answer. */
  lemma FormatSound(s: string)
    requires FormatAccepts(s)
    ensures InFormatLanguage(s)
  {
    var j := ScanFindsWitness(s, |ThinkOpen|);
    var k := TailParts(s, j);
    assert s[..|ThinkOpen|] == ThinkOpen;
    Reassemble(s, j, k);
    RenderedInLanguage(Tagged(s[|ThinkOpen|..j], s[j + |ThinkClose|..k], s[k + |AnswerOpen|..|s| - |AnswerClose|]));
  }

  lemma RenderedInLanguage(t: Tagged)
    requires t.Valid()
    ensures InFormatLanguage(t.Render())
  {
  }

  /** Every valid thought/gap/answer triple renders to an accepted response. */
  lemma FormatComplete(t: Tagged)
    requires t.Valid()
    ensures FormatAccepts(t.Render())
  {
    var s := t.Render();
    var j := 7 + |t.thought|;
    var m := j + 8 + |t.gap|;
    assert s[..7] == ThinkOpen;
    assert s[j..j + 8] == ThinkClose;
    assert s[j + 8..m] == t.gap;
    assert s[m..m + 8] == AnswerOpen;
    assert s[|s| - 9..] == AnswerClose;
    SkipSpaceOfRun(s, j + 8, m);
    assert TailMatches(s, j);
    ScanReaches(s, 7, j);
  }

  lemma FormatRejectsOutside(s: string)
    requires !FormatAccepts(s)
    ensures !InFormatLanguage(s)
  {
    forall t: Tagged | t.Valid() ensures t.Render() != s {
      FormatComplete(t);
    }
  }

  /** `format_reward`: 1.0 exactly when the whole response is in the format language, else 0.0. */
  function FormatReward(s: string): (r: real)
    ensures r == 1.0 <==> InFormatLanguage(s)
    ensures r == 0.0 <==> !InFormatLanguage(s)
  {
    if FormatAccepts(s) then
      FormatSound(s);
      1.0
    else
      FormatRejectsOutside(s);
      0.0
  }

  /** The match is anchored at both ends: a rewarded response starts with `<think>` and ends with `</answer>`. */
  lemma FormatAnchored(s: string)
    requires FormatReward(s) == 1.0
    ensures StartsWith(s, ThinkOpen) && EndsWith(s, AnswerClose)
  {
    var t: Tagged :| t.Valid() && t.Render() == s;
    assert s[..7] == ThinkOpen;
    assert s[|s| - 9..] == AnswerClose;
  }

  /** A leading character other than `<`, or a trailing one other than `>`, costs the format reward. */
  lemma FormatRejectsStrayEnds(s: string, c: char)
    ensures c != '<' ==> FormatReward([c] + s) == 0.0
    ensures c != '>' ==> FormatReward(s + [c]) == 0.0
  {
    if FormatReward([c] + s) == 1.0 {
      FormatAnchored([c] + s);
      assert ([c] + s)[0] == c;
    }
    if FormatReward(s + [c]) == 1.0 {
      FormatAnchored(s + [c]);
      assert (s + [c])[|s + [c]| - 1] == c;
    }
  }

  /** Where the search placed the captured group: `group(1)` is `t[start..end]`. */
  datatype Span = Span(start: nat, end: nat)

  /**
   * `re.search(r"<answer>(.*?)</answer>", t)`, computed as: the first `<answer>`, then the first
   * `</answer>` after it.
   */
  function SearchAnswer(t: string): (r: Option<Span>)
    ensures r.Some? ==> |AnswerOpen| <= r.value.start <= r.value.end
    ensures r.Some? ==> OccursAt(t, AnswerOpen, r.value.start - |AnswerOpen|)
    ensures r.Some? ==> OccursAt(t, AnswerClose, r.value.end)
    ensures r.Some? ==> forall k :: 0 <= k < r.value.start - |AnswerOpen| ==> !OccursAt(t, AnswerOpen, k)
    ensures r.Some? ==> forall k :: r.value.start <= k < r.value.end ==> !OccursAt(t, AnswerClose, k)
    ensures r.None? ==> forall p, q ::
              !(OccursAt(t, AnswerOpen, p) && p + |AnswerOpen| <= q && OccursAt(t, AnswerClose, q))
  {
    match IndexFrom(t, AnswerOpen, 0)
    case None => None
    case Some(p) =>
      match IndexFrom(t, AnswerClose, p + |AnswerOpen|)
      case None => None
      case Some(q) => Some(Span(p + |AnswerOpen|, q))
  }

  /** A match of the search pattern starting at `p` whose group ends at `q` (`.` does not match a newline). */
  ghost predicate GroupMatch(t: string, p: int, q: int)
  {
    && OccursAt(t, AnswerOpen, p)
    && p + |AnswerOpen| <= q
    && OccursAt(t, AnswerClose, q)
    && forall k :: p + |AnswerOpen| <= k < q ==> t[k] != '\n'
  }

  /** What `re.search` reports: the leftmost start, and from there the shortest (lazy) group. */
  ghost predicate RegexSearchFinds(t: string, p: int, q: int)
  {
    && GroupMatch(t, p, q)
    && (forall p', q' :: p' < p ==> !GroupMatch(t, p', q'))
    && (forall q' :: q' < q ==> !GroupMatch(t, p, q'))
  }

  /**
   * On newline-free text (the only text the scorers search) first-occurrence extraction is exactly
   * the regex search: it finds the leftmost, lazily shortest match, and reports none only if none exists.
   */
  lemma SearchIsRegexSearch(t: string)
    requires '\n' !in t
    ensures SearchAnswer(t).Some? ==>
              RegexSearchFinds(t, SearchAnswer(t).value.start - |AnswerOpen|, SearchAnswer(t).value.end)
    ensures SearchAnswer(t).None? ==> forall p, q :: !GroupMatch(t, p, q)
  {
    if SearchAnswer(t).Some? {
      var sp := SearchAnswer(t).value;
      var p := sp.start - 8;
      forall k | p + 8 <= k < sp.end ensures t[k] != '\n' {
        assert t[k] in t;
      }
      assert GroupMatch(t, p, sp.end);
    }
  }

  /** The search reports at most one match: the leftmost start and the shortest group are unique. */
  lemma RegexSearchUnique(t: string, p: int, q: int, p2: int, q2: int)
    requires RegexSearchFinds(t, p, q) && RegexSearchFinds(t, p2, q2)
    ensures p == p2 && q == q2
  {
  }
}
