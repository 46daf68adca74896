/** Python `str` operations used by the scripts, on strings as sequences of code points. */
module Text {
  import opened Wrappers

  /** Python's `str.isspace()`: the characters `str.strip()` removes and the regex class `\s` matches. */
  predicate IsSpace(c: char)
  {
    || c == ' '
    || ('\t' <= c <= '\r')
    || ('\U{1C}' <= c <= '\U{1F}')
    || c == '\U{85}' || c == '\U{A0}' || c == '\U{1680}'
    || ('\U{2000}' <= c <= '\U{200A}')
    || c == '\U{2028}' || c == '\U{2029}' || c == '\U{202F}' || c == '\U{205F}' || c == '\U{3000}'
  }

  predicate AllSpace(s: string)
  {
    forall i :: 0 <= i < |s| ==> IsSpace(s[i])
  }

  /** Neither end of `s` is a whitespace character: what `str.strip()` returns. */
  predicate Trimmed(s: string)
  {
    s == [] || (!IsSpace(s[0]) && !IsSpace(s[|s| - 1]))
  }

  /** Number of whitespace characters at the front of `s`: what `str.lstrip()` removes. */
  function LeadLength(s: string): (n: nat)
    ensures n <= |s|
    ensures forall i :: 0 <= i < n ==> IsSpace(s[i])
    ensures n < |s| ==> !IsSpace(s[n])
  {
    if |s| > 0 && IsSpace(s[0]) then
      var m := LeadLength(s[1..]);
      assert forall i :: 1 <= i < m + 1 ==> s[i] == s[1..][i - 1];
      m + 1
    else
      0
  }

  /** Number of whitespace characters at the back of `s`: what `str.rstrip()` removes. */
  function TailLength(s: string): (n: nat)
    ensures n <= |s|
    ensures forall i :: |s| - n <= i < |s| ==> IsSpace(s[i])
    ensures n < |s| ==> !IsSpace(s[|s| - n - 1])
  {
    if |s| > 0 && IsSpace(s[|s| - 1]) then
      var m := TailLength(s[..|s| - 1]);
      assert forall i :: |s| - 1 - m <= i < |s| - 1 ==> s[i] == s[..|s| - 1][i];
      m + 1
    else
      0
  }

  /** A run of `n` whitespace characters ended by a non-whitespace character (or the end) is the whole lead. */
  lemma LeadLengthIs(s: string, n: nat)
    requires n <= |s| && (forall i :: 0 <= i < n ==> IsSpace(s[i])) && (n < |s| ==> !IsSpace(s[n]))
    ensures LeadLength(s) == n
  {
  }

  lemma TailLengthIs(s: string, n: nat)
    requires n <= |s| && (forall i :: |s| - n <= i < |s| ==> IsSpace(s[i])) && (n < |s| ==> !IsSpace(s[|s| - n - 1]))
    ensures TailLength(s) == n
  {
  }

  /**
   * `str.strip()`: `s` with whitespace removed from both ends. What remains is a contiguous slice of
   * `s` starting after the leading whitespace, and every character outside it is whitespace.
   */
  function Trim(s: string): (r: string)
    ensures Trimmed(r)
    ensures LeadLength(s) + |r| <= |s| && r == s[LeadLength(s)..LeadLength(s) + |r|]
    ensures forall i :: 0 <= i < |s| && !(LeadLength(s) <= i < LeadLength(s) + |r|) ==> IsSpace(s[i])
  {
    var lead := LeadLength(s);
    if lead == |s| then
      []
    else
      var tail := TailLength(s);
      assert tail < |s| - lead by {
        assert !IsSpace(s[lead]);
      }
      s[lead..|s| - tail]
  }

  /** Whitespace on either side is exactly what `Trim` removes: the only trimmed core of `w1 + x + w2` is `x`. */
  lemma TrimOfPadded(w1: string, x: string, w2: string)
    requires AllSpace(w1) && AllSpace(w2) && Trimmed(x)
    ensures Trim(w1 + x + w2) == x
  {
    var s := w1 + x + w2;
    if x == [] {
      forall i | 0 <= i < |s| ensures IsSpace(s[i]) {
        if i < |w1| {
          assert s[i] == w1[i];
        } else {
          assert s[i] == w2[i - |w1|];
        }
      }
      LeadLengthIs(s, |s|);
    } else {
      forall i | 0 <= i < |w1| ensures IsSpace(s[i]) {
        assert s[i] == w1[i];
      }
      assert s[|w1|] == x[0];
      LeadLengthIs(s, |w1|);
      forall i | |s| - |w2| <= i < |s| ensures IsSpace(s[i]) {
        assert s[i] == w2[i - |w1| - |x|];
      }
      assert s[|s| - |w2| - 1] == x[|x| - 1];
      TailLengthIs(s, |w2|);
      assert s[|w1|..|s| - |w2|] == x;
    }
  }

  /** A string with no whitespace at either end is left alone by `Trim`. */
  lemma TrimOfTrimmed(x: string)
    requires Trimmed(x)
    ensures Trim(x) == x
  {
    LeadLengthIs(x, 0);
    if x != [] {
      TailLengthIs(x, 0);
      assert x[0..|x|] == x;
    }
  }

  /** `str.strip()` is idempotent. */
  lemma TrimIdempotent(s: string)
    ensures Trim(Trim(s)) == Trim(s)
  {
    TrimOfTrimmed(Trim(s));
  }

  predicate StartsWith(s: string, prefix: string)
  {
    |prefix| <= |s| && s[..|prefix|] == prefix
  }

  predicate EndsWith(s: string, suffix: string)
  {
    |suffix| <= |s| && s[|s| - |suffix|..] == suffix
  }

  /** `pat` occurs in `s` starting at index `i`. */
  predicate OccursAt(s: string, pat: string, i: int)
  {
    0 <= i && i + |pat| <= |s| && s[i..i + |pat|] == pat
  }

  /** `s.find(pat, start)`: the first index at or after `start` where `pat` occurs. */
  function IndexFrom(s: string, pat: string, start: nat): (r: Option<nat>)
    ensures r.Some? ==> start <= r.value && OccursAt(s, pat, r.value)
    ensures r.Some? ==> forall k :: start <= k < r.value ==> !OccursAt(s, pat, k)
    ensures r.None? ==> forall k :: start <= k ==> !OccursAt(s, pat, k)
    decreases |s| + 1 - start
  {
    if start + |pat| > |s| then None
    else if s[start..start + |pat|] == pat then Some(start)
    else IndexFrom(s, pat, start + 1)
  }

  /** `s.replace(str(c), "")`: every occurrence of `c` deleted, everything else kept in order. */
  function DeleteChar(s: string, c: char): (r: string)
    ensures c !in r
    ensures forall d :: d != c ==> (d in r <==> d in s)
    ensures |r| <= |s|
  {
    if s == [] then []
    else if s[0] == c then DeleteChar(s[1..], c)
    else [s[0]] + DeleteChar(s[1..], c)
  }

  lemma {:induction false} DeleteCharAppend(a: string, b: string, c: char)
    ensures DeleteChar(a + b, c) == DeleteChar(a, c) + DeleteChar(b, c)
  {
    if a == [] {
      assert a + b == b;
    } else {
      assert (a + b)[1..] == a[1..] + b;
      DeleteCharAppend(a[1..], b, c);
    }
  }

  /** A string without `c` is left unchanged by deleting `c`. */
  lemma {:induction false} DeleteCharAbsent(s: string, c: char)
    requires c !in s
    ensures DeleteChar(s, c) == s
  {
    if s != [] {
      DeleteCharAbsent(s[1..], c);
    }
  }

  /** `s.replace(pat, "")`: occurrences of `pat` deleted left to right without overlap. */
  function DeleteAll(s: string, pat: string): (r: string)
    ensures |r| <= |s|
    ensures forall c :: c in r ==> c in s
    ensures |pat| == 0 ==> r == s
    decreases |s|
  {
    if |pat| == 0 || s == [] then s
    else if StartsWith(s, pat) then DeleteAll(s[|pat|..], pat)
    else [s[0]] + DeleteAll(s[1..], pat)
  }

  /** A string in which `pat` never occurs is left unchanged by `DeleteAll`. */
  lemma {:induction false} DeleteAllAbsent(s: string, pat: string)
    requires forall k :: !OccursAt(s, pat, k)
    ensures DeleteAll(s, pat) == s
  {
    if |pat| != 0 && s != [] {
      assert !OccursAt(s, pat, 0);
      assert !StartsWith(s, pat);
      forall k ensures !OccursAt(s[1..], pat, k) {
        assert !OccursAt(s, pat, k + 1);
        if 0 <= k && k + |pat| <= |s| - 1 {
          assert s[1..][k..k + |pat|] == s[k + 1..k + 1 + |pat|];
        }
      }
      DeleteAllAbsent(s[1..], pat);
    }
  }

  /**
   * The leftmost occurrence is deleted first: when `pat` first occurs right after `a`, the result is
   * `a` followed by the deletion applied to what comes after that occurrence.
   */
  lemma {:induction false} DeleteAllFirst(a: string, pat: string, b: string)
    requires |pat| > 0
    requires forall k :: 0 <= k < |a| ==> !OccursAt(a + pat + b, pat, k)
    ensures DeleteAll(a + pat + b, pat) == a + DeleteAll(b, pat)
  {
    var s := a + pat + b;
    if a == [] {
      assert s == pat + b;
      assert s[..|pat|] == pat;
      assert s[|pat|..] == b;
    } else {
      assert !OccursAt(s, pat, 0);
      assert s[1..] == a[1..] + pat + b;
      NoOccurrenceInTail(s, pat, |a| - 1);
      DeleteAllFirst(a[1..], pat, b);
      assert a == [a[0]] + a[1..];
    }
  }

  /** Occurrences in `s[1..]` are the occurrences in `s` shifted by one. */
  lemma NoOccurrenceInTail(s: string, pat: string, n: nat)
    requires s != []
    requires forall k :: 1 <= k < n + 1 ==> !OccursAt(s, pat, k)
    ensures forall k :: 0 <= k < n ==> !OccursAt(s[1..], pat, k)
  {
    forall k | 0 <= k < n ensures !OccursAt(s[1..], pat, k) {
      assert !OccursAt(s, pat, k + 1);
      if k + |pat| <= |s| - 1 {
        assert s[1..][k..k + |pat|] == s[k + 1..k + 1 + |pat|];
      }
    }
  }

  /** `sep.join(parts)`. */
  function Join(parts: seq<string>, sep: string): (r: string)
    ensures parts == [] ==> r == []
    ensures |parts| == 1 ==> r == parts[0]
    ensures |parts| >= 1 ==> StartsWith(r, parts[0]) && EndsWith(r, parts[|parts| - 1])
  {
    if parts == [] then []
    else if |parts| == 1 then parts[0]
    else parts[0] + sep + Join(parts[1..], sep)
  }
}
