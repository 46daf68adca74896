/**
 * Tokenising of the extracted answer in `sqa_accuracy_reward` (examples/reward_function/r1v.py):
 * `re.split(r'[ .,:;]+', pred)` followed by `[t.strip() for t in tokens if t.strip()]`.
 */
module Tokens {
  import opened Text

  /** The character class `[ .,:;]`. */
  predicate IsSeparator(c: char)
  {
    c == ' ' || c == '.' || c == ',' || c == ':' || c == ';'
  }

  predicate SeparatorFree(s: string)
  {
    forall i :: 0 <= i < |s| ==> !IsSeparator(s[i])
  }

  /** `s` with every separator deleted, all other characters kept in order. */
  function DropSeparators(s: string): string
  {
    if s == [] then []
    else if IsSeparator(s[0]) then DropSeparators(s[1..])
    else [s[0]] + DropSeparators(s[1..])
  }

  lemma {:induction false} DropSeparatorsAppend(a: string, b: string)
    ensures DropSeparators(a + b) == DropSeparators(a) + DropSeparators(b)
  {
    if a != [] {
      assert (a + b)[1..] == a[1..] + b;
      DropSeparatorsAppend(a[1..], b);
    } else {
      assert a + b == b;
    }
  }

  lemma {:induction false} DropSeparatorsOfFree(s: string)
    requires SeparatorFree(s)
    ensures DropSeparators(s) == s
  {
    if s != [] {
      DropSeparatorsOfFree(s[1..]);
    }
  }

  lemma {:induction false} DropSeparatorsOfRun(s: string)
    requires forall i :: 0 <= i < |s| ==> IsSeparator(s[i])
    ensures DropSeparators(s) == []
  {
    if s != [] {
      DropSeparatorsOfRun(s[1..]);
    }
  }

  /** End of the separator-free stretch that starts at `i`. */
  function NextSeparator(s: string, i: nat): (e: nat)
    requires i <= |s|
    ensures i <= e <= |s|
    ensures SeparatorFree(s[i..e])
    ensures e == |s| || IsSeparator(s[e])
    decreases |s| - i
  {
    if i == |s| || IsSeparator(s[i]) then i
    else
      var e := NextSeparator(s, i + 1);
      assert s[i..e] == [s[i]] + s[i + 1..e];
      e
  }

  /** End of the separator run `[ .,:;]+` that starts at `i`. */
  function SkipSeparators(s: string, i: nat): (e: nat)
    requires i <= |s|
    ensures i <= e <= |s|
    ensures forall k :: i <= k < e ==> IsSeparator(s[k])
    ensures e == |s| || !IsSeparator(s[e])
    decreases |s| - i
  {
    if i < |s| && IsSeparator(s[i]) then SkipSeparators(s, i + 1) else i
  }

  /** The pieces `re.split` yields for `s[i..]`: the stretches between maximal separator runs. */
  function SplitFrom(s: string, i: nat): (pieces: seq<string>)
    requires i <= |s|
    ensures |pieces| > 0
    ensures forall k :: 0 <= k < |pieces| ==> SeparatorFree(pieces[k])
    decreases |s| - i
  {
    var e := NextSeparator(s, i);
    if e == |s| then [s[i..]]
    else [s[i..e]] + SplitFrom(s, SkipSeparators(s, e))
  }

  /** `re.split(r'[ .,:;]+', s)`. */
  function Split(s: string): (pieces: seq<string>)
  {
    SplitFrom(s, 0)
  }

  function Concat(parts: seq<string>): string
  {
    if parts == [] then [] else parts[0] + Concat(parts[1..])
  }

  /** Splitting loses nothing but the separators: the pieces, put together again, are `s` without them. */
  lemma {:induction false} SplitFromKeepsText(s: string, i: nat)
    requires i <= |s|
    ensures Concat(SplitFrom(s, i)) == DropSeparators(s[i..])
    decreases |s| - i
  {
    var e := NextSeparator(s, i);
    DropSeparatorsOfFree(s[i..e]);
    if e == |s| {
      assert s[i..e] == s[i..];
      assert SplitFrom(s, i) == [s[i..]];
      assert Concat([s[i..]]) == s[i..] + Concat([]);
    } else {
      var f := SkipSeparators(s, e);
      var rest := SplitFrom(s, f);
      assert SplitFrom(s, i) == [s[i..e]] + rest;
      SplitFromKeepsText(s, f);
      SeparatorRunVanishes(s, i, e, f);
      calc {
        Concat([s[i..e]] + rest);
        { assert ([s[i..e]] + rest)[1..] == rest; }
        s[i..e] + Concat(rest);
        DropSeparators(s[i..e]) + DropSeparators(s[f..]);
        DropSeparators(s[i..]);
      }
    }
  }

  lemma SeparatorRunVanishes(s: string, i: nat, e: nat, f: nat)
    requires i <= e <= f <= |s|
    requires forall k :: e <= k < f ==> IsSeparator(s[k])
    ensures DropSeparators(s[i..]) == DropSeparators(s[i..e]) + DropSeparators(s[f..])
  {
    DropSeparatorsOfRun(s[e..f]);
    assert s[i..] == s[i..e] + (s[e..f] + s[f..]);
    DropSeparatorsAppend(s[i..e], s[e..f] + s[f..]);
    DropSeparatorsAppend(s[e..f], s[f..]);
  }

  lemma SplitKeepsText(s: string)
    ensures Concat(Split(s)) == DropSeparators(s)
    ensures forall k :: 0 <= k < |Split(s)| ==> SeparatorFree(Split(s)[k])
  {
    SplitFromKeepsText(s, 0);
    assert s[0..] == s;
  }

  /** A maximal-match candidate of `[ .,:;]+`: a non-empty run of separators. */
  predicate SeparatorRun(r: string)
  {
    r != [] && forall k :: 0 <= k < |r| ==> IsSeparator(r[k])
  }

  /** `pieces[0] + runs[0] + pieces[1] + ... + runs[n - 1] + pieces[n]`. */
  function Interleave(pieces: seq<string>, runs: seq<string>): string
    requires |pieces| == |runs| + 1
    decreases |runs|
  {
    if runs == [] then pieces[0] else pieces[0] + runs[0] + Interleave(pieces[1..], runs[1..])
  }

  /**
   * What `re.split(r'[ .,:;]+', s)` returns, described without computing it: `s` is the pieces
   * interleaved with separator runs, no piece holds a separator (so every run is maximal), and only
   * the first and last piece may be empty (a leading or trailing run).
   */
  predicate IsSplitOf(s: string, pieces: seq<string>, runs: seq<string>)
  {
    && |pieces| == |runs| + 1
    && (forall k :: 0 <= k < |pieces| ==> SeparatorFree(pieces[k]))
    && (forall k :: 0 < k < |pieces| - 1 ==> pieces[k] != [])
    && (forall k :: 0 <= k < |runs| ==> SeparatorRun(runs[k]))
    && Interleave(pieces, runs) == s
  }

  /** A separator-free piece and a separator run in front of a split give a split of the longer string. */
  lemma IsSplitOfCons(p: string, r: string, t: string, pieces: seq<string>, runs: seq<string>)
    requires SeparatorFree(p) && SeparatorRun(r) && IsSplitOf(t, pieces, runs)
    requires |pieces| > 1 ==> pieces[0] != []
    ensures IsSplitOf(p + r + t, [p] + pieces, [r] + runs)
  {
    var ps, rs := [p] + pieces, [r] + runs;
    assert ps[1..] == pieces && rs[1..] == runs;
    forall k | 0 < k < |ps| - 1 ensures ps[k] != [] {
      assert ps[k] == pieces[k - 1];
    }
    forall k | 0 <= k < |ps| ensures SeparatorFree(ps[k]) {
      if k > 0 { assert ps[k] == pieces[k - 1]; }
    }
    forall k | 0 <= k < |rs| ensures SeparatorRun(rs[k]) {
      if k > 0 { assert rs[k] == runs[k - 1]; }
    }
  }

  /** A split with at least one run comes apart at its first run. */
  lemma IsSplitOfTail(t: string, pieces: seq<string>, runs: seq<string>)
    requires IsSplitOf(t, pieces, runs) && runs != []
    ensures var tail := Interleave(pieces[1..], runs[1..]);
            && t == pieces[0] + runs[0] + tail
            && IsSplitOf(tail, pieces[1..], runs[1..])
            && (tail == [] || !IsSeparator(tail[0]))
  {
    var tail := Interleave(pieces[1..], runs[1..]);
    forall k | 0 < k < |pieces[1..]| - 1 ensures pieces[1..][k] != [] {
      assert pieces[1..][k] == pieces[k + 1];
    }
    NoSeparatorAfterRun(pieces, runs);
  }

  /** The pieces `SplitFrom` yields, with the separator runs between them, put together give `s[i..]`. */
  lemma {:induction false} SplitFromReassembles(s: string, i: nat) returns (runs: seq<string>)
    requires i <= |s|
    ensures IsSplitOf(s[i..], SplitFrom(s, i), runs)
    decreases |s| - i
  {
    var e := NextSeparator(s, i);
    if e == |s| {
      runs := [];
      assert s[i..e] == s[i..];
    } else {
      var f := SkipSeparators(s, e);
      var rest := SplitFrom(s, f);
      var more := SplitFromReassembles(s, f);
      assert SeparatorRun(s[e..f]) by {
        assert s[e..f][0] == s[e];
      }
      FirstPieceNonEmpty(s, f);
      IsSplitOfCons(s[i..e], s[e..f], s[f..], rest, more);
      SlicesJoin(s, i, e, f);
      runs := [s[e..f]] + more;
    }
  }

  lemma SlicesJoin(s: string, i: nat, e: nat, f: nat)
    requires i <= e <= f <= |s|
    ensures s[i..] == s[i..e] + s[e..f] + s[f..]
  {
  }

  /** After a maximal separator run, the next piece is empty only at the end of the string. */
  lemma FirstPieceNonEmpty(s: string, f: nat)
    requires f <= |s| && (f == |s| || !IsSeparator(s[f]))
    ensures |SplitFrom(s, f)| > 1 ==> SplitFrom(s, f)[0] != []
  {
    if f < |s| {
      var e := NextSeparator(s, f);
      assert e > f;
    }
  }

  lemma SplitReassembles(s: string) returns (runs: seq<string>)
    ensures IsSplitOf(s, Split(s), runs)
  {
    runs := SplitFromReassembles(s, 0);
    assert s[0..] == s;
  }

  /** A separator-free stretch ended by a separator (or the end) is what `NextSeparator` finds. */
  lemma {:induction false} NextSeparatorIs(s: string, i: nat, e: nat)
    requires i <= e <= |s| && (forall k :: i <= k < e ==> !IsSeparator(s[k]))
    requires e == |s| || IsSeparator(s[e])
    ensures NextSeparator(s, i) == e
    decreases e - i
  {
    if i < e {
      NextSeparatorIs(s, i + 1, e);
    }
  }

  /** A run of separators ended by a non-separator (or the end) is the whole run `SkipSeparators` skips. */
  lemma {:induction false} SkipSeparatorsIs(s: string, e: nat, f: nat)
    requires e <= f <= |s| && (forall k :: e <= k < f ==> IsSeparator(s[k]))
    requires f == |s| || !IsSeparator(s[f])
    ensures SkipSeparators(s, e) == f
    decreases f - e
  {
    if e < f {
      SkipSeparatorsIs(s, e + 1, f);
    }
  }

  /** Only one sequence of pieces fits the description: `SplitFrom` computes it. */
  lemma {:induction false} SplitFromUnique(s: string, i: nat, pieces: seq<string>, runs: seq<string>)
    requires i <= |s| && IsSplitOf(s[i..], pieces, runs)
    ensures SplitFrom(s, i) == pieces
    decreases |runs|
  {
    if runs == [] {
      LastPieceFound(s, i, pieces[0]);
    } else {
      var f := FirstRunFound(s, i, pieces, runs);
      SplitFromUnique(s, f, pieces[1..], runs[1..]);
    }
  }

  /** A separator-free rest of the string is the last piece. */
  lemma LastPieceFound(s: string, i: nat, p: string)
    requires i <= |s| && s[i..] == p && SeparatorFree(p)
    ensures SplitFrom(s, i) == [p]
  {
    forall k | i <= k < |s| ensures !IsSeparator(s[k]) {
      assert s[k] == p[k - i];
    }
    NextSeparatorIs(s, i, |s|);
  }

  /** `SplitFrom` finds the first piece and the first run where the description puts them. */
  lemma FirstRunFound(s: string, i: nat, pieces: seq<string>, runs: seq<string>) returns (f: nat)
    requires i <= |s| && IsSplitOf(s[i..], pieces, runs) && runs != []
    ensures f == i + |pieces[0]| + |runs[0]| <= |s|
    ensures NextSeparator(s, i) == i + |pieces[0]| < |s|
    ensures SkipSeparators(s, i + |pieces[0]|) == f
    ensures s[i..i + |pieces[0]|] == pieces[0]
    ensures IsSplitOf(s[f..], pieces[1..], runs[1..])
    ensures SplitFrom(s, i) == [pieces[0]] + SplitFrom(s, f)
  {
    var p0, r0 := pieces[0], runs[0];
    IsSplitOfTail(s[i..], pieces, runs);
    var tail := Interleave(pieces[1..], runs[1..]);
    var e := i + |p0|;
    f := e + |r0|;
    forall k | i <= k < e ensures !IsSeparator(s[k]) {
      assert s[k] == p0[k - i];
    }
    assert s[e] == r0[0];
    NextSeparatorIs(s, i, e);
    forall k | e <= k < f ensures IsSeparator(s[k]) {
      assert s[k] == r0[k - e];
    }
    if f < |s| {
      assert s[f] == tail[0];
    }
    SkipSeparatorsIs(s, e, f);
    assert s[i..e] == p0;
    assert s[f..] == tail;
  }

  /** What follows the first separator run is the end, or a piece that starts with a non-separator. */
  lemma NoSeparatorAfterRun(pieces: seq<string>, runs: seq<string>)
    requires |pieces| == |runs| + 1 && runs != [] && IsSplitOf(Interleave(pieces, runs), pieces, runs)
    ensures var tail := Interleave(pieces[1..], runs[1..]); tail == [] || !IsSeparator(tail[0])
  {
    var tail := Interleave(pieces[1..], runs[1..]);
    if pieces[1] != [] {
      if runs[1..] != [] {
        assert tail == pieces[1] + runs[1] + Interleave(pieces[2..], runs[2..]);
      }
      assert tail[0] == pieces[1][0];
    }
  }

  /** `re.split` is characterised by `IsSplitOf`: `Split(s)` is the one sequence of pieces it admits. */
  lemma SplitUnique(s: string, pieces: seq<string>, runs: seq<string>)
    requires IsSplitOf(s, pieces, runs)
    ensures Split(s) == pieces
  {
    assert s[0..] == s;
    SplitFromUnique(s, 0, pieces, runs);
  }

  /** A token as the scorer keeps it: non-empty, free of separators, stripped. */
  predicate IsToken(t: string)
  {
    t != [] && SeparatorFree(t) && Trimmed(t)
  }

  /** `[p.strip() for p in pieces if p.strip()]`. */
  function KeepStripped(pieces: seq<string>): (tokens: seq<string>)
    ensures |tokens| <= |pieces|
    ensures forall k :: 0 <= k < |tokens| ==> tokens[k] != [] && Trimmed(tokens[k])
  {
    if pieces == [] then []
    else
      var t := Trim(pieces[0]);
      var rest := KeepStripped(pieces[1..]);
      if t != [] then [t] + rest else rest
  }

  lemma {:induction false} KeepStrippedSeparatorFree(pieces: seq<string>)
    requires forall k :: 0 <= k < |pieces| ==> SeparatorFree(pieces[k])
    ensures forall k :: 0 <= k < |KeepStripped(pieces)| ==> SeparatorFree(KeepStripped(pieces)[k])
  {
    if pieces != [] {
      TrimKeepsSeparatorFree(pieces[0]);
      assert forall k :: 0 <= k < |pieces[1..]| ==> pieces[1..][k] == pieces[k + 1];
      KeepStrippedSeparatorFree(pieces[1..]);
    }
  }

  /** A token is kept exactly when it is a piece, stripped, that is not blank. */
  lemma {:induction false} KeepStrippedMembers(pieces: seq<string>, t: string)
    ensures t in KeepStripped(pieces) <==> exists p :: p in pieces && t == Trim(p) && t != []
  {
    if pieces != [] {
      KeepStrippedMembers(pieces[1..], t);
      assert forall p :: p in pieces <==> p == pieces[0] || p in pieces[1..];
    }
  }

  /** The filter works piece by piece: filtering `a + b` is filtering `a`, then `b`, in that order. */
  lemma {:induction false} KeepStrippedAppend(a: seq<string>, b: seq<string>)
    ensures KeepStripped(a + b) == KeepStripped(a) + KeepStripped(b)
  {
    if a == [] {
      assert a + b == b;
    } else {
      assert (a + b)[0] == a[0] && (a + b)[1..] == a[1..] + b;
      KeepStrippedAppend(a[1..], b);
    }
  }

  /** One piece gives its stripped text, or nothing when that is empty. */
  lemma KeepStrippedSingle(p: string)
    ensures KeepStripped([p]) == (if Trim(p) != [] then [Trim(p)] else [])
  {
    assert [p][1..] == [];
  }

  /** The tokens are the pieces of `re.split`, in order, stripped, with the blank ones dropped. */
  lemma TokenizeOfSplit(pred: string, pieces: seq<string>, runs: seq<string>)
    requires IsSplitOf(pred, pieces, runs)
    ensures Tokenize(pred) == KeepStripped(pieces)
  {
    SplitUnique(pred, pieces, runs);
  }

  /** The tokens `sqa_accuracy_reward` compares with the ground truth. */
  function Tokenize(pred: string): (tokens: seq<string>)
    ensures forall k :: 0 <= k < |tokens| ==> IsToken(tokens[k])
  {
    KeepStrippedSeparatorFree(Split(pred));
    KeepStripped(Split(pred))
  }

  /** Stripping cuts a slice, so it cannot bring in a separator. */
  lemma TrimKeepsSeparatorFree(p: string)
    ensures SeparatorFree(p) ==> SeparatorFree(Trim(p))
  {
    var r := Trim(p);
    var lead := LeadLength(p);
    if SeparatorFree(p) {
      forall i | 0 <= i < |r| ensures !IsSeparator(r[i]) {
        assert r[i] == p[lead + i];
      }
    }
  }

  /** Every piece of `pred` that is more than whitespace survives, stripped, as a token. */
  lemma TokenizeKeepsPieces(pred: string, p: string)
    requires p in Split(pred) && Trim(p) != []
    ensures Trim(p) in Tokenize(pred)
  {
    KeepStrippedMembers(Split(pred), Trim(p));
  }

  /** Spaces are deleted before splitting, so words run together: `cat, dog and fish` gives two tokens. */
  lemma TokenizeWordsRunTogether(t: string)
    requires t == "cat,dogandfish"
    ensures Tokenize(t) == ["cat", "dogandfish"]
  {
    var pieces := SplitExample(t);
    assert Trimmed(pieces[0]) && Trimmed(pieces[1]);
    KeepStrippedOfTokens(pieces);
  }

  /** Pieces that are already tokens pass through the filter unchanged. */
  lemma {:induction false} KeepStrippedOfTokens(pieces: seq<string>)
    requires forall k :: 0 <= k < |pieces| ==> pieces[k] != [] && Trimmed(pieces[k])
    ensures KeepStripped(pieces) == pieces
  {
    if pieces != [] {
      TrimOfTrimmed(pieces[0]);
      KeepStrippedOfTokens(pieces[1..]);
    }
  }

  lemma SplitExample(s: string) returns (pieces: seq<string>)
    requires s == "cat,dogandfish"
    ensures pieces == ["cat", "dogandfish"] && Split(s) == pieces
  {
    assert IsSeparator(s[3]) && SeparatorFree(s[0..3]);
    var e := NextSeparator(s, 0);
    assert e == 3;
    SkipSeparatorsIs(s, 3, 4);
    var f := SkipSeparators(s, 3);
    assert SeparatorFree(s[4..]);
    var g := NextSeparator(s, 4);
    assert g == |s|;
    assert SplitFrom(s, 4) == [s[4..]];
    assert s[4..] == "dogandfish" && s[0..3] == "cat";
    pieces := ["cat", "dogandfish"];
  }
}
