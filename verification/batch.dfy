/**
 * The driver loop of both `main`s (auto_merge_models.py, auto_validation.py): run the items in order,
 * count successes and failures, stop at the first failure unless continuing on error, and leave with
 * exit status 1 if anything failed.
 *
 * `attempts[i]` is what running item `i` would do; the loop decides how many of them are run.
 */
module Batch {

  /** How one item went: the step returned `True`, returned `False`, or let an exception escape. */
  datatype Attempt = Succeeded | Failed | Raised

  /** How an external command went: it ran and exited with a status, or it could not be started. */
  datatype Launch = Exited(code: int) | LaunchFailed

  /** The two counters of the loop, and whether an exception ended it. */
  datatype Tally = Tally(successful: nat, failed: nat, raised: bool) {
    /** How many items were run to completion. */
    function Attempted(): nat
    {
      successful + failed
    }
  }

  /** The loop as a fold over the attempts, front to back: the reference the loop is checked against. */
  function Run(attempts: seq<Attempt>, continueOnError: bool): Tally
  {
    if attempts == [] then Tally(0, 0, false)
    else
      match attempts[0]
      case Raised => Tally(0, 0, true)
      case Succeeded =>
        var t := Run(attempts[1..], continueOnError);
        t.(successful := t.successful + 1)
      case Failed =>
        if continueOnError then
          var t := Run(attempts[1..], continueOnError);
          t.(failed := t.failed + 1)
        else Tally(0, 1, false)
  }

  function Count(attempts: seq<Attempt>, x: Attempt): nat
  {
    if attempts == [] then 0 else (if attempts[0] == x then 1 else 0) + Count(attempts[1..], x)
  }

  /** The tally of the rest of the loop, with the counts already made added in. */
  function After(successful: nat, failed: nat, t: Tally): Tally
  {
    Tally(successful + t.successful, failed + t.failed, t.raised)
  }

  /** The `for ... break` loop of `main`, with its two counters. */
  method RunBatch(attempts: seq<Attempt>, continueOnError: bool) returns (t: Tally)
    ensures t == Run(attempts, continueOnError)
  {
    var successful, failed := 0, 0;
    var i := 0;
    assert attempts[0..] == attempts;
    while i < |attempts|
      invariant 0 <= i <= |attempts|
      invariant Run(attempts, continueOnError) == After(successful, failed, Run(attempts[i..], continueOnError))
    {
      assert attempts[i..][1..] == attempts[i + 1..];
      match attempts[i] {
        case Raised =>
          return Tally(successful, failed, true);
        case Succeeded =>
          successful := successful + 1;
        case Failed =>
          failed := failed + 1;
          if !continueOnError {
            return Tally(successful, failed, false);
          }
      }
      i := i + 1;
    }
    assert attempts[i..] == [];
    return Tally(successful, failed, false);
  }

  /**
   * The counters count exactly the items run, and those are a prefix of the list in which nothing
   * raised.
   */
  lemma {:induction false} RunCounts(attempts: seq<Attempt>, continueOnError: bool)
    ensures var t := Run(attempts, continueOnError);
            && t.Attempted() <= |attempts|
            && t.successful == Count(attempts[..t.Attempted()], Succeeded)
            && t.failed == Count(attempts[..t.Attempted()], Failed)
            && Raised !in attempts[..t.Attempted()]
  {
    if attempts != [] && attempts[0] != Raised {
      var rest := attempts[1..];
      var t := Run(attempts, continueOnError);
      var n := t.Attempted();
      if attempts[0] == Succeeded || continueOnError {
        assert && n <= |attempts|
               && t.successful == Count(attempts[..n], Succeeded)
               && t.failed == Count(attempts[..n], Failed)
               && Raised !in attempts[..n] by {
          var u := Run(rest, continueOnError);
          var m := u.Attempted();
          RunCounts(rest, continueOnError);
          RunStep(attempts, continueOnError);
          assert n == m + 1;
          PrefixOfCons(attempts, m);
        }
      } else {
        assert attempts[..n] == [Failed];
      }
    }
  }

  /** An item that neither raises nor ends the loop adds one to its counter and leaves the rest to run. */
  lemma RunStep(attempts: seq<Attempt>, continueOnError: bool)
    requires attempts != [] && attempts[0] != Raised && (attempts[0] == Succeeded || continueOnError)
    ensures var t, u := Run(attempts, continueOnError), Run(attempts[1..], continueOnError);
            t == After(if attempts[0] == Succeeded then 1 else 0, if attempts[0] == Failed then 1 else 0, u)
  {
  }

  /** A prefix of `n + 1` items is the first item followed by `n` items of the rest. */
  lemma PrefixOfCons(attempts: seq<Attempt>, n: nat)
    requires n < |attempts|
    ensures var p, rest := attempts[..n + 1], attempts[1..][..n];
            && Count(p, Succeeded) == (if attempts[0] == Succeeded then 1 else 0) + Count(rest, Succeeded)
            && Count(p, Failed) == (if attempts[0] == Failed then 1 else 0) + Count(rest, Failed)
            && (Raised in p <==> attempts[0] == Raised || Raised in rest)
  {
    var p, rest := attempts[..n + 1], attempts[1..][..n];
    assert p == [attempts[0]] + rest;
    assert p[1..] == rest;
  }

  /** The loop runs at most as many items as the list holds. */
  lemma {:induction false} RunBound(attempts: seq<Attempt>, continueOnError: bool)
    ensures Run(attempts, continueOnError).Attempted() <= |attempts|
  {
    if attempts != [] {
      RunBound(attempts[1..], continueOnError);
    }
  }

  /** Where the loop stopped: an exception at the next item, a failure just before it, or the end. */
  lemma {:induction false} RunStops(attempts: seq<Attempt>, continueOnError: bool)
    ensures var t := Run(attempts, continueOnError);
            t.raised ==> t.Attempted() < |attempts| && attempts[t.Attempted()] == Raised
    ensures var t := Run(attempts, continueOnError);
            !t.raised && t.Attempted() < |attempts| ==>
              !continueOnError && t.Attempted() > 0 && attempts[t.Attempted() - 1] == Failed
  {
    if attempts == [] {
    } else if attempts[0] == Raised {
      assert Run(attempts, continueOnError) == Tally(0, 0, true);
    } else if attempts[0] == Failed && !continueOnError {
      assert Run(attempts, continueOnError) == Tally(0, 1, false);
    } else {
      var rest := attempts[1..];
      RunStops(rest, continueOnError);
      RunBound(rest, continueOnError);
      var t' := Run(rest, continueOnError);
      var n := t'.Attempted();
      assert Run(attempts, continueOnError).Attempted() == n + 1;
      assert Run(attempts, continueOnError).raised == t'.raised;
      if n < |rest| {
        assert attempts[n + 1] == rest[n];
      }
      if n > 0 {
        assert attempts[n] == rest[n - 1];
      }
    }
  }

  /** Without `--continue-on-error` the first failure ends the loop: every earlier item succeeded. */
  lemma {:induction false} RunHaltsAtFirstFailure(attempts: seq<Attempt>)
    ensures var t := Run(attempts, false);
            && t.failed <= 1
            && t.Attempted() <= |attempts|
            && forall j :: 0 <= j < t.Attempted() - 1 ==> attempts[j] == Succeeded
  {
    var t := Run(attempts, false);
    if attempts == [] {
    } else if attempts[0] == Raised {
      assert t == Tally(0, 0, true);
    } else if attempts[0] == Failed {
      assert t == Tally(0, 1, false);
    } else {
      var rest := attempts[1..];
      RunHaltsAtFirstFailure(rest);
      var t' := Run(rest, false);
      assert t == t'.(successful := t'.successful + 1);
      forall j | 1 <= j < t.Attempted() - 1 ensures attempts[j] == Succeeded {
        assert rest[j - 1] == attempts[j];
      }
    }
  }

  /** With `--continue-on-error` and no exception, every item is run. */
  lemma {:induction false} RunContinues(attempts: seq<Attempt>)
    requires Raised !in attempts
    ensures Run(attempts, true).Attempted() == |attempts| && !Run(attempts, true).raised
  {
    if attempts != [] {
      var rest := attempts[1..];
      assert attempts == [attempts[0]] + rest;
      assert attempts[0] != Raised && Raised !in rest;
      RunContinues(rest);
      var t' := Run(rest, true);
      if attempts[0] == Succeeded {
        assert Run(attempts, true) == t'.(successful := t'.successful + 1);
      } else {
        assert Run(attempts, true) == t'.(failed := t'.failed + 1);
      }
    }
  }

  /** The outcome `main` ends with. */
  datatype Report =
    | NothingToDo                                          // no directories: early `return`
    | Crashed                                              // an exception escaped `main`
    | Finished(successful: nat, failed: nat, total: nat)   // the summary was printed

  /** The outcome of `main` once the list of items is known. */
  function Summarize(attempts: seq<Attempt>, continueOnError: bool): (r: Report)
    ensures r.Finished? ==> r.total == |attempts| > 0 && r.successful + r.failed <= r.total
    ensures r.NothingToDo? <==> attempts == []
  {
    if attempts == [] then NothingToDo
    else
      var t := Run(attempts, continueOnError);
      RunCounts(attempts, continueOnError);
      if t.raised then Crashed else Finished(t.successful, t.failed, |attempts|)
  }

  /** The process exit status: 1 after `sys.exit(1)` or an uncaught exception, 0 otherwise. */
  function ExitStatus(r: Report): (code: int)
    ensures code == 0 || code == 1
  {
    match r
    case NothingToDo => 0
    case Crashed => 1
    case Finished(_, failed, _) => if failed > 0 then 1 else 0
  }

  /** The run exits 0 exactly when every item (if any) succeeds, whether or not it continues on error. */
  lemma {:induction false} ExitZeroIffAllSucceed(attempts: seq<Attempt>, continueOnError: bool)
    ensures ExitStatus(Summarize(attempts, continueOnError)) == 0 <==>
              forall j :: 0 <= j < |attempts| ==> attempts[j] == Succeeded
  {
    if attempts != [] {
      var rest := attempts[1..];
      ExitZeroIffAllSucceed(rest, continueOnError);
      var t := Run(attempts, continueOnError);
      var t' := Run(rest, continueOnError);
      if attempts[0] == Succeeded {
        assert t == t'.(successful := t'.successful + 1);
        if rest == [] {
          assert t == Tally(1, 0, false);
        }
        forall j | 1 <= j < |attempts| ensures attempts[j] == rest[j - 1] {
        }
      } else {
        assert !(attempts[0] == Succeeded);
        if attempts[0] == Failed {
          assert t.failed > 0;
        }
      }
    }
  }

  /** Items that all succeed (a dry run, say) are all counted as successes. */
  lemma {:induction false} AllSucceedCounted(attempts: seq<Attempt>, continueOnError: bool)
    requires forall j :: 0 <= j < |attempts| ==> attempts[j] == Succeeded
    ensures Run(attempts, continueOnError) == Tally(|attempts|, 0, false)
  {
    if attempts != [] {
      AllSucceedCounted(attempts[1..], continueOnError);
    }
  }
}
