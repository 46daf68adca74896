/**
 * auto_validation.py: find the merged (`actor/huggingface`) checkpoints under the target roots, keep
 * the steps `--filter-steps` names, run the validation script on each, and report.
 */
module Validation {
  import opened Wrappers
  import opened Text
  import opened Checkpoints
  import opened Batch

  /** Where a merged model sits inside a step directory. */
  const MergedMarker: Path := ["actor", "huggingface"]

  /** `find_merged_models`: the sorted `actor/huggingface` directories of the `global_step_` children of one root. */
  method FindMergedModels(fs: FileSystem, base: Path) returns (r: Result<seq<Path>, ScanError>)
    ensures base !in fs.entries ==> r == Ok([])
    ensures IsNonDirectory(fs, base) ==> r == Err(NotADirectory(base))
    ensures r.Ok? ==> IsScanOf(fs, base, MergedMarker, r.value)
  {
    r := FindStepDirectories(fs, base, MergedMarker);
  }

  /** `p.parent.parent.name` for a relative path: the component two above the last, or `""`. */
  function GrandparentName(p: Path): string
  {
    if |p| >= 3 then p[|p| - 3] else ""
  }

  /** The step label the filter compares: the step directory's name with `global_step_` deleted. */
  function StepLabel(model: Path): string
  {
    DeleteAll(GrandparentName(model), StepPrefix)
  }

  /** `--filter-steps`: absent or empty, it lets everything through; otherwise only the labels it lists. */
  predicate Selected(model: Path, filter: Option<seq<string>>)
  {
    filter.None? || filter.value == [] || StepLabel(model) in filter.value
  }

  /** The models that survive the filter, in their original order. */
  function FilterModels(models: seq<Path>, filter: Option<seq<string>>): (r: seq<Path>)
    ensures |r| <= |models|
    ensures forall k :: 0 <= k < |r| ==> Selected(r[k], filter)
    ensures filter.None? || filter.value == [] ==> r == models
  {
    if models == [] then []
    else if Selected(models[0], filter) then [models[0]] + FilterModels(models[1..], filter)
    else FilterModels(models[1..], filter)
  }

  /** A model is kept exactly when it was found and the filter selects it. */
  lemma {:induction false} FilterKeeps(models: seq<Path>, filter: Option<seq<string>>)
    ensures forall p :: p in FilterModels(models, filter) <==> p in models && Selected(p, filter)
  {
    if models != [] {
      FilterKeeps(models[1..], filter);
      assert forall p :: p in models <==> p == models[0] || p in models[1..];
    }
  }

  /** Filtering root by root, as `main` does, is filtering the concatenation. */
  lemma {:induction false} FilterAppend(a: seq<Path>, b: seq<Path>, filter: Option<seq<string>>)
    ensures FilterModels(a + b, filter) == FilterModels(a, filter) + FilterModels(b, filter)
  {
    if a == [] {
      assert a + b == b;
    } else {
      var ab := a + b;
      assert ab[0] == a[0] && ab[1..] == a[1..] + b;
      FilterAppend(a[1..], b, filter);
      var fa, fb := FilterModels(a[1..], filter), FilterModels(b, filter);
      if Selected(a[0], filter) {
        assert FilterModels(a, filter) == [a[0]] + fa;
        assert FilterModels(ab, filter) == [a[0]] + (fa + fb);
        assert [a[0]] + (fa + fb) == ([a[0]] + fa) + fb;
      } else {
        assert FilterModels(a, filter) == fa;
        assert FilterModels(ab, filter) == fa + fb;
      }
    }
  }

  /** Without a filter (or with an empty one) every model is kept. */
  lemma {:induction false} FilterInactive(models: seq<Path>, filter: Option<seq<string>>)
    requires filter.None? || filter.value == []
    ensures FilterModels(models, filter) == models
  {
    if models != [] {
      FilterInactive(models[1..], filter);
    }
  }

  /** The label of `global_step_<d>/actor/huggingface` is `d`, for any `d` not itself containing the prefix. */
  lemma StepLabelOfStepDirectory(base: Path, d: string)
    requires forall k :: !OccursAt(d, StepPrefix, k)
    ensures StepLabel(base + [StepPrefix + d] + MergedMarker) == d
  {
    var p := base + [StepPrefix + d] + MergedMarker;
    assert GrandparentName(p) == StepPrefix + d;
    assert (StepPrefix + d)[|StepPrefix|..] == d;
    DeleteAllAbsent(d, StepPrefix);
  }

  /** The prefix is deleted wherever it occurs, not only at the start: step `global_step_global_step_7` is labelled `7`. */
  lemma StepLabelDeletesEveryOccurrence(base: Path)
    ensures StepLabel(base + ["global_step_global_step_7"] + MergedMarker) == "7"
  {
    var name := "global_step_global_step_7";
    assert GrandparentName(base + [name] + MergedMarker) == name;
    assert StartsWith(name, StepPrefix);
    var once := name[|StepPrefix|..];
    assert once == "global_step_7";
    assert StartsWith(once, StepPrefix);
    var twice := once[|StepPrefix|..];
    assert twice == "7";
    assert !StartsWith(twice, StepPrefix);
    assert DeleteAll(twice, StepPrefix) == [twice[0]] + DeleteAll(twice[1..], StepPrefix);
  }

  /**
   * `validate_model`: a dry run succeeds without running anything; otherwise the script succeeds only
   * by exiting with status 0, and any exception (the script cannot be started) counts as a failure.
   */
  function ValidateModel(dryRun: bool, launch: Launch): (r: Attempt)
    ensures r != Raised
    ensures r == Succeeded <==> dryRun || launch == Exited(0)
  {
    if dryRun then Succeeded
    else
      match launch
      case Exited(code) => if code == 0 then Succeeded else Failed
      case LaunchFailed => Failed
  }

  /** The command-line switches of `main`. */
  datatype Options = Options(dryRun: bool, continueOnError: bool, filterSteps: Option<seq<string>>)

  /** What validating each model would do, given what launching the script on it does. */
  function Attempts(models: seq<Path>, dryRun: bool, launch: Path -> Launch): (r: seq<Attempt>)
    ensures |r| == |models|
    ensures forall i :: 0 <= i < |r| ==> r[i] == ValidateModel(dryRun, launch(models[i]))
  {
    seq(|models|, i requires 0 <= i < |models| => ValidateModel(dryRun, launch(models[i])))
  }

  /**
   * `main`: scan every root, filter, validate the survivors in order, summarise. `launch(p)` is what
   * starting the validation script on model `p` does.
   */
  method ValidateAll(fs: FileSystem, roots: seq<Path>, opts: Options, launch: Path -> Launch)
    returns (report: Report, models: seq<Path>, ghost perRoot: seq<seq<Path>>)
    ensures report.Crashed? <==> exists i :: 0 <= i < |roots| && IsNonDirectory(fs, roots[i])
    ensures !report.Crashed? ==>
              && |perRoot| == |roots|
              && (forall i :: 0 <= i < |roots| ==> IsScanOf(fs, roots[i], MergedMarker, perRoot[i]))
              && models == FilterModels(Flatten(perRoot), opts.filterSteps)
              && report == Summarize(Attempts(models, opts.dryRun, launch), opts.continueOnError)
    ensures report.NothingToDo? <==> !report.Crashed? && models == []
    ensures opts.dryRun && report.Finished? ==> report == Finished(|models|, 0, |models|)
    ensures ExitStatus(report) == 0 <==>
              !report.Crashed? && forall i :: 0 <= i < |models| ==> ValidateModel(opts.dryRun, launch(models[i])) == Succeeded
  {
    var scan;
    scan, perRoot := ScanRoots(fs, roots, MergedMarker);
    if scan.Err? {
      return Crashed, [], perRoot;
    }
    models := FilterModels(scan.value, opts.filterSteps);
    var attempts := Attempts(models, opts.dryRun, launch);
    ExitZeroIffAllSucceed(attempts, opts.continueOnError);
    if attempts == [] {
      return NothingToDo, models, perRoot;
    }
    var t := RunBatch(attempts, opts.continueOnError);
    RunStops(attempts, opts.continueOnError);
    if opts.dryRun {
      AllSucceedCounted(attempts, opts.continueOnError);
    }
    report := if t.raised then Crashed else Finished(t.successful, t.failed, |attempts|);
  }

  /**
   * `main` itself, on the two checkpoint roots it scans: it crashes exactly when one of them exists
   * but is not a directory, and has nothing to do when neither exists.
   */
  method ValidateTargets(fs: FileSystem, opts: Options, launch: Path -> Launch) returns (report: Report, models: seq<Path>)
    ensures report.Crashed? <==> IsNonDirectory(fs, TargetRoots[0]) || IsNonDirectory(fs, TargetRoots[1])
    ensures TargetRoots[0] !in fs.entries && TargetRoots[1] !in fs.entries ==> report.NothingToDo?
  {
    ghost var perRoot;
    report, models, perRoot := ValidateAll(fs, TargetRoots, opts, launch);
    assert |TargetRoots| == 2;
    if !report.Crashed? && TargetRoots[0] !in fs.entries && TargetRoots[1] !in fs.entries {
      assert perRoot[0] == [] && perRoot[1] == [];
      assert Flatten(perRoot) == [] by {
        assert perRoot[1..][1..] == [];
        assert Flatten(perRoot[1..]) == perRoot[1] + Flatten(perRoot[1..][1..]);
      }
    }
  }
}
