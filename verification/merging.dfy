/**
 * auto_merge_models.py: find the `actor` directories of the step checkpoints under the target roots,
 * run the merger on each, and report.
 */
module Merging {
  import opened Wrappers
  import opened Checkpoints
  import opened Batch

  /** Where the trained weights sit inside a step directory. */
  const ActorMarker: Path := ["actor"]

  /** `find_model_directories`: the sorted `actor` directories of the `global_step_` children of one root. */
  method FindModelDirectories(fs: FileSystem, base: Path) returns (r: Result<seq<Path>, ScanError>)
    ensures base !in fs.entries ==> r == Ok([])
    ensures IsNonDirectory(fs, base) ==> r == Err(NotADirectory(base))
    ensures r.Ok? ==> IsScanOf(fs, base, ActorMarker, r.value)
  {
    r := FindStepDirectories(fs, base, ActorMarker);
  }

  /**
   * `merge_model`: a dry run succeeds without running anything; otherwise the merger succeeds by
   * exiting with status 0 and fails with any other status. Only a non-zero exit is caught: a merger
   * that cannot be started raises out of the loop.
   */
  function MergeModel(dryRun: bool, launch: Launch): (r: Attempt)
    ensures r == Raised <==> !dryRun && launch == LaunchFailed
    ensures r == Succeeded <==> dryRun || launch == Exited(0)
  {
    if dryRun then Succeeded
    else
      match launch
      case Exited(code) => if code == 0 then Succeeded else Failed
      case LaunchFailed => Raised
  }

  /** The command-line switches of `main`. */
  datatype Options = Options(dryRun: bool, continueOnError: bool)

  /** What merging each directory would do, given what launching the merger on it does. */
  function Attempts(dirs: seq<Path>, dryRun: bool, launch: Path -> Launch): (r: seq<Attempt>)
    ensures |r| == |dirs|
    ensures forall i :: 0 <= i < |r| ==> r[i] == MergeModel(dryRun, launch(dirs[i]))
  {
    seq(|dirs|, i requires 0 <= i < |dirs| => MergeModel(dryRun, launch(dirs[i])))
  }

  /** No root exists as a non-directory, so scanning cannot raise. */
  predicate ScanSucceeds(fs: FileSystem, roots: seq<Path>)
  {
    forall i :: 0 <= i < |roots| ==> !IsNonDirectory(fs, roots[i])
  }

  /**
   * `main`: scan every root, merge what was found in order, summarise. `launch(p)` is what starting
   * the merger on directory `p` does.
   */
  method MergeAll(fs: FileSystem, roots: seq<Path>, opts: Options, launch: Path -> Launch)
    returns (report: Report, dirs: seq<Path>, ghost perRoot: seq<seq<Path>>)
    ensures !ScanSucceeds(fs, roots) ==> report.Crashed?
    ensures ScanSucceeds(fs, roots) ==>
              && |perRoot| == |roots|
              && (forall i :: 0 <= i < |roots| ==> IsScanOf(fs, roots[i], ActorMarker, perRoot[i]))
              && dirs == Flatten(perRoot)
              && report == Summarize(Attempts(dirs, opts.dryRun, launch), opts.continueOnError)
    ensures report.NothingToDo? <==> ScanSucceeds(fs, roots) && dirs == []
    ensures opts.dryRun ==> (report.Crashed? <==> !ScanSucceeds(fs, roots))
    ensures opts.dryRun && report.Finished? ==> report == Finished(|dirs|, 0, |dirs|)
    ensures report.Crashed? && ScanSucceeds(fs, roots) ==>
              exists i :: 0 <= i < |dirs| && launch(dirs[i]) == LaunchFailed
    ensures ExitStatus(report) == 0 <==>
              ScanSucceeds(fs, roots) && forall i :: 0 <= i < |dirs| ==> MergeModel(opts.dryRun, launch(dirs[i])) == Succeeded
  {
    var scan;
    scan, perRoot := ScanRoots(fs, roots, ActorMarker);
    if scan.Err? {
      return Crashed, [], perRoot;
    }
    dirs := scan.value;
    var attempts := Attempts(dirs, opts.dryRun, launch);
    ExitZeroIffAllSucceed(attempts, opts.continueOnError);
    if attempts == [] {
      return NothingToDo, dirs, perRoot;
    }
    var t := RunBatch(attempts, opts.continueOnError);
    RunStops(attempts, opts.continueOnError);
    RunCounts(attempts, opts.continueOnError);
    if opts.dryRun {
      AllSucceedCounted(attempts, opts.continueOnError);
    }
    report := if t.raised then Crashed else Finished(t.successful, t.failed, |attempts|);
  }

  /**
   * `main` itself, on the two checkpoint roots it scans: it crashes when one of them exists but is not
   * a directory, and has nothing to do when neither exists.
   */
  method MergeTargets(fs: FileSystem, opts: Options, launch: Path -> Launch) returns (report: Report, dirs: seq<Path>)
    ensures IsNonDirectory(fs, TargetRoots[0]) || IsNonDirectory(fs, TargetRoots[1]) ==> report.Crashed?
    ensures TargetRoots[0] !in fs.entries && TargetRoots[1] !in fs.entries ==> report.NothingToDo?
  {
    ghost var perRoot;
    report, dirs, perRoot := MergeAll(fs, TargetRoots, opts, launch);
    assert |TargetRoots| == 2;
    if TargetRoots[0] !in fs.entries && TargetRoots[1] !in fs.entries {
      assert ScanSucceeds(fs, TargetRoots);
      assert perRoot[0] == [] && perRoot[1] == [];
      assert Flatten(perRoot) == [] by {
        assert perRoot[1..][1..] == [];
        assert Flatten(perRoot[1..]) == perRoot[1] + Flatten(perRoot[1..][1..]);
      }
    }
  }
}
