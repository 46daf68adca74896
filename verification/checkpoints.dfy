/**
 * Checkpoint discovery shared by auto_merge_models.py (`find_model_directories`) and
 * auto_validation.py (`find_merged_models`): the `global_step_*` children of a checkpoint root that
 * hold a marker directory (`actor`, or `actor/huggingface`), returned sorted.
 *
 * The file system is a finite map from paths (lists of components) to what is there.
 */
module Checkpoints {
  import opened Wrappers
  import opened Text
  import opened Order

  type Path = seq<string>

  datatype Kind = Directory | RegularFile

  datatype FileSystem = FileSystem(entries: map<Path, Kind>)

  /** `Path.iterdir()` raises `NotADirectoryError` on a root that exists but is not a directory. */
  datatype ScanError = NotADirectory(path: Path)

  const StepPrefix: string := "global_step_"

  /** The checkpoint roots both `main`s scan (`target_dirs`), relative to the working directory. */
  const TargetRoots: seq<Path> := [
    ["checkpoints", "easy_r1", "qwen2_5_vl_3b_7b_lmms_scienceqa"],
    ["checkpoints", "easy_r1", "qwen2_5_vl_3b_32b_lmms_scienceqa"]
  ]

  /** `p.exists() and p.is_dir()`. */
  predicate IsDirectory(fs: FileSystem, p: Path)
  {
    p in fs.entries && fs.entries[p] == Directory
  }

  /** A root that exists as something other than a directory: scanning it raises. */
  predicate IsNonDirectory(fs: FileSystem, p: Path)
  {
    p in fs.entries && fs.entries[p] != Directory
  }

  /** The names `base.iterdir()` yields. */
  function ChildNames(fs: FileSystem, base: Path): set<string>
  {
    set p | p in fs.entries.Keys && |p| == |base| + 1 && p[..|base|] == base :: p[|base|]
  }

  /** A child the scan keeps: a `global_step_` directory whose marker path is a directory. */
  predicate IsStepDirectory(fs: FileSystem, base: Path, name: string, marker: Path)
  {
    IsDirectory(fs, base + [name]) && StartsWith(name, StepPrefix) && IsDirectory(fs, base + [name] + marker)
  }

  /** The marker paths of the step directories among `names`. */
  function MarkerPaths(fs: FileSystem, base: Path, marker: Path, names: set<string>): set<Path>
  {
    set n | n in names && IsStepDirectory(fs, base, n, marker) :: base + [n] + marker
  }

  /**
   * `listing` is what a scan of `base` returns: nothing for a missing root, otherwise every marker
   * path of a step directory, once, in sorted order.
   */
  ghost predicate IsScanOf(fs: FileSystem, base: Path, marker: Path, listing: seq<Path>)
  {
    if base !in fs.entries then listing == []
    else
      && SortedPaths(listing)
      && forall p :: p in listing <==> p in MarkerPaths(fs, base, marker, ChildNames(fs, base))
  }

  /** The scan has one possible result, whatever order `iterdir()` yields the children in. */
  lemma ScanDeterministic(fs: FileSystem, base: Path, marker: Path, a: seq<Path>, b: seq<Path>)
    requires IsScanOf(fs, base, marker, a) && IsScanOf(fs, base, marker, b)
    ensures a == b
  {
    if base in fs.entries {
      SortedListingUnique(a, b);
    }
  }

  lemma MarkerPathComponent(base: Path, n: string, marker: Path)
    ensures (base + [n] + marker)[|base|] == n
  {
  }

  /**
   * The scan of one root. A missing root yields the empty list; a root that is not a directory
   * raises. The children are visited in whatever order the directory yields them; the result is
   * sorted, so that order does not show.
   */
  method FindStepDirectories(fs: FileSystem, base: Path, marker: Path) returns (r: Result<seq<Path>, ScanError>)
    ensures base !in fs.entries ==> r == Ok([])
    ensures IsNonDirectory(fs, base) ==> r == Err(NotADirectory(base))
    ensures IsDirectory(fs, base) ==> r.Ok?
    ensures r.Ok? ==> IsScanOf(fs, base, marker, r.value)
  {
    if base !in fs.entries {
      return Ok([]);
    }
    if fs.entries[base] != Directory {
      return Err(NotADirectory(base));
    }
    var children := ChildNames(fs, base);
    var pending := children;
    var found: seq<Path> := [];
    while pending != {}
      invariant pending <= children
      invariant forall i, j :: 0 <= i < j < |found| ==> found[i] != found[j]
      invariant forall p :: p in found <==> p in MarkerPaths(fs, base, marker, children - pending)
      decreases pending
    {
      var name :| name in pending;
      if IsStepDirectory(fs, base, name, marker) {
        var p := base + [name] + marker;
        MarkerPathComponent(base, name, marker);
        forall q | q in found ensures q != p {
          var m :| m in children - pending && IsStepDirectory(fs, base, m, marker) && q == base + [m] + marker;
          MarkerPathComponent(base, m, marker);
        }
        forall i | 0 <= i < |found| ensures found[i] != p {
          assert found[i] in found;
        }
        found := found + [p];
      }
      pending := pending - {name};
    }
    assert children - pending == children;
    var sorted := SortPaths(found);
    assert forall p :: p in sorted <==> p in multiset(sorted);
    assert forall p :: p in found <==> p in multiset(found);
    return Ok(sorted);
  }

  function Flatten(lists: seq<seq<Path>>): seq<Path>
  {
    if lists == [] then [] else lists[0] + Flatten(lists[1..])
  }

  lemma FlattenAppendOne(lists: seq<seq<Path>>, last: seq<Path>)
    ensures Flatten(lists + [last]) == Flatten(lists) + last
  {
    if lists != [] {
      assert (lists + [last])[1..] == lists[1..] + [last];
      FlattenAppendOne(lists[1..], last);
    } else {
      assert Flatten([last]) == last + Flatten([]);
    }
  }

  /**
   * The scan loop of both `main`s: every root in turn, results concatenated in root order. The first
   * root that is not a directory raises and ends the whole run.
   */
  method ScanRoots(fs: FileSystem, roots: seq<Path>, marker: Path)
    returns (r: Result<seq<Path>, ScanError>, ghost perRoot: seq<seq<Path>>)
    ensures r.Ok? <==> forall i :: 0 <= i < |roots| ==> !IsNonDirectory(fs, roots[i])
    ensures r.Err? ==> exists i :: 0 <= i < |roots| && IsNonDirectory(fs, roots[i]) && r.error == NotADirectory(roots[i])
    ensures r.Ok? ==> |perRoot| == |roots| && r.value == Flatten(perRoot)
    ensures r.Ok? ==> forall i :: 0 <= i < |roots| ==> IsScanOf(fs, roots[i], marker, perRoot[i])
  {
    var all: seq<Path> := [];
    perRoot := [];
    var i := 0;
    while i < |roots|
      invariant 0 <= i <= |roots|
      invariant |perRoot| == i && all == Flatten(perRoot)
      invariant forall k :: 0 <= k < i ==> !IsNonDirectory(fs, roots[k])
      invariant forall k :: 0 <= k < i ==> IsScanOf(fs, roots[k], marker, perRoot[k])
    {
      var found := FindStepDirectories(fs, roots[i], marker);
      if found.Err? {
        return Err(found.error), perRoot;
      }
      FlattenAppendOne(perRoot, found.value);
      perRoot := perRoot + [found.value];
      all := all + found.value;
      i := i + 1;
    }
    return Ok(all), perRoot;
  }

  /** The lexicographic sort puts step 10 before step 2. */
  lemma StepTenBeforeStepTwo(base: Path, marker: Path)
    ensures PathLess(base + ["global_step_10"] + marker, base + ["global_step_2"] + marker)
  {
    var ten := "global_step_10";
    var two := "global_step_2";
    assert ten[..12] == two[..12];
    assert ten[12] < two[12];
    StrLessAtIndex(ten, two, 12);
    PathLessAtComponent(base, ten, two, marker);
  }

  /** Strings that agree before index `k` and differ there are ordered by that character. */
  lemma {:induction false} StrLessAtIndex(a: string, b: string, k: nat)
    requires k < |a| && k < |b| && a[..k] == b[..k] && a[k] < b[k]
    ensures StrLess(a, b)
  {
    if k > 0 {
      assert a[0] == a[..k][0] && b[0] == b[..k][0];
      assert a[1..][..k - 1] == a[..k][1..];
      assert b[1..][..k - 1] == b[..k][1..];
      StrLessAtIndex(a[1..], b[1..], k - 1);
    }
  }
}
