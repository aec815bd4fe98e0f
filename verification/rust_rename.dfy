/**
 * The rename engine of the Rust implementation (rust/src/main.rs): listing
 * the managed images, renaming a batch to `<prefix>_<index>.<ext>` with
 * consecutive indices, and the two-phase `rename` that first moves every
 * image to a random prefix so that the final pass cannot overwrite anything.
 */
module RustRename {
  import opened Wrappers
  import opened Text
  import opened Order
  import opened Fs
  import opened RustNames

  // ---------------------------------------------------------------------------
  // Listing
  // ---------------------------------------------------------------------------

  /** The entries `_get_images` keeps: plain files with a managed extension. */
  ghost predicate IsImageEntry(d: Dir, name: string)
  {
    name in d && !d[name].isDir && IsImage(name)
  }

  ghost function ImageSet(d: Dir): set<string>
  {
    set name | name in d && IsImageEntry(d, name)
  }

  /** What `_get_images` returns: the image entries in ascending order. */
  ghost function ImagesOf(d: Dir): (r: seq<string>)
    ensures StrictlySorted(r) && NoDup(r)
    ensures forall name :: name in r <==> IsImageEntry(d, name)
  {
    var r := SortedNames(ImageSet(d));
    StrictlySortedNoDup(r);
    r
  }

  /**
   * `_get_images`: walks the directory entries in whatever order the
   * file system yields them, keeps the image entries, then sorts.
   */
  method GetImages(dir: Directory) returns (files: seq<string>)
    ensures files == ImagesOf(dir.entries)
  {
    var d := dir.entries;
    var remaining := d.Keys;
    var found: seq<string> := [];
    while remaining != {}
      invariant remaining <= d.Keys
      invariant forall name :: name in found <==> IsImageEntry(d, name) && name !in remaining
      invariant NoDup(found)
      decreases |remaining|
    {
      var name :| name in remaining;
      if !d[name].isDir && IsImage(name) {
        forall i | 0 <= i < |found| ensures found[i] != name {
          assert found[i] in found;
        }
        found := found + [name];
      }
      remaining := remaining - {name};
    }
    assert forall name :: name in found <==> name in ImageSet(d);
    files := Sort(found);
    SortedPermutationIsListing(found, files, ImageSet(d));
  }

  // ---------------------------------------------------------------------------
  // Renaming a batch
  // ---------------------------------------------------------------------------

  /** The reasons the Rust program panics while renaming. */
  datatype Failure =
    | BadStartingIndex(text: string)
    | IndexOutOfRange(index: nat)
    | RenameFailed(source: string, target: string)

  /** How a run ends, with the directory as it was left. */
  datatype Run = Completed(dir: Dir) | Aborted(dir: Dir, failure: Failure)

  function Outcome(d: Dir, failure: Option<Failure>): Run
  {
    if failure.None? then Completed(d) else Aborted(d, failure.value)
  }

  /** `rename_image` once its target name is computed: range check first, then one rename. */
  function RenameStep(d: Dir, image: string, target: string, index: nat): Run
  {
    if index > 9999 then Aborted(d, IndexOutOfRange(index))
    else if CanRename(d, image, target) then Completed(AfterRename(d, image, target))
    else Aborted(d, RenameFailed(image, target))
  }

  /** The name each file of a batch is renamed to: file k gets index `start + k`. */
  function Targets(files: seq<string>, newPrefix: string, start: nat): (r: seq<string>)
    ensures |r| == |files|
  {
    seq(|files|, k requires 0 <= k < |files| => RenamedTo(files[k], newPrefix, start + k))
  }

  /**
   * The loop of `_rename_all_photos` with its targets computed: each step
   * checks the index, then renames, and the first failure ends the batch.
   */
  function RunBatch(d: Dir, sources: seq<string>, targets: seq<string>, index: nat): Run
    requires |sources| == |targets|
    decreases |sources|
  {
    if sources == [] then Completed(d)
    else
      match RenameStep(d, sources[0], targets[0], index)
      case Aborted(d1, failure) => Aborted(d1, failure)
      case Completed(d1) => RunBatch(d1, sources[1..], targets[1..], index + 1)
  }

  /** `_rename_all_photos`: the starting index is parsed first. */
  function RenameAllSpec(d: Dir, files: seq<string>, newPrefix: string, startingIndex: string): Run
  {
    match ParseU32(startingIndex)
    case None => Aborted(d, BadStartingIndex(startingIndex))
    case Some(start) => RunBatch(d, files, Targets(files, newPrefix, start), start)
  }

  /** `rename`: list, rename to the random prefix, list again, rename to the new prefix. */
  ghost function RenameSpec(d: Dir, newPrefix: string, randPrefix: string, startingIndex: string): Run
  {
    match RenameAllSpec(d, ImagesOf(d), randPrefix, startingIndex)
    case Aborted(d1, failure) => Aborted(d1, failure)
    case Completed(d1) => RenameAllSpec(d1, ImagesOf(d1), newPrefix, startingIndex)
  }

  method RenameImage(dir: Directory, image: string, newPrefix: string, index: nat)
    returns (failure: Option<Failure>)
    modifies dir
    ensures Outcome(dir.entries, failure) == RenameStep(old(dir.entries), image, RenamedTo(image, newPrefix, index), index)
  {
    if index > 9999 {
      return Some(IndexOutOfRange(index));
    }
    var target := RenamedTo(image, newPrefix, index);
    var ok := dir.Rename(image, target);
    failure := if ok then None else Some(RenameFailed(image, target));
  }

  /**
   * `_rename_all_photos`. The source's `u32` counter cannot overflow: an
   * index above 9999 panics before the increment.
   */
  method RenameAllPhotos(dir: Directory, files: seq<string>, newPrefix: string, startingIndex: string)
    returns (failure: Option<Failure>)
    modifies dir
    ensures Outcome(dir.entries, failure) == RenameAllSpec(old(dir.entries), files, newPrefix, startingIndex)
  {
    var parsed := ParseU32(startingIndex);
    if parsed.None? {
      return Some(BadStartingIndex(startingIndex));
    }
    var index := parsed.value;
    ghost var d := dir.entries;
    ghost var targets := Targets(files, newPrefix, index);
    var i := 0;
    while i < |files|
      invariant 0 <= i <= |files|
      invariant index == parsed.value + i
      invariant RunBatch(d, files, targets, parsed.value) == RunBatch(dir.entries, files[i..], targets[i..], index)
    {
      ghost var before := dir.entries;
      failure := RenameImage(dir, files[i], newPrefix, index);
      BatchStep(before, dir.entries, files, targets, newPrefix, parsed.value, i, index, failure);
      if failure.Some? {
        return;
      }
      index := index + 1;
      i := i + 1;
    }
    failure := None;
  }

  /** One image of the batch renamed: the batch ends with its failure, or goes on from the next image. */
  lemma BatchStep(before: Dir, after: Dir, files: seq<string>, targets: seq<string>, newPrefix: string,
                  start: nat, i: nat, index: nat, failure: Option<Failure>)
    requires i < |files| && targets == Targets(files, newPrefix, start) && index == start + i
    requires Outcome(after, failure) == RenameStep(before, files[i], RenamedTo(files[i], newPrefix, index), index)
    ensures RunBatch(before, files[i..], targets[i..], index) ==
      if failure.Some? then Outcome(after, failure) else RunBatch(after, files[i + 1..], targets[i + 1..], index + 1)
  {
    TargetsAt(files, newPrefix, start, i);
    BatchTail(files, targets, i);
    RunBatchStep(before, files[i..], targets[i..], index);
  }

  /** `rename`, with the prompted prefix and index and the random prefix as parameters. */
  method Rename(dir: Directory, newPrefix: string, randPrefix: string, startingIndex: string)
    returns (failure: Option<Failure>)
    modifies dir
    ensures Outcome(dir.entries, failure) == RenameSpec(old(dir.entries), newPrefix, randPrefix, startingIndex)
  {
    var files := GetImages(dir);
    failure := RenameAllPhotos(dir, files, randPrefix, startingIndex);
    if failure.Some? {
      return;
    }
    files := GetImages(dir);
    failure := RenameAllPhotos(dir, files, newPrefix, startingIndex);
  }

  // ---------------------------------------------------------------------------
  // A batch as a plan of renames
  // ---------------------------------------------------------------------------

  lemma TargetsAt(files: seq<string>, newPrefix: string, start: nat, k: nat)
    requires k < |files|
    ensures Targets(files, newPrefix, start)[k] == RenamedTo(files[k], newPrefix, start + k)
  {
  }

  lemma RunBatchStep(d: Dir, sources: seq<string>, targets: seq<string>, index: nat)
    requires |sources| == |targets| && sources != []
    ensures RunBatch(d, sources, targets, index) ==
      match RenameStep(d, sources[0], targets[0], index)
      case Aborted(d1, failure) => Aborted(d1, failure)
      case Completed(d1) => RunBatch(d1, sources[1..], targets[1..], index + 1)
  {
  }

  lemma TargetsConcat(a: seq<string>, b: seq<string>, newPrefix: string, start: nat)
    ensures Targets(a + b, newPrefix, start) == Targets(a, newPrefix, start) + Targets(b, newPrefix, start + |a|)
  {
    var l, r := Targets(a + b, newPrefix, start), Targets(a, newPrefix, start) + Targets(b, newPrefix, start + |a|);
    forall k | 0 <= k < |l| ensures l[k] == r[k] {
      if k >= |a| {
        assert (a + b)[k] == b[k - |a|];
      }
    }
  }

  /**
   * While indices stay within 9999, a batch that starts with a safe plan of
   * renames performs exactly those renames and carries on with the rest.
   */
  lemma {:induction false} RunBatchSplit(d: Dir, sources: seq<string>, targets: seq<string>,
                                         moreSources: seq<string>, moreTargets: seq<string>, start: nat)
    requires |moreSources| == |moreTargets|
    requires sources == [] || start + |sources| <= 10000
    requires SafePlan(d, sources, targets)
    ensures RunBatch(d, sources + moreSources, targets + moreTargets, start)
         == RunBatch(RenameSeq(d, sources, targets).dir, moreSources, moreTargets, start + |sources|)
    decreases |sources|
  {
    if sources == [] {
      assert sources + moreSources == moreSources && targets + moreTargets == moreTargets;
    } else {
      SafePlanStep(d, sources, targets);
      var d1 := AfterRename(d, sources[0], targets[0]);
      ConcatTail(sources, moreSources);
      ConcatTail(targets, moreTargets);
      RunBatchSplit(d1, sources[1..], targets[1..], moreSources, moreTargets, start + 1);
    }
  }

  lemma ConcatTail(a: seq<string>, b: seq<string>)
    requires a != []
    ensures (a + b)[0] == a[0] && (a + b)[1..] == a[1..] + b
  {
  }

  /** A safe batch within the index range completes and moves every file to its target. */
  lemma RenameAllCompletes(d: Dir, files: seq<string>, newPrefix: string, start: nat)
    requires start + |files| <= 10000
    requires SafePlan(d, files, Targets(files, newPrefix, start))
    ensures var targets := Targets(files, newPrefix, start);
      var d2 := RenameSeq(d, files, targets).dir;
      RunBatch(d, files, targets, start) == Completed(d2) && Moved(d, d2, files, targets)
  {
    var targets := Targets(files, newPrefix, start);
    assert files + [] == files && targets + [] == targets;
    RunBatchSplit(d, files, targets, [], [], start);
    SafePlanMoves(d, files, targets);
  }

  /**
   * A batch that runs past index 9999 panics at the first file whose index
   * is out of range: the files before it are renamed, the rest untouched.
   */
  lemma RenameAllAborts(d: Dir, files: seq<string>, newPrefix: string, start: nat)
    requires files != [] && start + |files| > 10000
    requires var m := if start >= 10000 then 0 else 10000 - start;
      SafePlan(d, files[..m], Targets(files[..m], newPrefix, start))
    ensures var m := if start >= 10000 then 0 else 10000 - start;
      var targets := Targets(files[..m], newPrefix, start);
      exists d2 ::
        && RunBatch(d, files, Targets(files, newPrefix, start), start) == Aborted(d2, IndexOutOfRange(start + m))
        && Moved(d, d2, files[..m], targets)
  {
    var m := if start >= 10000 then 0 else 10000 - start;
    var sources, more := files[..m], files[m..];
    var targets := Targets(sources, newPrefix, start);
    var moreTargets := Targets(more, newPrefix, start + m);
    assert files == sources + more;
    TargetsConcat(sources, more, newPrefix, start);
    RunBatchSplit(d, sources, targets, more, moreTargets, start);
    SafePlanMoves(d, sources, targets);
    var d2 := RenameSeq(d, sources, targets).dir;
    assert RunBatch(d2, more, moreTargets, start + m) == Aborted(d2, IndexOutOfRange(start + m));
  }
}
