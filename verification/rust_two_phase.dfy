/**
 * Why the Rust `rename` (rust/src/main.rs:150-172) never overwrites a file:
 * phase one moves every image to names under a fresh random prefix, the
 * sorted re-listing finds them in the original order, and phase two moves
 * them onto the final names, none of which is occupied by anything else.
 */
module RustTwoPhase {
  import opened Text
  import opened Order
  import opened Fs
  import opened RustNames
  import opened RustRename

  /**
   * What `_generate_random_prefix` is assumed to deliver: six ASCII
   * alphanumerics that no entry of the directory starts with.
   */
  ghost predicate FreshPrefix(d: Dir, randPrefix: string)
  {
    && |randPrefix| == PrefixLength
    && (forall i :: 0 <= i < |randPrefix| ==> IsAlphanumeric(randPrefix[i]))
    && (forall name :: name in d ==> !StartsWith(name, randPrefix))
  }

  predicate NonEmptyNames(files: seq<string>)
  {
    forall k :: 0 <= k < |files| ==> files[k] != []
  }

  lemma ListedAreImages(d: Dir)
    ensures NonEmptyNames(ImagesOf(d))
    ensures forall k :: 0 <= k < |ImagesOf(d)| ==> IsImageEntry(d, ImagesOf(d)[k])
  {
    var files := ImagesOf(d);
    forall k | 0 <= k < |files| ensures IsImageEntry(d, files[k]) && files[k] != [] {
      assert files[k] in files;
      ImageExtensionIsWord(files[k]);
    }
  }

  /** For an image, `rename_image` targets the canonical form with the image's own extension. */
  lemma ImageTarget(files: seq<string>, newPrefix: string, start: nat, k: nat)
    requires NonEmptyNames(files) && k < |files|
    ensures Targets(files, newPrefix, start)[k] == FormatName(newPrefix, start + k, FileExtension(files[k]))
  {
    TargetsAt(files, newPrefix, start, k);
  }

  /** The targets of a batch of images with indices up to 9999 are pairwise distinct. */
  lemma TargetsDistinct(files: seq<string>, newPrefix: string, start: nat)
    requires NonEmptyNames(files) && start + |files| <= 10000
    ensures NoDup(Targets(files, newPrefix, start))
  {
    var t := Targets(files, newPrefix, start);
    forall i, j | 0 <= i < j < |t| ensures t[i] != t[j] {
      TargetPairDistinct(files, newPrefix, start, i, j);
    }
  }

  lemma TargetPairDistinct(files: seq<string>, newPrefix: string, start: nat, i: nat, j: nat)
    requires NonEmptyNames(files) && start + |files| <= 10000 && i < j < |files|
    ensures Targets(files, newPrefix, start)[i] != Targets(files, newPrefix, start)[j]
  {
    var a, b := start + i, start + j;
    assert a < b <= 9999;
    FormatNameIndexDiffers(newPrefix, a, FileExtension(files[i]), newPrefix, b, FileExtension(files[j]));
    ImageTarget(files, newPrefix, start, i);
    ImageTarget(files, newPrefix, start, j);
  }

  /** Phase one is a safe plan whose targets are all absent from the directory. */
  lemma PhaseOneSafe(d: Dir, randPrefix: string, start: nat)
    requires FreshPrefix(d, randPrefix) && start + |ImagesOf(d)| <= 10000
    ensures var files := ImagesOf(d);
      var middle := Targets(files, randPrefix, start);
      && SafePlan(d, files, middle)
      && forall k :: 0 <= k < |middle| ==> middle[k] !in d
  {
    var files := ImagesOf(d);
    var middle := Targets(files, randPrefix, start);
    ListedAreImages(d);
    TargetsDistinct(files, randPrefix, start);
    forall k | 0 <= k < |middle| ensures middle[k] !in d {
      ImageTarget(files, randPrefix, start, k);
      FormatNameParts(randPrefix, start + k, FileExtension(files[k]));
    }
  }

  /**
   * Phase-one names sort in index order: they share the prefix and an
   * underscore, and their four index digits differ before the extensions.
   */
  lemma PhaseOneNamesSorted(files: seq<string>, randPrefix: string, start: nat)
    requires NonEmptyNames(files) && start + |files| <= 10000
    ensures StrictlySorted(Targets(files, randPrefix, start))
  {
    var middle := Targets(files, randPrefix, start);
    forall i, j | 0 <= i < j < |middle| ensures Less(middle[i], middle[j]) {
      TargetPairOrdered(files, randPrefix, start, i, j);
    }
  }

  lemma TargetPairOrdered(files: seq<string>, randPrefix: string, start: nat, i: nat, j: nat)
    requires NonEmptyNames(files) && start + |files| <= 10000 && i < j < |files|
    ensures Less(Targets(files, randPrefix, start)[i], Targets(files, randPrefix, start)[j])
  {
    var a, b := start + i, start + j;
    assert a < b <= 9999;
    FormatNameOrder(randPrefix, a, FileExtension(files[i]), b, FileExtension(files[j]));
    ImageTarget(files, randPrefix, start, i);
    ImageTarget(files, randPrefix, start, j);
  }

  /** Each phase-one name is an image entry afterwards: same entry, same extension. */
  lemma MiddleIsImage(d: Dir, d1: Dir, randPrefix: string, start: nat, k: nat)
    requires start + |ImagesOf(d)| <= 10000 && k < |ImagesOf(d)|
    requires Moved(d, d1, ImagesOf(d), Targets(ImagesOf(d), randPrefix, start))
    ensures IsImageEntry(d1, Targets(ImagesOf(d), randPrefix, start)[k])
  {
    var files := ImagesOf(d);
    ListedAreImages(d);
    ImageTarget(files, randPrefix, start, k);
    FormatNameExtension(randPrefix, start + k, FileExtension(files[k]));
  }

  /** An image entry after phase one is one of the phase-one names. */
  lemma OnlyMiddleImages(d: Dir, d1: Dir, randPrefix: string, start: nat, name: string)
    requires start + |ImagesOf(d)| <= 10000
    requires Moved(d, d1, ImagesOf(d), Targets(ImagesOf(d), randPrefix, start))
    requires IsImageEntry(d1, name)
    ensures name in Targets(ImagesOf(d), randPrefix, start)
  {
  }

  /** After phase one, `_get_images` lists exactly the phase-one names, in their original order. */
  lemma RelistAfterPhaseOne(d: Dir, d1: Dir, randPrefix: string, start: nat)
    requires start + |ImagesOf(d)| <= 10000
    requires Moved(d, d1, ImagesOf(d), Targets(ImagesOf(d), randPrefix, start))
    ensures ImagesOf(d1) == Targets(ImagesOf(d), randPrefix, start)
  {
    var files := ImagesOf(d);
    var middle := Targets(files, randPrefix, start);
    ListedAreImages(d);
    PhaseOneNamesSorted(files, randPrefix, start);
    forall name ensures name in middle <==> name in ImageSet(d1) {
      MiddleMembership(d, d1, randPrefix, start, name);
    }
    SortedNamesUnique(middle, ImageSet(d1));
  }

  lemma MiddleMembership(d: Dir, d1: Dir, randPrefix: string, start: nat, name: string)
    requires start + |ImagesOf(d)| <= 10000
    requires Moved(d, d1, ImagesOf(d), Targets(ImagesOf(d), randPrefix, start))
    ensures name in Targets(ImagesOf(d), randPrefix, start) <==> name in ImageSet(d1)
  {
    var middle := Targets(ImagesOf(d), randPrefix, start);
    if name in middle {
      var k :| 0 <= k < |middle| && middle[k] == name;
      MiddleIsImage(d, d1, randPrefix, start, k);
    } else if IsImageEntry(d1, name) {
      OnlyMiddleImages(d, d1, randPrefix, start, name);
    }
  }

  /** A final name present after phase one is the phase-one name of the same file. */
  lemma FinalTargetFree(d: Dir, d1: Dir, newPrefix: string, randPrefix: string, start: nat, k: nat)
    requires start + |ImagesOf(d)| <= 10000 && k < |ImagesOf(d)|
    requires Moved(d, d1, ImagesOf(d), Targets(ImagesOf(d), randPrefix, start))
    requires var target := Targets(ImagesOf(d), newPrefix, start)[k];
      target in d ==> !d[target].isDir
    requires Targets(ImagesOf(d), newPrefix, start)[k] in d1
    ensures Targets(ImagesOf(d), newPrefix, start)[k] == Targets(ImagesOf(d), randPrefix, start)[k]
  {
    var files := ImagesOf(d);
    var middle := Targets(files, randPrefix, start);
    var target := Targets(files, newPrefix, start)[k];
    ListedAreImages(d);
    FinalIsImage(files, newPrefix, start, k);
    if target in middle {
      var j :| 0 <= j < |middle| && middle[j] == target;
      if j != k {
        MiddleFinalDistinct(files, newPrefix, randPrefix, start, j, k);
      }
    }
  }

  lemma FinalIsImage(files: seq<string>, newPrefix: string, start: nat, k: nat)
    requires NonEmptyNames(files) && k < |files| && IsImage(files[k])
    ensures IsImage(Targets(files, newPrefix, start)[k])
  {
    ImageTarget(files, newPrefix, start, k);
    FormatNameExtension(newPrefix, start + k, FileExtension(files[k]));
  }

  lemma MiddleFinalDistinct(files: seq<string>, newPrefix: string, randPrefix: string, start: nat, j: nat, k: nat)
    requires NonEmptyNames(files) && start + |files| <= 10000 && j < |files| && k < |files| && j != k
    ensures Targets(files, randPrefix, start)[j] != Targets(files, newPrefix, start)[k]
  {
    var a, b := start + j, start + k;
    assert a <= 9999 && b <= 9999 && a != b;
    FormatNameIndexDiffers(randPrefix, a, FileExtension(files[j]), newPrefix, b, FileExtension(files[k]));
    ImageTarget(files, randPrefix, start, j);
    ImageTarget(files, newPrefix, start, k);
  }

  /**
   * Phase two is a safe plan, provided no final name is taken by a
   * directory (a plain file with such a name is itself an image and has
   * been moved away in phase one).
   */
  lemma PhaseTwoSafe(d: Dir, d1: Dir, newPrefix: string, randPrefix: string, start: nat)
    requires start + |ImagesOf(d)| <= 10000
    requires Moved(d, d1, ImagesOf(d), Targets(ImagesOf(d), randPrefix, start))
    requires var finals := Targets(ImagesOf(d), newPrefix, start);
      forall k :: 0 <= k < |finals| && finals[k] in d ==> !d[finals[k]].isDir
    ensures SafePlan(d1, Targets(ImagesOf(d), randPrefix, start), Targets(ImagesOf(d), newPrefix, start))
  {
    var files := ImagesOf(d);
    var middle := Targets(files, randPrefix, start);
    var finals := Targets(files, newPrefix, start);
    ListedAreImages(d);
    TargetsDistinct(files, randPrefix, start);
    TargetsDistinct(files, newPrefix, start);
    forall k | 0 <= k < |finals| && finals[k] in d1 ensures finals[k] == middle[k] {
      FinalTargetFree(d, d1, newPrefix, randPrefix, start, k);
    }
  }

  /** Renaming the phase-one names gives the same final names as renaming the originals. */
  lemma SameFinalTargets(files: seq<string>, newPrefix: string, randPrefix: string, start: nat, k: nat)
    requires NonEmptyNames(files) && k < |files|
    ensures Targets(Targets(files, randPrefix, start), newPrefix, start)[k] == Targets(files, newPrefix, start)[k]
  {
    var middle := Targets(files, randPrefix, start);
    ImageTarget(files, randPrefix, start, k);
    ImageTarget(files, newPrefix, start, k);
    TargetsAt(middle, newPrefix, start, k);
    FormatNameExtension(randPrefix, start + k, FileExtension(files[k]));
  }

  lemma SameFinalTargetsAll(files: seq<string>, newPrefix: string, randPrefix: string, start: nat)
    requires NonEmptyNames(files)
    ensures Targets(Targets(files, randPrefix, start), newPrefix, start) == Targets(files, newPrefix, start)
  {
    forall k | 0 <= k < |files|
      ensures Targets(Targets(files, randPrefix, start), newPrefix, start)[k] == Targets(files, newPrefix, start)[k]
    {
      SameFinalTargets(files, newPrefix, randPrefix, start, k);
    }
  }

  /**
   * The promise of `rename`: with a fresh random prefix, a valid starting
   * index, at most 10000 - start images and no final name taken by a
   * directory, the run completes, the entry of the original k-th image ends
   * up under the k-th final name (which `ImageTarget` spells out as
   * `<new prefix>_<start + k as four digits>.<its extension>`), every other
   * entry is untouched, and the number of entries is unchanged: nothing is
   * overwritten.
   */
  lemma TwoPhaseRename(d: Dir, newPrefix: string, randPrefix: string, startingIndex: string)
    requires FreshPrefix(d, randPrefix)
    requires ParseU32(startingIndex).Some?
    requires ParseU32(startingIndex).value + |ImagesOf(d)| <= 10000
    requires var finals := Targets(ImagesOf(d), newPrefix, ParseU32(startingIndex).value);
      forall k :: 0 <= k < |finals| && finals[k] in d ==> !d[finals[k]].isDir
    ensures var files, start := ImagesOf(d), ParseU32(startingIndex).value;
      var run := RenameSpec(d, newPrefix, randPrefix, startingIndex);
      && run.Completed?
      && Moved(d, run.dir, files, Targets(files, newPrefix, start))
      && |run.dir| == |d|
  {
    var files, start := ImagesOf(d), ParseU32(startingIndex).value;
    var middle := Targets(files, randPrefix, start);
    var finals := Targets(files, newPrefix, start);
    ListedAreImages(d);
    PhaseOneSafe(d, randPrefix, start);
    RenameAllCompletes(d, files, randPrefix, start);
    var d1 := RenameSeq(d, files, middle).dir;
    RelistAfterPhaseOne(d, d1, randPrefix, start);
    PhaseTwoSafe(d, d1, newPrefix, randPrefix, start);
    SameFinalTargetsAll(files, newPrefix, randPrefix, start);
    RenameAllCompletes(d1, middle, newPrefix, start);
    var d2 := RenameSeq(d1, middle, finals).dir;
    MovedChain(d, d1, d2, files, middle, finals);
    MovedSize(d, d1, files, middle);
    MovedSize(d1, d2, middle, finals);
    RenameSpecCompletes(d, d1, d2, newPrefix, randPrefix, startingIndex);
  }

  lemma RenameSpecCompletes(d: Dir, d1: Dir, d2: Dir, newPrefix: string, randPrefix: string, startingIndex: string)
    requires ParseU32(startingIndex).Some?
    requires var start := ParseU32(startingIndex).value;
      RunBatch(d, ImagesOf(d), Targets(ImagesOf(d), randPrefix, start), start) == Completed(d1)
    requires var start := ParseU32(startingIndex).value;
      RunBatch(d1, ImagesOf(d1), Targets(ImagesOf(d1), newPrefix, start), start) == Completed(d2)
    ensures RenameSpec(d, newPrefix, randPrefix, startingIndex) == Completed(d2)
  {
  }
}
