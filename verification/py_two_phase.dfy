/**
 * What the two passes of the Python `rename` (Python/pic.py:139-164,
 * Python/PicUtils.py:137-162) achieve when the random prefix is one no
 * photo starts with: the first pass moves every photo to a name under the
 * random prefix, the sorted re-listing finds them in their original order,
 * and the second pass moves them onto the final names without replacing
 * anything. With the generator as written the prefix is not checked, and
 * the first pass can overwrite a photo (`AsWrittenOverwrites`).
 */
module PyTwoPhase {
  import opened Wrappers
  import opened Text
  import opened Order
  import opened Fs
  import opened PyNames
  import opened PyRename

  /**
   * A random prefix that keeps the first pass off every existing entry: no
   * photo starts with it (what `create_random_prefix` promises) and no
   * directory does either.
   */
  ghost predicate SafeRandomPrefix(d: Dir, script: Script, randomPrefix: string)
  {
    && randomPrefix != ""
    && Unused(PhotosOf(d, script), randomPrefix)
    && (forall name :: name in d && d[name].isDir ==> !StartsWith(name, randomPrefix))
  }

  /** Every name has one of the photo extensions. */
  predicate PhotoNames(script: Script, photos: seq<string>)
  {
    forall k :: 0 <= k < |photos| ==> Extension(script, photos[k]) in PhotoExtensions
  }

  lemma ListedArePhotos(d: Dir, script: Script)
    ensures PhotoNames(script, PhotosOf(d, script))
    ensures forall k :: 0 <= k < |PhotosOf(d, script)| ==> IsPhotoOrVideo(d, script, PhotosOf(d, script)[k])
  {
    var photos := PhotosOf(d, script);
    forall k | 0 <= k < |photos| ensures IsPhotoOrVideo(d, script, photos[k]) {
      assert photos[k] in photos;
    }
  }

  /** A target keeps its photo's extension. */
  lemma TargetExtension(script: Script, photos: seq<string>, prefix: string, index: int, k: nat)
    requires PhotoNames(script, photos) && k < |photos|
    ensures Extension(script, RenameTargets(script, photos, prefix, index)[k]) == Extension(script, photos[k])
  {
    PhotoExtensionShape(Extension(script, photos[k]));
    NewFilenameKeepsExtension(script, photos[k], prefix, index + k);
  }

  /** The k-th target, with its index `n = index + k` named. */
  lemma TargetAt(script: Script, photos: seq<string>, prefix: string, index: int, k: nat, n: int)
    requires k < |photos| && n == index + k
    ensures RenameTargets(script, photos, prefix, index)[k] == NewFilename(script, photos[k], prefix, n)
  {
    RenameTargetAt(script, photos, prefix, index, k);
    SameIndexSameName(script, photos[k], prefix, index + k, n);
  }

  lemma SameIndexSameName(script: Script, o: string, prefix: string, m: int, n: int)
    requires m == n
    ensures NewFilename(script, o, prefix, m) == NewFilename(script, o, prefix, n)
  {
  }

  /**
   * Targets at different positions differ, under the same prefix or two
   * different ones, while the indices stay within 0..9999.
   */
  lemma TargetsApart(script: Script, photos: seq<string>, p1: string, p2: string, index: int, i: nat, j: nat)
    requires PhotoNames(script, photos) && 0 <= index && index + |photos| <= 10000
    requires i < |photos| && j < |photos| && i != j
    ensures RenameTargets(script, photos, p1, index)[i] != RenameTargets(script, photos, p2, index)[j]
  {
    var a, b := index + i, index + j;
    assert 0 <= a <= 9999 && 0 <= b <= 9999 && a != b;
    TargetAt(script, photos, p1, index, i, a);
    TargetAt(script, photos, p2, index, j, b);
    PhotoExtensionShape(Extension(script, photos[i]));
    PhotoExtensionShape(Extension(script, photos[j]));
    NewFilenameIndexApart(script, photos[i], photos[j], p1, p2, a, b);
  }

  lemma TargetsNoDup(script: Script, photos: seq<string>, prefix: string, index: int)
    requires PhotoNames(script, photos) && 0 <= index && index + |photos| <= 10000
    ensures NoDup(RenameTargets(script, photos, prefix, index))
  {
    var t := RenameTargets(script, photos, prefix, index);
    forall i, j | 0 <= i < j < |t| ensures t[i] != t[j] {
      TargetsApart(script, photos, prefix, prefix, index, i, j);
    }
  }

  /** A first-pass name that is already a plain file would be a photo starting with the random prefix. */
  lemma MiddleAbsent(d: Dir, script: Script, randomPrefix: string, index: int, k: nat)
    requires SafeRandomPrefix(d, script, randomPrefix)
    requires k < |PhotosOf(d, script)|
    ensures RenameTargets(script, PhotosOf(d, script), randomPrefix, index)[k] !in d
  {
    var photos := PhotosOf(d, script);
    var name := RenameTargets(script, photos, randomPrefix, index)[k];
    ListedArePhotos(d, script);
    TargetExtension(script, photos, randomPrefix, index, k);
    TargetStartsWithPrefix(script, photos, randomPrefix, index, k);
    if name in d {
      assert IsPhotoOrVideo(d, script, name);
      assert false;
    }
  }

  /** The first pass is a safe plan whose targets are all absent from the directory. */
  lemma PhaseOneSafe(d: Dir, script: Script, randomPrefix: string, index: int)
    requires SafeRandomPrefix(d, script, randomPrefix)
    requires 0 <= index && index + |PhotosOf(d, script)| <= 10000
    ensures var photos := PhotosOf(d, script);
      var middle := RenameTargets(script, photos, randomPrefix, index);
      && SafePlan(d, photos, middle)
      && forall k :: 0 <= k < |middle| ==> middle[k] !in d
  {
    var photos := PhotosOf(d, script);
    var middle := RenameTargets(script, photos, randomPrefix, index);
    ListedArePhotos(d, script);
    TargetsNoDup(script, photos, randomPrefix, index);
    forall k | 0 <= k < |middle| ensures middle[k] !in d {
      MiddleAbsent(d, script, randomPrefix, index, k);
    }
  }

  /**
   * First-pass names sort in index order: they share the prefix and the
   * underscore, and their four index digits differ before the extensions.
   */
  lemma PhaseOneNamesSorted(script: Script, photos: seq<string>, randomPrefix: string, index: int)
    requires randomPrefix != "" && 0 <= index && index + |photos| <= 10000
    ensures StrictlySorted(RenameTargets(script, photos, randomPrefix, index))
  {
    var middle := RenameTargets(script, photos, randomPrefix, index);
    forall i, j | 0 <= i < j < |middle| ensures Less(middle[i], middle[j]) {
      TargetPairOrdered(script, photos, randomPrefix, index, i, j);
    }
  }

  lemma TargetPairOrdered(script: Script, photos: seq<string>, randomPrefix: string, index: int, i: nat, j: nat)
    requires randomPrefix != "" && 0 <= index && index + |photos| <= 10000 && i < j < |photos|
    ensures Less(RenameTargets(script, photos, randomPrefix, index)[i], RenameTargets(script, photos, randomPrefix, index)[j])
  {
    var a, b := index + i, index + j;
    assert 0 <= a < b <= 9999;
    TargetAt(script, photos, randomPrefix, index, i, a);
    TargetAt(script, photos, randomPrefix, index, j, b);
    NewFilenameOrder(script, photos[i], photos[j], randomPrefix, a, b);
  }

  /** Each first-pass name is a photo afterwards: the same plain file, the same extension. */
  lemma MiddleIsPhoto(d: Dir, d1: Dir, script: Script, randomPrefix: string, index: int, k: nat)
    requires k < |PhotosOf(d, script)|
    requires var photos := PhotosOf(d, script); Moved(d, d1, photos, RenameTargets(script, photos, randomPrefix, index))
    ensures IsPhotoOrVideo(d1, script, RenameTargets(script, PhotosOf(d, script), randomPrefix, index)[k])
  {
    ListedArePhotos(d, script);
    TargetExtension(script, PhotosOf(d, script), randomPrefix, index, k);
  }

  /** After the first pass, `get_photo_files` lists exactly the first-pass names, in their original order. */
  lemma RelistAfterPhaseOne(d: Dir, d1: Dir, script: Script, randomPrefix: string, index: int)
    requires randomPrefix != "" && 0 <= index && index + |PhotosOf(d, script)| <= 10000
    requires var photos := PhotosOf(d, script); Moved(d, d1, photos, RenameTargets(script, photos, randomPrefix, index))
    ensures PhotosOf(d1, script) == RenameTargets(script, PhotosOf(d, script), randomPrefix, index)
  {
    var photos := PhotosOf(d, script);
    var middle := RenameTargets(script, photos, randomPrefix, index);
    PhaseOneNamesSorted(script, photos, randomPrefix, index);
    forall name ensures name in middle <==> name in PhotoSet(d1, script) {
      MiddleMembership(d, d1, script, randomPrefix, index, name);
    }
    SortedNamesUnique(middle, PhotoSet(d1, script));
  }

  lemma MiddleMembership(d: Dir, d1: Dir, script: Script, randomPrefix: string, index: int, name: string)
    requires var photos := PhotosOf(d, script); Moved(d, d1, photos, RenameTargets(script, photos, randomPrefix, index))
    ensures name in RenameTargets(script, PhotosOf(d, script), randomPrefix, index) <==> name in PhotoSet(d1, script)
  {
    var photos := PhotosOf(d, script);
    var middle := RenameTargets(script, photos, randomPrefix, index);
    if name in middle {
      var k :| 0 <= k < |middle| && middle[k] == name;
      MiddleIsPhoto(d, d1, script, randomPrefix, index, k);
    } else if IsPhotoOrVideo(d1, script, name) {
      assert IsPhotoOrVideo(d, script, name);
    }
  }

  /** A final name present after the first pass is the first-pass name of the same photo. */
  lemma FinalTargetFree(d: Dir, d1: Dir, script: Script, newPrefix: string, randomPrefix: string, index: int, k: nat)
    requires 0 <= index && index + |PhotosOf(d, script)| <= 10000 && k < |PhotosOf(d, script)|
    requires var photos := PhotosOf(d, script); Moved(d, d1, photos, RenameTargets(script, photos, randomPrefix, index))
    requires var target := RenameTargets(script, PhotosOf(d, script), newPrefix, index)[k];
      target in d ==> !d[target].isDir
    requires RenameTargets(script, PhotosOf(d, script), newPrefix, index)[k] in d1
    ensures RenameTargets(script, PhotosOf(d, script), newPrefix, index)[k]
         == RenameTargets(script, PhotosOf(d, script), randomPrefix, index)[k]
  {
    var photos := PhotosOf(d, script);
    var middle := RenameTargets(script, photos, randomPrefix, index);
    var target := RenameTargets(script, photos, newPrefix, index)[k];
    ListedArePhotos(d, script);
    TargetExtension(script, photos, newPrefix, index, k);
    if target in middle {
      var j :| 0 <= j < |middle| && middle[j] == target;
      if j != k {
        TargetsApart(script, photos, randomPrefix, newPrefix, index, j, k);
      }
    } else {
      assert IsPhotoOrVideo(d, script, target);
      assert false;
    }
  }

  /**
   * The second pass is a safe plan, provided no final name is taken by a
   * directory (a plain file with such a name is itself a photo and has been
   * moved away by the first pass).
   */
  lemma PhaseTwoSafe(d: Dir, d1: Dir, script: Script, newPrefix: string, randomPrefix: string, index: int)
    requires 0 <= index && index + |PhotosOf(d, script)| <= 10000
    requires var photos := PhotosOf(d, script); Moved(d, d1, photos, RenameTargets(script, photos, randomPrefix, index))
    requires var finals := RenameTargets(script, PhotosOf(d, script), newPrefix, index);
      forall k :: 0 <= k < |finals| && finals[k] in d ==> !d[finals[k]].isDir
    ensures var photos := PhotosOf(d, script);
      SafePlan(d1, RenameTargets(script, photos, randomPrefix, index), RenameTargets(script, photos, newPrefix, index))
  {
    var photos := PhotosOf(d, script);
    var middle := RenameTargets(script, photos, randomPrefix, index);
    var finals := RenameTargets(script, photos, newPrefix, index);
    ListedArePhotos(d, script);
    TargetsNoDup(script, photos, randomPrefix, index);
    TargetsNoDup(script, photos, newPrefix, index);
    forall k | 0 <= k < |finals| && finals[k] in d1 ensures finals[k] == middle[k] {
      FinalTargetFree(d, d1, script, newPrefix, randomPrefix, index, k);
    }
  }

  /** Renaming the first-pass names gives the same final names as renaming the originals. */
  lemma SameFinalTargets(script: Script, photos: seq<string>, newPrefix: string, randomPrefix: string, index: int)
    requires PhotoNames(script, photos)
    ensures RenameTargets(script, RenameTargets(script, photos, randomPrefix, index), newPrefix, index)
         == RenameTargets(script, photos, newPrefix, index)
  {
    var middle := RenameTargets(script, photos, randomPrefix, index);
    forall k | 0 <= k < |photos|
      ensures RenameTargets(script, middle, newPrefix, index)[k] == RenameTargets(script, photos, newPrefix, index)[k]
    {
      TargetExtension(script, photos, randomPrefix, index, k);
    }
  }

  /**
   * The promise of `rename`: with a random prefix no photo or directory
   * starts with, a starting index from 0 with at most 10000 - index photos,
   * and no final name taken by a directory, both passes complete, the k-th
   * photo in name order ends up under `new_filename(photos[k], new_prefix,
   * index + k)`, every other entry is untouched, and the number of entries
   * is unchanged: nothing is overwritten.
   */
  lemma PyTwoPhaseRename(d: Dir, script: Script, newPrefix: string, randomPrefix: string, index: int)
    requires SafeRandomPrefix(d, script, randomPrefix)
    requires 0 <= index && index + |PhotosOf(d, script)| <= 10000
    requires var finals := RenameTargets(script, PhotosOf(d, script), newPrefix, index);
      forall k :: 0 <= k < |finals| && finals[k] in d ==> !d[finals[k]].isDir
    ensures var photos := PhotosOf(d, script);
      var run := RenameSpec(d, script, newPrefix, index, randomPrefix);
      && run.error == None
      && Moved(d, run.dir, photos, RenameTargets(script, photos, newPrefix, index))
      && |run.dir| == |d|
  {
    var photos := PhotosOf(d, script);
    var middle := RenameTargets(script, photos, randomPrefix, index);
    var finals := RenameTargets(script, photos, newPrefix, index);
    ListedArePhotos(d, script);
    PhaseOneSafe(d, script, randomPrefix, index);
    RenameAllCompletes(d, script, randomPrefix, index);
    var d1 := RenameSeq(d, photos, middle).dir;
    RelistAfterPhaseOne(d, d1, script, randomPrefix, index);
    PhaseTwoSafe(d, d1, script, newPrefix, randomPrefix, index);
    SameFinalTargets(script, photos, newPrefix, randomPrefix, index);
    RenameAllCompletes(d1, script, newPrefix, index);
    var d2 := RenameSeq(d1, middle, finals).dir;
    MovedChain(d, d1, d2, photos, middle, finals);
    MovedSize(d, d1, photos, middle);
    MovedSize(d1, d2, middle, finals);
  }

  // ---------------------------------------------------------------------------
  // What goes wrong without the assumptions
  // ---------------------------------------------------------------------------

  /** `get_photo_files` on a directory whose photos, in name order, are `r`. */
  lemma ListingIs(d: Dir, script: Script, r: seq<string>)
    requires StrictlySorted(r)
    requires forall x :: x in r <==> IsPhotoOrVideo(d, script, x)
    ensures PhotosOf(d, script) == r
  {
    SortedNamesUnique(r, PhotoSet(d, script));
  }

  /** The pic.py extension of a `.jpg` name whose stem has no dot or slash. */
  lemma JpgExtension(stem: string, name: string)
    requires stem != [] && '.' !in stem && '/' !in stem && name == stem + ".jpg"
    ensures Extension(Pic, name) == ".jpg"
  {
    var dot := |stem|;
    assert name[dot - 1] == stem[dot - 1];
    forall i | dot < i < |name| ensures name[i] != '.' && name[i] != '/' {
      assert name[i] == ".jpg"[i - dot];
    }
    SplitExtDotAt(name, dot);
    assert name[dot..] == ".jpg";
  }

  /** A `.jpg` plain file is a photo to pic.py. */
  lemma JpgIsPhoto(d: Dir, stem: string, name: string)
    requires stem != [] && '.' !in stem && '/' !in stem && name == stem + ".jpg"
    requires name in d && !d[name].isDir
    ensures IsPhotoOrVideo(d, Pic, name)
  {
    JpgExtension(stem, name);
  }

  /** `new_filename` for a `.jpg` photo, spelled out. */
  lemma JpgTarget(stem: string, original: string, prefix: string, index: int, pad: string, target: string)
    requires stem != [] && '.' !in stem && '/' !in stem && original == stem + ".jpg"
    requires prefix != "" && PyPad4(index) == pad && target == prefix + "_" + pad + ".jpg"
    ensures NewFilename(Pic, original, prefix, index) == target
  {
    JpgExtension(stem, original);
  }

  lemma PadsUsed()
    ensures PyPad4(1) == "0001" && PyPad4(2) == "0002"
  {
    ZeroPad4Width(1);
    ZeroPad4Width(2);
  }

  /** A directory of two photos, listed in name order. */
  lemma ListingOfTwo(d: Dir, script: Script, a: string, b: string)
    requires d.Keys == {a, b} && Less(a, b)
    requires IsPhotoOrVideo(d, script, a) && IsPhotoOrVideo(d, script, b)
    ensures PhotosOf(d, script) == [a, b]
  {
    forall x ensures x in [a, b] <==> IsPhotoOrVideo(d, script, x) {
      assert x in d <==> x == a || x == b;
    }
    ListingIs(d, script, [a, b]);
  }

  /** A directory of one photo. */
  lemma ListingOfOne(d: Dir, script: Script, a: string)
    requires d.Keys == {a} && IsPhotoOrVideo(d, script, a)
    ensures PhotosOf(d, script) == [a]
  {
    forall x ensures x in [a] <==> IsPhotoOrVideo(d, script, x) {
      assert x in d <==> x == a;
    }
    ListingIs(d, script, [a]);
  }

  /** Two targets, spelled out. */
  lemma TargetsOfTwo(script: Script, photos: seq<string>, prefix: string, index: int, next: int, t0: string, t1: string)
    requires |photos| == 2 && next == index + 1
    requires NewFilename(script, photos[0], prefix, index) == t0 && NewFilename(script, photos[1], prefix, next) == t1
    ensures RenameTargets(script, photos, prefix, index) == [t0, t1]
  {
    TargetAt(script, photos, prefix, index, 0, index);
    TargetAt(script, photos, prefix, index, 1, next);
  }

  lemma TargetsOfOne(script: Script, photos: seq<string>, prefix: string, index: int, t0: string)
    requires |photos| == 1 && NewFilename(script, photos[0], prefix, index) == t0
    ensures RenameTargets(script, photos, prefix, index) == [t0]
  {
    TargetAt(script, photos, prefix, index, 0, index);
  }

  /** A pass of two renames that both succeed. */
  lemma PassOfTwo(d: Dir, s0: string, s1: string, t0: string, t1: string, d0: Dir, d1: Dir)
    requires CanRename(d, s0, t0) && d0 == AfterRename(d, s0, t0)
    requires CanRename(d0, s1, t1) && d1 == AfterRename(d0, s1, t1)
    ensures BatchRun(d, [s0, s1], [t0, t1]) == PyRun(d1, None)
  {
    assert [s0, s1][1..] == [s1] && [t0, t1][1..] == [t1];
    assert [s1][1..] == [] && [t1][1..] == [];
    assert RenameSeq(d1, [], []) == Batch(d1, 0);
    assert RenameSeq(d0, [s1], [t1]) == Batch(d1, 1);
    assert RenameSeq(d, [s0, s1], [t0, t1]) == Batch(d1, 2);
  }

  lemma PassOfOne(d: Dir, s0: string, t0: string, d1: Dir)
    requires CanRename(d, s0, t0) && d1 == AfterRename(d, s0, t0)
    ensures BatchRun(d, [s0], [t0]) == PyRun(d1, None)
  {
    assert [s0][1..] == [] && [t0][1..] == [];
    assert RenameSeq(d1, [], []) == Batch(d1, 0);
    assert RenameSeq(d, [s0], [t0]) == Batch(d1, 1);
  }

  /** `rename` is its two passes, when the first one completes. */
  lemma TwoPasses(d: Dir, script: Script, newPrefix: string, index: int, randomPrefix: string, d1: Dir, run: PyRun)
    requires RenameAllSpec(d, script, randomPrefix, index) == PyRun(d1, None)
    requires RenameAllSpec(d1, script, newPrefix, index) == run
    ensures RenameSpec(d, script, newPrefix, index, randomPrefix) == run
  {
  }

  /**
   * With the generator as written, the random prefix is the first draw even
   * when a photo starts with it. Here the first pass renames `A.jpg` onto
   * the existing photo `aBcDeF_0001.jpg`, which is lost: both passes report
   * no error and one file is left.
   */
  lemma AsWrittenOverwrites()
    ensures var d := map["A.jpg" := Entry(1, false), "aBcDeF_0001.jpg" := Entry(2, false)];
      && !Unused(PhotosOf(d, Pic), "aBcDeF")
      && RenameSpec(d, Pic, "x", 1, "aBcDeF") == PyRun(map["x_0001.jpg" := Entry(1, false)], None)
  {
    var d := map["A.jpg" := Entry(1, false), "aBcDeF_0001.jpg" := Entry(2, false)];
    var d1 := map["aBcDeF_0002.jpg" := Entry(1, false)];
    OverwritingListing(d);
    PrefixTaken();
    OverwritingPass(d, d1);
    SecondPassAfterOverwrite(d1);
    TwoPasses(d, Pic, "x", 1, "aBcDeF", d1, PyRun(map["x_0001.jpg" := Entry(1, false)], None));
  }

  lemma PrefixTaken()
    ensures !Unused(["A.jpg", "aBcDeF_0001.jpg"], "aBcDeF")
  {
    var photos := ["A.jpg", "aBcDeF_0001.jpg"];
    assert photos[1][..6] == "aBcDeF";
    assert StartsWith(photos[1], "aBcDeF");
  }

  /** The first pass: `A.jpg` replaces `aBcDeF_0001.jpg`, which then moves on to `aBcDeF_0002.jpg`. */
  lemma OverwritingPass(d: Dir, d1: Dir)
    requires d == map["A.jpg" := Entry(1, false), "aBcDeF_0001.jpg" := Entry(2, false)]
    requires d1 == map["aBcDeF_0002.jpg" := Entry(1, false)]
    ensures RenameAllSpec(d, Pic, "aBcDeF", 1) == PyRun(d1, None)
  {
    var photos := ["A.jpg", "aBcDeF_0001.jpg"];
    var middle := ["aBcDeF_0001.jpg", "aBcDeF_0002.jpg"];
    OverwritingListing(d);
    OverwritingTargets(photos, middle);
    var d0 := map["aBcDeF_0001.jpg" := Entry(1, false)];
    OverwritingRenames(d, d0, d1);
    PassOfTwo(d, "A.jpg", "aBcDeF_0001.jpg", "aBcDeF_0001.jpg", "aBcDeF_0002.jpg", d0, d1);
  }

  lemma OverwritingRenames(d: Dir, d0: Dir, d1: Dir)
    requires d == map["A.jpg" := Entry(1, false), "aBcDeF_0001.jpg" := Entry(2, false)]
    requires d0 == map["aBcDeF_0001.jpg" := Entry(1, false)]
    requires d1 == map["aBcDeF_0002.jpg" := Entry(1, false)]
    ensures CanRename(d, "A.jpg", "aBcDeF_0001.jpg") && d0 == AfterRename(d, "A.jpg", "aBcDeF_0001.jpg")
    ensures CanRename(d0, "aBcDeF_0001.jpg", "aBcDeF_0002.jpg") && d1 == AfterRename(d0, "aBcDeF_0001.jpg", "aBcDeF_0002.jpg")
  {
    assert AfterRename(d, "A.jpg", "aBcDeF_0001.jpg") == d0;
    assert AfterRename(d0, "aBcDeF_0001.jpg", "aBcDeF_0002.jpg") == d1;
  }

  lemma OverwritingListing(d: Dir)
    requires d == map["A.jpg" := Entry(1, false), "aBcDeF_0001.jpg" := Entry(2, false)]
    ensures PhotosOf(d, Pic) == ["A.jpg", "aBcDeF_0001.jpg"]
  {
    JpgIsPhoto(d, "A", "A.jpg");
    JpgIsPhoto(d, "aBcDeF_0001", "aBcDeF_0001.jpg");
    assert Less("A.jpg", "aBcDeF_0001.jpg");
    assert d.Keys == {"A.jpg", "aBcDeF_0001.jpg"};
    ListingOfTwo(d, Pic, "A.jpg", "aBcDeF_0001.jpg");
  }

  lemma OverwritingTargets(photos: seq<string>, middle: seq<string>)
    requires photos == ["A.jpg", "aBcDeF_0001.jpg"] && middle == ["aBcDeF_0001.jpg", "aBcDeF_0002.jpg"]
    ensures RenameTargets(Pic, photos, "aBcDeF", 1) == middle
  {
    FirstTargetOfA();
    FirstTargetOfB();
    TargetsOfTwo(Pic, photos, "aBcDeF", 1, 2, "aBcDeF_0001.jpg", "aBcDeF_0002.jpg");
  }

  lemma FirstTargetOfA()
    ensures NewFilename(Pic, "A.jpg", "aBcDeF", 1) == "aBcDeF_0001.jpg"
  {
    PadsUsed();
    JpgTarget("A", "A.jpg", "aBcDeF", 1, "0001", "aBcDeF_0001.jpg");
  }

  lemma FirstTargetOfB()
    ensures NewFilename(Pic, "aBcDeF_0001.jpg", "aBcDeF", 2) == "aBcDeF_0002.jpg"
  {
    PadsUsed();
    JpgTarget("aBcDeF_0001", "aBcDeF_0001.jpg", "aBcDeF", 2, "0002", "aBcDeF_0002.jpg");
  }

  lemma FinalTargetOfA()
    ensures NewFilename(Pic, "aBcDeF_0002.jpg", "x", 1) == "x_0001.jpg"
  {
    PadsUsed();
    JpgTarget("aBcDeF_0002", "aBcDeF_0002.jpg", "x", 1, "0001", "x_0001.jpg");
  }

  /** The second pass moves the one remaining photo to `x_0001.jpg`. */
  lemma SecondPassAfterOverwrite(d1: Dir)
    requires d1 == map["aBcDeF_0002.jpg" := Entry(1, false)]
    ensures RenameAllSpec(d1, Pic, "x", 1) == PyRun(map["x_0001.jpg" := Entry(1, false)], None)
  {
    var photos := ["aBcDeF_0002.jpg"];
    var d2 := map["x_0001.jpg" := Entry(1, false)];
    OneJpgListing(d1, "aBcDeF_0002", "aBcDeF_0002.jpg");
    FinalTargetOfA();
    TargetsOfOne(Pic, photos, "x", 1, "x_0001.jpg");
    assert AfterRename(d1, "aBcDeF_0002.jpg", "x_0001.jpg") == d2;
    PassOfOne(d1, "aBcDeF_0002.jpg", "x_0001.jpg", d2);
  }

  lemma OneJpgListing(d: Dir, stem: string, name: string)
    requires stem != [] && '.' !in stem && '/' !in stem && name == stem + ".jpg"
    requires d == map[name := Entry(1, false)]
    ensures PhotosOf(d, Pic) == [name]
  {
    JpgIsPhoto(d, stem, name);
    assert d.Keys == {name};
    ListingOfOne(d, Pic, name);
  }

  /**
   * Past index 9999 the order is lost. With a prefix no photo starts with,
   * `a.jpg` and `b.jpg` from index 9999 become `R_9999.jpg` and
   * `R_10000.jpg`; the re-listing sorts `R_10000.jpg` first, so `b.jpg`
   * ends up as `x_9999.jpg` and `a.jpg` as `x_10000.jpg`.
   */
  lemma AboveLimitReorders()
    ensures var d := map["a.jpg" := Entry(1, false), "b.jpg" := Entry(2, false)];
      && SafeRandomPrefix(d, Pic, "R")
      && RenameSpec(d, Pic, "x", 9999, "R")
         == PyRun(map["x_9999.jpg" := Entry(2, false), "x_10000.jpg" := Entry(1, false)], None)
  {
    var d := map["a.jpg" := Entry(1, false), "b.jpg" := Entry(2, false)];
    var d1 := map["R_9999.jpg" := Entry(1, false), "R_10000.jpg" := Entry(2, false)];
    AboveLimitListing(d);
    AboveLimitPrefixSafe(d);
    AboveLimitFirstPass(d, d1);
    AboveLimitSecondPass(d1);
    TwoPasses(d, Pic, "x", 9999, "R", d1, PyRun(map["x_9999.jpg" := Entry(2, false), "x_10000.jpg" := Entry(1, false)], None));
  }

  lemma PadsAboveLimit()
    ensures PyPad4(9999) == "9999" && PyPad4(10000) == "10000"
  {
    ZeroPad4Width(9999);
    assert NumDigits(10000) == 5;
  }

  lemma AboveLimitListing(d: Dir)
    requires d == map["a.jpg" := Entry(1, false), "b.jpg" := Entry(2, false)]
    ensures PhotosOf(d, Pic) == ["a.jpg", "b.jpg"]
  {
    JpgIsPhoto(d, "a", "a.jpg");
    JpgIsPhoto(d, "b", "b.jpg");
    assert Less("a.jpg", "b.jpg");
    assert d.Keys == {"a.jpg", "b.jpg"};
    ListingOfTwo(d, Pic, "a.jpg", "b.jpg");
  }

  lemma AboveLimitPrefixSafe(d: Dir)
    requires d == map["a.jpg" := Entry(1, false), "b.jpg" := Entry(2, false)]
    requires PhotosOf(d, Pic) == ["a.jpg", "b.jpg"]
    ensures SafeRandomPrefix(d, Pic, "R")
  {
    var photos := ["a.jpg", "b.jpg"];
    assert photos[0][..1] != "R" && photos[1][..1] != "R";
  }

  lemma AboveLimitFirstPass(d: Dir, d1: Dir)
    requires d == map["a.jpg" := Entry(1, false), "b.jpg" := Entry(2, false)]
    requires d1 == map["R_9999.jpg" := Entry(1, false), "R_10000.jpg" := Entry(2, false)]
    ensures RenameAllSpec(d, Pic, "R", 9999) == PyRun(d1, None)
  {
    var d0 := map["R_9999.jpg" := Entry(1, false), "b.jpg" := Entry(2, false)];
    AboveLimitListing(d);
    AboveLimitFirstTargets();
    AboveLimitFirstRenames(d, d0, d1);
    PassOfTwo(d, "a.jpg", "b.jpg", "R_9999.jpg", "R_10000.jpg", d0, d1);
  }

  lemma AboveLimitFirstTargets()
    ensures RenameTargets(Pic, ["a.jpg", "b.jpg"], "R", 9999) == ["R_9999.jpg", "R_10000.jpg"]
  {
    TargetUnderR();
    TargetUnderRAbove();
    TargetsOfTwo(Pic, ["a.jpg", "b.jpg"], "R", 9999, 10000, "R_9999.jpg", "R_10000.jpg");
  }

  lemma TargetUnderR()
    ensures NewFilename(Pic, "a.jpg", "R", 9999) == "R_9999.jpg"
  {
    PadsAboveLimit();
    JpgTarget("a", "a.jpg", "R", 9999, "9999", "R_9999.jpg");
  }

  lemma TargetUnderRAbove()
    ensures NewFilename(Pic, "b.jpg", "R", 10000) == "R_10000.jpg"
  {
    PadsAboveLimit();
    JpgTarget("b", "b.jpg", "R", 10000, "10000", "R_10000.jpg");
  }

  lemma AboveLimitFirstRenames(d: Dir, d0: Dir, d1: Dir)
    requires d == map["a.jpg" := Entry(1, false), "b.jpg" := Entry(2, false)]
    requires d0 == map["R_9999.jpg" := Entry(1, false), "b.jpg" := Entry(2, false)]
    requires d1 == map["R_9999.jpg" := Entry(1, false), "R_10000.jpg" := Entry(2, false)]
    ensures CanRename(d, "a.jpg", "R_9999.jpg") && d0 == AfterRename(d, "a.jpg", "R_9999.jpg")
    ensures CanRename(d0, "b.jpg", "R_10000.jpg") && d1 == AfterRename(d0, "b.jpg", "R_10000.jpg")
  {
    assert AfterRename(d, "a.jpg", "R_9999.jpg") == d0;
    assert AfterRename(d0, "b.jpg", "R_10000.jpg") == d1;
  }

  lemma AboveLimitRelist(d1: Dir)
    requires d1 == map["R_9999.jpg" := Entry(1, false), "R_10000.jpg" := Entry(2, false)]
    ensures PhotosOf(d1, Pic) == ["R_10000.jpg", "R_9999.jpg"]
  {
    JpgIsPhoto(d1, "R_9999", "R_9999.jpg");
    JpgIsPhoto(d1, "R_10000", "R_10000.jpg");
    assert Less("R_10000.jpg", "R_9999.jpg");
    assert d1.Keys == {"R_10000.jpg", "R_9999.jpg"};
    ListingOfTwo(d1, Pic, "R_10000.jpg", "R_9999.jpg");
  }

  lemma AboveLimitSecondPass(d1: Dir)
    requires d1 == map["R_9999.jpg" := Entry(1, false), "R_10000.jpg" := Entry(2, false)]
    ensures RenameAllSpec(d1, Pic, "x", 9999)
         == PyRun(map["x_9999.jpg" := Entry(2, false), "x_10000.jpg" := Entry(1, false)], None)
  {
    var d2 := map["x_9999.jpg" := Entry(2, false), "x_10000.jpg" := Entry(1, false)];
    var d0 := map["R_9999.jpg" := Entry(1, false), "x_9999.jpg" := Entry(2, false)];
    AboveLimitRelist(d1);
    AboveLimitSecondTargets();
    AboveLimitSecondRenames(d1, d0, d2);
    PassOfTwo(d1, "R_10000.jpg", "R_9999.jpg", "x_9999.jpg", "x_10000.jpg", d0, d2);
  }

  lemma AboveLimitSecondTargets()
    ensures RenameTargets(Pic, ["R_10000.jpg", "R_9999.jpg"], "x", 9999) == ["x_9999.jpg", "x_10000.jpg"]
  {
    FinalOfSecond();
    FinalOfFirst();
    TargetsOfTwo(Pic, ["R_10000.jpg", "R_9999.jpg"], "x", 9999, 10000, "x_9999.jpg", "x_10000.jpg");
  }

  lemma FinalOfSecond()
    ensures NewFilename(Pic, "R_10000.jpg", "x", 9999) == "x_9999.jpg"
  {
    PadsAboveLimit();
    JpgTarget("R_10000", "R_10000.jpg", "x", 9999, "9999", "x_9999.jpg");
  }

  lemma FinalOfFirst()
    ensures NewFilename(Pic, "R_9999.jpg", "x", 10000) == "x_10000.jpg"
  {
    PadsAboveLimit();
    JpgTarget("R_9999", "R_9999.jpg", "x", 10000, "10000", "x_10000.jpg");
  }

  lemma AboveLimitSecondRenames(d1: Dir, d0: Dir, d2: Dir)
    requires d1 == map["R_9999.jpg" := Entry(1, false), "R_10000.jpg" := Entry(2, false)]
    requires d0 == map["R_9999.jpg" := Entry(1, false), "x_9999.jpg" := Entry(2, false)]
    requires d2 == map["x_9999.jpg" := Entry(2, false), "x_10000.jpg" := Entry(1, false)]
    ensures CanRename(d1, "R_10000.jpg", "x_9999.jpg") && d0 == AfterRename(d1, "R_10000.jpg", "x_9999.jpg")
    ensures CanRename(d0, "R_9999.jpg", "x_10000.jpg") && d2 == AfterRename(d0, "R_9999.jpg", "x_10000.jpg")
  {
    assert AfterRename(d1, "R_10000.jpg", "x_9999.jpg") == d0;
    assert AfterRename(d0, "R_9999.jpg", "x_10000.jpg") == d2;
  }
}
