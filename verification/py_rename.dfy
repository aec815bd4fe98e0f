/**
 * The rename side of the Python scripts (Python/PicUtils.py and
 * Python/pic.py): listing the photos, `rename_all_photos`, the random
 * prefix, and `rename`, which renames every photo twice, first to a random
 * prefix and then to the new one.
 */
module PyRename {
  import opened Wrappers
  import opened Text
  import opened Order
  import opened Fs
  import opened PyNames

  /** The exceptions the scripts let escape, each ending the run. */
  datatype PyError =
    | RenameError(source: string, target: string)
    | MakedirsError(path: string)
    | OpenError(path: string)
    | ValueError(line: string)
    | AttributeError(name: string)
    | CopyError(source: string)

  /** The directory a run leaves, and the exception that ended it, if any. */
  datatype PyRun = PyRun(dir: Dir, error: Option<PyError>)

  // ---------------------------------------------------------------------------
  // Listing
  // ---------------------------------------------------------------------------

  ghost function PhotoSet(d: Dir, script: Script): set<string>
  {
    set name | name in d && IsPhotoOrVideo(d, script, name)
  }

  /** What `get_photo_files` returns: the photos and videos in ascending order. */
  ghost function PhotosOf(d: Dir, script: Script): (r: seq<string>)
    ensures StrictlySorted(r) && NoDup(r)
    ensures forall name :: name in r <==> IsPhotoOrVideo(d, script, name)
  {
    var r := SortedNames(PhotoSet(d, script));
    StrictlySortedNoDup(r);
    r
  }

  /** `get_photo_files`: filter `os.listdir()` in its own order, then sort. */
  method GetPhotoFiles(dir: Directory, script: Script) returns (files: seq<string>)
    ensures files == PhotosOf(dir.entries, script)
  {
    var d := dir.entries;
    var remaining := d.Keys;
    var found: seq<string> := [];
    while remaining != {}
      invariant remaining <= d.Keys
      invariant forall name :: name in found <==> IsPhotoOrVideo(d, script, name) && name !in remaining
      invariant NoDup(found)
      decreases |remaining|
    {
      var name :| name in remaining;
      if IsPhotoOrVideo(d, script, name) {
        forall i | 0 <= i < |found| ensures found[i] != name {
          assert found[i] in found;
        }
        found := found + [name];
      }
      remaining := remaining - {name};
    }
    assert forall name :: name in found <==> name in PhotoSet(d, script);
    files := Sort(found);
    SortedPermutationIsListing(found, files, PhotoSet(d, script));
  }

  // ---------------------------------------------------------------------------
  // `rename_all_photos`
  // ---------------------------------------------------------------------------

  /** The names `rename_all_photos` gives: photo i becomes `new_filename(photos[i], prefix, index + i)`. */
  function RenameTargets(script: Script, photos: seq<string>, prefix: string, index: int): (r: seq<string>)
    ensures |r| == |photos|
  {
    seq(|photos|, i requires 0 <= i < |photos| => NewFilename(script, photos[i], prefix, index + i))
  }

  /** How a batch of renames ends: the first rename that fails raises. */
  function BatchRun(d: Dir, sources: seq<string>, targets: seq<string>): PyRun
    requires |sources| == |targets|
  {
    var b := RenameSeq(d, sources, targets);
    if b.done == |sources| then PyRun(b.dir, None)
    else PyRun(b.dir, Some(RenameError(sources[b.done], targets[b.done])))
  }

  /** `rename_all_photos`: list the photos again, then rename them in order. */
  ghost function RenameAllSpec(d: Dir, script: Script, prefix: string, index: int): PyRun
  {
    var photos := PhotosOf(d, script);
    BatchRun(d, photos, RenameTargets(script, photos, prefix, index))
  }

  method RenameAllPhotos(dir: Directory, script: Script, prefix: string, index: int)
    returns (error: Option<PyError>)
    modifies dir
    ensures PyRun(dir.entries, error) == RenameAllSpec(old(dir.entries), script, prefix, index)
  {
    var photos := GetPhotoFiles(dir, script);
    error := RenamePass(dir, script, photos, prefix, index);
  }

  /** The loop of `rename_all_photos`: rename each photo in turn; the first failure raises. */
  method RenamePass(dir: Directory, script: Script, photos: seq<string>, prefix: string, index: int)
    returns (error: Option<PyError>)
    modifies dir
    ensures PyRun(dir.entries, error) == BatchRun(old(dir.entries), photos, RenameTargets(script, photos, prefix, index))
  {
    ghost var d0 := dir.entries;
    ghost var targets := RenameTargets(script, photos, prefix, index);
    var i := 0;
    while i < |photos|
      invariant 0 <= i <= |photos|
      invariant var b := RenameSeq(dir.entries, photos[i..], targets[i..]);
        RenameSeq(d0, photos, targets) == Batch(b.dir, b.done + i)
    {
      var target := NewFilename(script, photos[i], prefix, index + i);
      ghost var before := dir.entries;
      var ok := dir.Rename(photos[i], target);
      PassStep(before, dir.entries, script, photos, prefix, index, i, ok);
      if !ok {
        assert BatchRun(d0, photos, targets) == PyRun(before, Some(RenameError(photos[i], targets[i])));
        return Some(RenameError(photos[i], target));
      }
      i := i + 1;
    }
    error := None;
  }

  /** One rename of a pass: it fails and ends the batch there, or the batch goes on from the next photo. */
  lemma PassStep(before: Dir, after: Dir, script: Script, photos: seq<string>, prefix: string, index: int,
                 i: nat, ok: bool)
    requires i < |photos|
    requires var target := NewFilename(script, photos[i], prefix, index + i);
      && ok == CanRename(before, photos[i], target)
      && after == if ok then AfterRename(before, photos[i], target) else before
    ensures RenameTargets(script, photos, prefix, index)[i] == NewFilename(script, photos[i], prefix, index + i)
    ensures var targets := RenameTargets(script, photos, prefix, index);
      var b := RenameSeq(before, photos[i..], targets[i..]);
      if ok then
        var c := RenameSeq(after, photos[i + 1..], targets[i + 1..]);
        b == Batch(c.dir, c.done + 1)
      else b == Batch(before, 0)
  {
    var targets := RenameTargets(script, photos, prefix, index);
    assert targets[i] == NewFilename(script, photos[i], prefix, index + i);
    BatchTail(photos, targets, i);
  }

  /**
   * The targets of one pass are pairwise distinct when the prefix is
   * non-empty and every index stays within 0..9999.
   */
  lemma RenameTargetsDistinct(script: Script, photos: seq<string>, prefix: string, index: int)
    requires prefix != "" && 0 <= index && index + |photos| <= 10000
    ensures NoDup(RenameTargets(script, photos, prefix, index))
  {
    var t := RenameTargets(script, photos, prefix, index);
    forall i, j | 0 <= i < j < |t| ensures t[i] != t[j] {
      TargetPairDistinct(script, photos, prefix, index, i, j);
    }
  }

  lemma RenameTargetAt(script: Script, photos: seq<string>, prefix: string, index: int, k: nat)
    requires k < |photos|
    ensures RenameTargets(script, photos, prefix, index)[k] == NewFilename(script, photos[k], prefix, index + k)
  {
  }

  lemma TargetPairDistinct(script: Script, photos: seq<string>, prefix: string, index: int, i: nat, j: nat)
    requires prefix != "" && 0 <= index && index + |photos| <= 10000
    requires i < j < |photos|
    ensures RenameTargets(script, photos, prefix, index)[i] != RenameTargets(script, photos, prefix, index)[j]
  {
    var a, b := index + i, index + j;
    assert 0 <= a <= 9999 && 0 <= b <= 9999 && a != b;
    NewFilenameIndexDiffers(script, photos[i], photos[j], prefix, a, b);
    RenameTargetAt(script, photos, prefix, index, i);
    RenameTargetAt(script, photos, prefix, index, j);
  }

  /** A pass whose renames overwrite nothing completes and moves photo i to its target. */
  lemma RenameAllCompletes(d: Dir, script: Script, prefix: string, index: int)
    requires var photos := PhotosOf(d, script); SafePlan(d, photos, RenameTargets(script, photos, prefix, index))
    ensures var photos := PhotosOf(d, script);
      var targets := RenameTargets(script, photos, prefix, index);
      var run := RenameAllSpec(d, script, prefix, index);
      run.error == None && Moved(d, run.dir, photos, targets)
  {
    var photos := PhotosOf(d, script);
    SafePlanMoves(d, photos, RenameTargets(script, photos, prefix, index));
  }

  // ---------------------------------------------------------------------------
  // The random prefix
  // ---------------------------------------------------------------------------

  /** No photo name starts with the candidate prefix. */
  predicate Unused(photos: seq<string>, candidate: string)
  {
    forall k :: 0 <= k < |photos| ==> !StartsWith(photos[k], candidate)
  }

  /**
   * `create_random_prefix` as written: `draws` are the successive random
   * candidates. The `continue` inside the `for` loop only moves on to the
   * next photo, so the `break` after that loop is always reached: the body
   * of `while True` runs once: exactly one candidate is taken, and it is
   * returned whatever the photos are called.
   */
  method CreateRandomPrefixAsWritten(photos: seq<string>, draws: seq<string>) returns (prefix: string)
    requires draws != []
    ensures prefix == draws[0]
  {
    prefix := "";
    var taken, done := 0, false;
    while !done
      invariant taken == (if done then 1 else 0) && taken <= |draws|
      invariant done ==> prefix == draws[0]
      decreases !done
    {
      prefix := draws[taken];
      taken := taken + 1;
      var k := 0;
      while k < |photos|
        invariant 0 <= k <= |photos|
      {
        if StartsWith(photos[k], prefix) {
          k := k + 1;
          continue;
        }
        k := k + 1;
      }
      // the unconditional `break` after the `for` loop
      done := true;
    }
  }

  /** The candidate a retrying generator settles on: the first draw no photo starts with. */
  function FirstUnused(photos: seq<string>, draws: seq<string>): (r: Option<string>)
    ensures r.Some? ==> r.value in draws && Unused(photos, r.value)
    ensures r.None? <==> forall k :: 0 <= k < |draws| ==> !Unused(photos, draws[k])
    decreases |draws|
  {
    if draws == [] then None
    else if Unused(photos, draws[0]) then Some(draws[0])
    else
      assert forall k :: 1 <= k < |draws| ==> draws[k] == draws[1..][k - 1];
      FirstUnused(photos, draws[1..])
  }

  /**
   * `create_random_prefix` as its documentation describes it: draw again
   * while some photo starts with the candidate.
   */
  method CreateRandomPrefix(photos: seq<string>, draws: seq<string>) returns (prefix: string)
    requires exists k :: 0 <= k < |draws| && Unused(photos, draws[k])
    ensures Unused(photos, prefix) && prefix in draws
    ensures FirstUnused(photos, draws) == Some(prefix)
  {
    var attempt := 0;
    while true
      invariant 0 <= attempt < |draws|
      invariant FirstUnused(photos, draws) == FirstUnused(photos, draws[attempt..])
      decreases |draws| - attempt
    {
      prefix := draws[attempt];
      var clash := false;
      var k := 0;
      while k < |photos| && !clash
        invariant 0 <= k <= |photos|
        invariant clash <==> exists m :: 0 <= m < k && StartsWith(photos[m], prefix)
      {
        if StartsWith(photos[k], prefix) {
          clash := true;
        }
        k := k + 1;
      }
      assert !clash <==> Unused(photos, prefix);
      if !clash {
        return;
      }
      assert draws[attempt..][1..] == draws[attempt + 1..];
      if attempt + 1 == |draws| {
        assert false;
      }
      attempt := attempt + 1;
    }
  }

  /** The generator as written can hand back a prefix a photo already starts with. */
  lemma AsWrittenPrefixCanBeUsed()
    ensures var photos := ["aBcDeF_0001.jpg"];
      var draws := ["aBcDeF", "xYzXyZ"];
      !Unused(photos, draws[0]) && FirstUnused(photos, draws) == Some("xYzXyZ")
  {
    var photos := ["aBcDeF_0001.jpg"];
    assert photos[0][..6] == "aBcDeF";
    assert !StartsWith(photos[0], "xYzXyZ") by {
      assert photos[0][0] == 'a';
    }
  }

  /**
   * With an unused prefix, no phase-one target is the name of a listed
   * photo: every target starts with the prefix and no photo does.
   */
  lemma PhaseOneAvoidsPhotos(script: Script, photos: seq<string>, prefix: string, index: int, k: nat, j: nat)
    requires Unused(photos, prefix)
    requires k < |photos| && j < |photos|
    ensures RenameTargets(script, photos, prefix, index)[k] != photos[j]
  {
    TargetStartsWithPrefix(script, photos, prefix, index, k);
  }

  lemma TargetStartsWithPrefix(script: Script, photos: seq<string>, prefix: string, index: int, k: nat)
    requires k < |photos|
    ensures StartsWith(RenameTargets(script, photos, prefix, index)[k], prefix)
  {
    var pad, ext := PyPad4(index + k), Extension(script, photos[k]);
    if prefix != "" {
      assert StartsWith(prefix + "_", prefix);
      StartsWithAppend(prefix + "_", pad, prefix);
      StartsWithAppend(prefix + "_" + pad, ext, prefix);
    }
  }

  // ---------------------------------------------------------------------------
  // `rename`
  // ---------------------------------------------------------------------------

  /** `rename`: both passes start from the same index; the second re-lists the directory. */
  ghost function RenameSpec(d: Dir, script: Script, newPrefix: string, index: int, randomPrefix: string): PyRun
  {
    var first := RenameAllSpec(d, script, randomPrefix, index);
    if first.error.Some? then first
    else RenameAllSpec(first.dir, script, newPrefix, index)
  }

  /**
   * `rename`, with the prompted prefix and index as parameters and the
   * random draws as a sequence: the random prefix is the first draw,
   * whatever the photos are called (see `CreateRandomPrefixAsWritten`).
   */
  method Rename(dir: Directory, script: Script, newPrefix: string, index: int, draws: seq<string>)
    returns (error: Option<PyError>)
    requires draws != []
    modifies dir
    ensures PyRun(dir.entries, error) == RenameSpec(old(dir.entries), script, newPrefix, index, draws[0])
  {
    var photos := GetPhotoFiles(dir, script);
    var randomPrefix := CreateRandomPrefixAsWritten(photos, draws);
    error := RenameAllPhotos(dir, script, randomPrefix, index);
    if error.Some? {
      return;
    }
    error := RenameAllPhotos(dir, script, newPrefix, index);
  }

  /**
   * `rename` with the prefix generator its documentation describes: the
   * random prefix is the first draw no photo starts with.
   */
  method RenameIntended(dir: Directory, script: Script, newPrefix: string, index: int, draws: seq<string>)
    returns (error: Option<PyError>)
    requires exists k :: 0 <= k < |draws| && Unused(PhotosOf(dir.entries, script), draws[k])
    modifies dir
    ensures var randomPrefix := FirstUnused(PhotosOf(old(dir.entries), script), draws).value;
      && Unused(PhotosOf(old(dir.entries), script), randomPrefix)
      && PyRun(dir.entries, error) == RenameSpec(old(dir.entries), script, newPrefix, index, randomPrefix)
  {
    var photos := GetPhotoFiles(dir, script);
    var randomPrefix := CreateRandomPrefix(photos, draws);
    error := RenameAllPhotos(dir, script, randomPrefix, index);
    if error.Some? {
      return;
    }
    error := RenameAllPhotos(dir, script, newPrefix, index);
  }
}
