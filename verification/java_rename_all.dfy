/**
 * `RenameAll` (java/RenameAll.java): rename every file `Filter` accepts to
 * `prefix_####.EXT`, numbering from a start read with `Integer.parseInt`,
 * in the order `File.listFiles` returns them. There is no second pass, so a
 * file whose new name is already taken replaces the entry there.
 *
 * The prefix and the start are read from the console; here they are
 * parameters, and so is the order of the listing, which the file system
 * decides.
 */
module JavaRenameAll {
  import opened Wrappers
  import opened Text
  import opened Order
  import opened Fs
  import opened JavaNames
  import opened JavaRename

  /** `listFiles(new Filter())`: the accepted entries of the directory, each once, in some order. */
  ghost predicate IsListing(d: Dir, listing: seq<string>)
  {
    NoDup(listing) && forall n :: n in listing <==> n in d && Accept(n)
  }

  /** The new names, as the loop makes them: the next file gets `index`, then `index++` in `int`. */
  function Targets(listing: seq<string>, newPrefix: string, index: int): (r: seq<string>)
    ensures |r| == |listing|
    decreases |listing|
  {
    if listing == [] then []
    else [NewFileName(listing[0], newPrefix, index)] + Targets(listing[1..], newPrefix, Wrap32(index + 1))
  }

  /** `RenameAll.main` after the prompts: the directory it leaves and the exception it ends with. */
  ghost function RenameAllSpec(d: Dir, newPrefix: string, startText: string, listing: seq<string>): (Dir, Option<JavaError>)
  {
    match ParseInt(startText)
    case None => (d, Some(NumberFormatException(startText)))
    case Some(start) => (RenameEach(d, listing, Targets(listing, newPrefix, start)), None)
  }

  method RenameAll(dir: Directory, newPrefix: string, startText: string, listing: seq<string>)
    returns (error: Option<JavaError>)
    requires IsListing(dir.entries, listing)
    modifies dir
    ensures (dir.entries, error) == RenameAllSpec(old(dir.entries), newPrefix, startText, listing)
  {
    var parsed := ParseInt(startText);
    if parsed.None? {
      return Some(NumberFormatException(startText));
    }
    RenameListed(dir, listing, newPrefix, parsed.value);
    error := None;
  }

  /** The `for` loop over the listing: rename, ignore the result, `index++`. */
  method RenameListed(dir: Directory, listing: seq<string>, newPrefix: string, start: int)
    modifies dir
    ensures dir.entries == RenameEach(old(dir.entries), listing, Targets(listing, newPrefix, start))
  {
    var index := start;
    ghost var d := dir.entries;
    for k := 0 to |listing|
      invariant RenameEach(dir.entries, listing[k..], Targets(listing[k..], newPrefix, index))
             == RenameEach(d, listing, Targets(listing, newPrefix, start))
    {
      var newFileName := NewFileName(listing[k], newPrefix, index);
      assert listing[k..][0] == listing[k] && listing[k..][1..] == listing[k + 1..];
      ghost var before := dir.entries;
      var _ := dir.Rename(listing[k], newFileName);
      assert dir.entries == TryRename(before, listing[k], newFileName);
      index := Wrap32(index + 1);
    }
    assert listing[|listing|..] == [];
  }

  /** The values `index` takes through `n` turns of the loop. */
  function Indices(start: int, n: nat): (r: seq<int>)
    ensures |r| == n
    decreases n
  {
    if n == 0 then [] else [start] + Indices(Wrap32(start + 1), n - 1)
  }

  lemma {:induction false} IndicesAt(start: int, n: nat, k: nat)
    requires IsInt32(start) && k < n
    ensures Indices(start, n)[k] == Wrap32(start + k)
    decreases k
  {
    if k > 0 {
      IndicesAt(Wrap32(start + 1), n - 1, k - 1);
      Wrap32Next(start, k);
    }
  }

  lemma {:induction false} TargetsIndices(listing: seq<string>, newPrefix: string, start: int, k: nat)
    requires k < |listing|
    ensures Targets(listing, newPrefix, start)[k] == NewFileName(listing[k], newPrefix, Indices(start, |listing|)[k])
    decreases k
  {
    if k > 0 {
      TargetsIndices(listing[1..], newPrefix, Wrap32(start + 1), k - 1);
      assert listing[1..][k - 1] == listing[k];
    }
  }

  /** File `k` of the listing gets `start + k`, as an `int`: one more for each file, renamed or not. */
  lemma TargetAt(listing: seq<string>, newPrefix: string, start: int, k: nat)
    requires IsInt32(start) && k < |listing|
    ensures Targets(listing, newPrefix, start)[k] == NewFileName(listing[k], newPrefix, Wrap32(start + k))
  {
    TargetsIndices(listing, newPrefix, start, k);
    IndicesAt(start, |listing|, k);
  }

  // ---------------------------------------------------------------------------
  // Properties
  // ---------------------------------------------------------------------------

  /** Without overflow, file `k` gets exactly `start + k`: one more for each file, renamed or not. */
  lemma TargetIndex(listing: seq<string>, newPrefix: string, start: int, k: nat)
    requires IsInt32(start) && IsInt32(start + |listing|) && k < |listing|
    ensures Targets(listing, newPrefix, start)[k] == NewFileName(listing[k], newPrefix, start + k)
  {
    TargetAt(listing, newPrefix, start, k);
  }

  /** Each new name keeps the extension of the file it replaces, so it is accepted too. */
  lemma TargetKeepsExtension(listing: seq<string>, newPrefix: string, start: int, k: nat)
    requires IsInt32(start) && k < |listing| && Accept(listing[k])
    ensures GetExtension(Targets(listing, newPrefix, start)[k]) == GetExtension(listing[k])
    ensures Accept(Targets(listing, newPrefix, start)[k])
  {
    TargetAt(listing, newPrefix, start, k);
    NewFileNameKeepsExtension(listing[k], newPrefix, Wrap32(start + k));
  }

  /** A file `Filter` rejects is neither renamed nor replaced. */
  lemma RejectedUntouched(d: Dir, newPrefix: string, start: int, listing: seq<string>, n: string)
    requires IsInt32(start) && IsListing(d, listing) && n in d && !Accept(n)
    ensures var r := RenameEach(d, listing, Targets(listing, newPrefix, start)); n in r && r[n] == d[n]
  {
    var targets := Targets(listing, newPrefix, start);
    forall k | 0 <= k < |targets| ensures targets[k] != n {
      assert listing[k] in listing;
      TargetKeepsExtension(listing, newPrefix, start, k);
    }
    RenameEachUntouched(d, listing, targets, n);
  }

  /** Inside 0..9999 the new names are all different. */
  lemma TargetsNoDup(listing: seq<string>, newPrefix: string, start: int)
    requires 0 <= start && start + |listing| <= 10000
    ensures NoDup(Targets(listing, newPrefix, start))
  {
    var targets := Targets(listing, newPrefix, start);
    forall i, j | 0 <= i < j < |listing| ensures targets[i] != targets[j] {
      TargetsApart(listing, newPrefix, start, i, j, start + i, start + j);
    }
  }

  lemma TargetsApart(listing: seq<string>, newPrefix: string, start: int, i: nat, j: nat, a: int, b: int)
    requires 0 <= start && i < j < |listing| && a == start + i && b == start + j && b <= 9999
    ensures Targets(listing, newPrefix, start)[i] != Targets(listing, newPrefix, start)[j]
  {
    TargetFourDigits(listing, newPrefix, start, i, a);
    TargetFourDigits(listing, newPrefix, start, j, b);
    FileNameIndexApart(newPrefix, a, b, GetExtension(listing[i]), GetExtension(listing[j]));
  }

  lemma TargetFourDigits(listing: seq<string>, newPrefix: string, start: int, k: nat, index: int)
    requires 0 <= start && k < |listing| && index == start + k && index <= 9999
    ensures Targets(listing, newPrefix, start)[k] == FileName(newPrefix, index, GetExtension(listing[k]))
  {
    TargetAt(listing, newPrefix, start, k);
    Wrap32Same(start + k, index);
  }

  /**
   * When no new name is taken beforehand and the numbers stay within
   * 0..9999, every accepted file is moved to its new name and nothing is
   * lost.
   */
  lemma FreshTargetsMove(d: Dir, newPrefix: string, start: int, listing: seq<string>)
    requires IsListing(d, listing)
    requires 0 <= start && start + |listing| <= 10000
    requires forall k :: 0 <= k < |listing| ==> Targets(listing, newPrefix, start)[k] !in d
    ensures var targets := Targets(listing, newPrefix, start);
      var r := RenameEach(d, listing, targets);
      Moved(d, r, listing, targets) && |r| == |d|
  {
    TargetsNoDup(listing, newPrefix, start);
    RenameEachSafe(d, listing, Targets(listing, newPrefix, start));
  }

  // ---------------------------------------------------------------------------
  // Running it again over its own output
  // ---------------------------------------------------------------------------

  lemma AcceptedShape(e: string)
    requires e in AcceptedExtensions
    ensures |e| >= 2 && e[0] == '.' && AllWordChars(e[1..])
  {
  }

  /** A name `fileName` makes with an accepted extension is accepted, with that extension. */
  lemma FileNameAccepted(prefix: string, index: int, e: string)
    requires e in AcceptedExtensions
    ensures GetExtension(FileName(prefix, index, e)) == e && Accept(FileName(prefix, index, e))
  {
    AcceptedShape(e);
    GetExtensionOfJoin(prefix + "_" + Padding(index) + IntToString(index), e);
  }

  lemma RerunNames(prefix: string, e: string)
    requires e in AcceptedExtensions
    ensures var a, b, c := FileName(prefix, 1, e), FileName(prefix, 2, e), FileName(prefix, 3, e);
      && a != b && b != c && a != c
      && Accept(a) && Accept(b)
      && Targets([a, b], prefix, 2) == [b, c]
  {
    var a, b, c := FileName(prefix, 1, e), FileName(prefix, 2, e), FileName(prefix, 3, e);
    FileNameIndexApart(prefix, 1, 2, e, e);
    FileNameIndexApart(prefix, 2, 3, e, e);
    FileNameIndexApart(prefix, 1, 3, e, e);
    FileNameAccepted(prefix, 1, e);
    FileNameAccepted(prefix, 2, e);
    TargetFourDigits([a, b], prefix, 2, 0, 2);
    TargetFourDigits([a, b], prefix, 2, 1, 3);
  }

  lemma ParseTwo()
    ensures ParseInt("2") == Some(2)
  {
    assert "2"[..0] == [];
  }

  lemma PairListing(d: Dir, a: string, b: string)
    requires a != b && Accept(a) && Accept(b) && d.Keys == {a, b}
    ensures IsListing(d, [a, b])
  {
    forall n ensures n in [a, b] <==> n in d && Accept(n) {
      assert n in d <==> n == a || n == b;
    }
  }

  lemma PairRenames(d: Dir, a: string, b: string, c: string, ea: Entry, eb: Entry)
    requires a != b && b != c && a != c && !ea.isDir && !eb.isDir
    requires d == map[a := ea, b := eb]
    ensures RenameEach(d, [a, b], [b, c]) == map[c := ea]
  {
    assert [a, b][1..] == [b] && [b, c][1..] == [c];
    var d1 := TryRename(d, a, b);
    assert d1 == map[b := ea];
    var d2 := TryRename(d1, b, c);
    assert d2 == map[c := ea];
    assert [b][1..] == [] && [c][1..] == [];
    assert RenameEach(d1, [b], [c]) == RenameEach(d2, [], []);
  }

  /**
   * Renaming `P_0001` and `P_0002` again from 2, listed in that order: the
   * first takes the second's name and replaces it, and the second photo is
   * gone.
   */
  lemma RerunOverwrites(prefix: string, e: string, id1: nat, id2: nat)
    requires e in AcceptedExtensions
    ensures var a, b, c := FileName(prefix, 1, e), FileName(prefix, 2, e), FileName(prefix, 3, e);
      var d := map[a := Entry(id1, false), b := Entry(id2, false)];
      && IsListing(d, [a, b])
      && RenameAllSpec(d, prefix, "2", [a, b]) == (map[c := Entry(id1, false)], None)
  {
    var a, b, c := FileName(prefix, 1, e), FileName(prefix, 2, e), FileName(prefix, 3, e);
    var d := map[a := Entry(id1, false), b := Entry(id2, false)];
    RerunNames(prefix, e);
    ParseTwo();
    PairListing(d, a, b);
    PairRenames(d, a, b, c, Entry(id1, false), Entry(id2, false));
  }
}
