/**
 * `Rename` (Java/Rename.java): rename a numbered range of `.JPG` photos from
 * one prefix to another, shifting the numbers by a constant. Each attempt
 * calls `File.renameTo` and ignores its result, so a missing photo in the
 * range is skipped and the loop carries on.
 *
 * The three numbers and two prefixes are read from the console; here they
 * are parameters.
 */
module JavaRename {
  import opened Order
  import opened Fs
  import opened JavaNames

  /** `Rename.fileName(prefix, i)`: the class's own copy of the naming, with a fixed `.JPG`. */
  function RenameFileName(prefix: string, i: int): string
  {
    var pad := if i < 10 then "000" else if i < 100 then "00" else if i < 1000 then "0" else "";
    prefix + "_" + pad + IntToString(i) + ".JPG"
  }

  /** The private copy agrees with `Utils.fileName` for every index. */
  lemma RenameFileNameIsUtils(prefix: string, i: int)
    ensures RenameFileName(prefix, i) == FileName(prefix, i, ".JPG")
  {
  }

  // ---------------------------------------------------------------------------
  // Renames whose failures are ignored
  // ---------------------------------------------------------------------------

  /** One `renameTo` whose result nobody looks at: a failure leaves the directory as it was. */
  function TryRename(d: Dir, src: string, dst: string): Dir
  {
    if CanRename(d, src, dst) then AfterRename(d, src, dst) else d
  }

  /** `renameTo` on each pair in turn, every one attempted whatever the earlier ones did. */
  function RenameEach(d: Dir, sources: seq<string>, targets: seq<string>): Dir
    requires |sources| == |targets|
    decreases |sources|
  {
    if sources == [] then d
    else RenameEach(TryRename(d, sources[0], targets[0]), sources[1..], targets[1..])
  }

  /** Running the first `k` attempts and then the rest is running them all: no failure cuts the run short. */
  lemma {:induction false} RenameEachSplit(d: Dir, sources: seq<string>, targets: seq<string>, k: nat)
    requires |sources| == |targets| && k <= |sources|
    ensures RenameEach(d, sources, targets)
         == RenameEach(RenameEach(d, sources[..k], targets[..k]), sources[k..], targets[k..])
    decreases k
  {
    if k > 0 {
      var d1 := TryRename(d, sources[0], targets[0]);
      RenameEachSplit(d1, sources[1..], targets[1..], k - 1);
      assert sources[..k][1..] == sources[1..][..k - 1] && sources[1..][k - 1..] == sources[k..];
      assert targets[..k][1..] == targets[1..][..k - 1] && targets[1..][k - 1..] == targets[k..];
    } else {
      assert sources[..0] == [] && sources[0..] == sources && targets[0..] == targets;
    }
  }

  /** An attempt whose source is missing changes nothing, and the attempts after it still run. */
  lemma RenameEachSkipsMissing(d: Dir, sources: seq<string>, targets: seq<string>)
    requires |sources| == |targets| && sources != [] && sources[0] !in d
    ensures RenameEach(d, sources, targets) == RenameEach(d, sources[1..], targets[1..])
    ensures RenameSeq(d, sources, targets).done == 0
  {
  }

  /** An entry that is neither a source nor a target keeps its name and identity. */
  lemma {:induction false} RenameEachUntouched(d: Dir, sources: seq<string>, targets: seq<string>, n: string)
    requires |sources| == |targets| && n !in sources && n !in targets
    ensures var r := RenameEach(d, sources, targets); (n in r <==> n in d) && (n in d ==> r[n] == d[n])
    decreases |sources|
  {
    if sources != [] {
      assert n != sources[0] && n != targets[0];
      assert n !in sources[1..] && n !in targets[1..] by {
        assert forall x :: x in sources[1..] ==> x in sources;
        assert forall x :: x in targets[1..] ==> x in targets;
      }
      RenameEachUntouched(TryRename(d, sources[0], targets[0]), sources[1..], targets[1..], n);
    }
  }

  /** Along a plan that overwrites nothing, ignoring failures makes no difference: every entry is moved. */
  lemma {:induction false} RenameEachSafe(d: Dir, sources: seq<string>, targets: seq<string>)
    requires SafePlan(d, sources, targets)
    ensures RenameEach(d, sources, targets) == RenameSeq(d, sources, targets).dir
    ensures Moved(d, RenameEach(d, sources, targets), sources, targets)
    ensures |RenameEach(d, sources, targets)| == |d|
    decreases |sources|
  {
    SafePlanMoves(d, sources, targets);
    MovedSize(d, RenameSeq(d, sources, targets).dir, sources, targets);
    if sources != [] {
      SafePlanStep(d, sources, targets);
      RenameEachSafe(AfterRename(d, sources[0], targets[0]), sources[1..], targets[1..]);
    }
  }

  // ---------------------------------------------------------------------------
  // The loop of `main`
  // ---------------------------------------------------------------------------

  /**
   * How often the loop body runs: `i` counts from 1 while `i <= last - first + 1`,
   * the bound computed in `int` (wrapping once at the end is the same as
   * wrapping after each operation, see `Wrap32Add`).
   */
  function AttemptCount(first: int, last: int): nat
  {
    var bound := Wrap32(last - first + 1);
    if bound < 1 then 0 else bound
  }

  /**
   * The index attempt `k` (counted from 0) uses, starting from `start`:
   * `i + start - 1` in `int`, wrapped once (see `Wrap32Add`).
   */
  function AttemptIndex(start: int, k: nat): int
  {
    Wrap32(k + start)
  }

  /** The names of `count` attempts: photo `k` has `prefix` and index `start + k`. */
  function RangeNames(prefix: string, start: int, count: nat): (r: seq<string>)
    ensures |r| == count
  {
    seq(count, k requires 0 <= k < count => RenameFileName(prefix, AttemptIndex(start, k)))
  }

  /**
   * The loop of `Rename.main`. When the bound is `Integer.MAX_VALUE` the
   * Java loop never ends (`i++` wraps to `Integer.MIN_VALUE`); that input
   * is excluded.
   */
  method RenameRange(dir: Directory, first: int, last: int, newNumber: int, originalPrefix: string, newPrefix: string)
    requires IsInt32(first) && IsInt32(last) && IsInt32(newNumber)
    requires Wrap32(last - first + 1) != Int32Max
    modifies dir
    ensures var n := AttemptCount(first, last);
      dir.entries == RenameEach(old(dir.entries), RangeNames(originalPrefix, first, n), RangeNames(newPrefix, newNumber, n))
  {
    var n := AttemptCount(first, last);
    ghost var sources, targets := RangeNames(originalPrefix, first, n), RangeNames(newPrefix, newNumber, n);
    ghost var d := dir.entries;
    // `last - first + 1` in `int`; since the bound is below `Integer.MAX_VALUE`, `i++` never wraps.
    var bound := Wrap32(last - first + 1);
    var i := 1;
    while i <= bound
      invariant 1 <= i <= n + 1
      invariant n == 0 || i <= bound + 1
      invariant RenameEach(dir.entries, sources[i - 1..], targets[i - 1..]) == RenameEach(d, sources, targets)
      decreases bound - i
    {
      var src := RenameFileName(originalPrefix, Wrap32(i + first - 1));
      var dst := RenameFileName(newPrefix, Wrap32(i + newNumber - 1));
      RangeNameStep(originalPrefix, first, n, i);
      RangeNameStep(newPrefix, newNumber, n, i);
      BatchTail(sources, targets, i - 1);
      ghost var before := dir.entries;
      var _ := dir.Rename(src, dst);
      assert dir.entries == TryRename(before, sources[i - 1], targets[i - 1]);
      i := i + 1;
    }
    assert i == n + 1;
    assert sources[i - 1..] == [] && targets[i - 1..] == [];
  }

  /** The names the loop body builds for `i` are those of attempt `i - 1`. */
  lemma RangeNameStep(prefix: string, start: int, count: nat, i: int)
    requires 1 <= i <= count
    ensures RangeNames(prefix, start, count)[i - 1] == RenameFileName(prefix, Wrap32(i + start - 1))
  {
    assert i + start - 1 == (i - 1) + start;
  }

  // ---------------------------------------------------------------------------
  // Properties
  // ---------------------------------------------------------------------------

  /** Without overflow the loop makes `last - first + 1` attempts, and none when `last < first`. */
  lemma AttemptCountInRange(first: int, last: int)
    requires IsInt32(first) && IsInt32(last) && IsInt32(last - first + 1)
    ensures last < first ==> AttemptCount(first, last) == 0
    ensures first <= last ==> AttemptCount(first, last) == last - first + 1
  {
  }

  /** Over the whole `int` range the count wraps to zero: no attempt is made. */
  lemma AttemptCountWraps()
    ensures AttemptCount(Int32Min, Int32Max) == 0
  {
  }

  /** Attempt `k` moves index `first + k` to `newNumber + k`: the shift is constant, modulo 2^32 when the indices wrap. */
  lemma AttemptShift(first: int, newNumber: int, k: nat)
    ensures (AttemptIndex(newNumber, k) - AttemptIndex(first, k) - (newNumber - first)) % Int32Span == 0
    ensures IsInt32(k + first) && IsInt32(k + newNumber) ==> AttemptIndex(newNumber, k) - AttemptIndex(first, k) == newNumber - first
  {
    var a, b := k + first, k + newNumber;
    var qa, qb := (a - Int32Min) / Int32Span, (b - Int32Min) / Int32Span;
    assert AttemptIndex(first, k) == a - qa * Int32Span;
    assert AttemptIndex(newNumber, k) == b - qb * Int32Span;
    assert AttemptIndex(newNumber, k) - AttemptIndex(first, k) - (newNumber - first) == (qa - qb) * Int32Span;
  }

  /** Photo `k` of a range inside 0..9999 has the index `start + k`, written with four digits. */
  lemma RangeNameAt(prefix: string, start: int, count: nat, k: nat, index: int)
    requires k < count && index == start + k && 0 <= index <= 9999
    ensures RangeNames(prefix, start, count)[k] == FileName(prefix, index, ".JPG")
  {
  }

  /** Inside 0..9999 the names of a range are all different. */
  lemma RangeNamesNoDup(prefix: string, start: int, count: nat)
    requires 0 <= start && start + count <= 10000
    ensures NoDup(RangeNames(prefix, start, count))
  {
    var names := RangeNames(prefix, start, count);
    forall i, j | 0 <= i < j < count ensures names[i] != names[j] {
      RangeNameAt(prefix, start, count, i, start + i);
      RangeNameAt(prefix, start, count, j, start + j);
      FileNameIndexApart(prefix, start + i, start + j, ".JPG", ".JPG");
    }
  }

  /**
   * When every photo of the range exists and none of the new names is
   * taken, each photo is moved to its new name and nothing is lost.
   */
  lemma RenameRangeMoves(d: Dir, first: int, last: int, newNumber: int, originalPrefix: string, newPrefix: string)
    requires 0 <= first <= last && last <= 9999 && 0 <= newNumber && newNumber + (last - first) <= 9999
    requires var n := last - first + 1;
      && (forall k :: 0 <= k < n ==> RangeNames(originalPrefix, first, n)[k] in d)
      && (forall k :: 0 <= k < n ==> RangeNames(newPrefix, newNumber, n)[k] !in d)
    ensures var n := AttemptCount(first, last);
      var sources, targets := RangeNames(originalPrefix, first, n), RangeNames(newPrefix, newNumber, n);
      var r := RenameEach(d, sources, targets);
      Moved(d, r, sources, targets) && |r| == |d|
  {
    var n := last - first + 1;
    AttemptCountInRange(first, last);
    RangeNamesNoDup(originalPrefix, first, n);
    RangeNamesNoDup(newPrefix, newNumber, n);
    RenameEachSafe(d, RangeNames(originalPrefix, first, n), RangeNames(newPrefix, newNumber, n));
  }
}
