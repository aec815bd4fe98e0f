/**
 * The working directory as the three implementations see it: a finite map
 * from entry name to an abstract file identity, with the one flag the core
 * looks at (whether the entry is a directory). `rename` follows POSIX
 * rename(2): a missing source fails, an existing target is silently replaced
 * when both are plain files, and a rename involving an existing directory on
 * either side fails.
 */
module Fs {
  import opened Order

  datatype Entry = Entry(id: nat, isDir: bool)

  type Dir = map<string, Entry>

  /** `name` is a plain file of the directory: what `open` for reading needs. */
  predicate IsFile(d: Dir, name: string)
  {
    name in d && !d[name].isDir
  }

  /** rename(2) succeeds. */
  predicate CanRename(d: Dir, src: string, dst: string)
  {
    src in d && (dst == src || dst !in d || (!d[dst].isDir && !d[src].isDir))
  }

  /** The directory after a successful rename of `src` to `dst`. */
  function AfterRename(d: Dir, src: string, dst: string): (r: Dir)
    requires src in d
    ensures dst in r && r[dst] == d[src]
    ensures src != dst ==> src !in r
    ensures forall n :: n != src && n != dst ==> (n in r <==> n in d) && (n in d ==> r[n] == d[n])
    ensures src == dst ==> r == d
  {
    (d - {src})[dst := d[src]]
  }

  /** The directory the program works in; every rename goes through `Rename`. */
  class Directory {
    var entries: Dir

    constructor (initial: Dir)
      ensures entries == initial
    {
      entries := initial;
    }

    /** `fs::rename`, `os.rename` and `File.renameTo` on a plain POSIX file system. */
    method Rename(src: string, dst: string) returns (ok: bool)
      modifies this
      ensures ok == CanRename(old(entries), src, dst)
      ensures entries == if ok then AfterRename(old(entries), src, dst) else old(entries)
    {
      ok := CanRename(entries, src, dst);
      if ok {
        entries := AfterRename(entries, src, dst);
      }
    }

    /** `shutil.copy2` onto a plain file of this directory: `dst` becomes a copy of `src`. */
    method CopyOnto(src: string, dst: string)
      requires src in entries
      modifies this
      ensures entries == old(entries)[dst := old(entries)[src]]
    {
      entries := entries[dst := entries[src]];
    }

    /** `fs::create_dir`, `os.makedirs` and `File.mkdir`: fails when the name is taken. */
    method CreateDir(name: string, id: nat) returns (ok: bool)
      modifies this
      ensures ok == (name !in old(entries))
      ensures entries == if ok then old(entries)[name := Entry(id, true)] else old(entries)
    {
      ok := name !in entries;
      if ok {
        entries := entries[name := Entry(id, true)];
      }
    }
  }

  // ---------------------------------------------------------------------------
  // A batch of renames
  // ---------------------------------------------------------------------------

  datatype Batch = Batch(dir: Dir, done: nat)

  /** Rename `sources[k]` to `targets[k]` in order, stopping at the first failure. */
  function RenameSeq(d: Dir, sources: seq<string>, targets: seq<string>): (r: Batch)
    requires |sources| == |targets|
    ensures r.done <= |sources|
    decreases |sources|
  {
    if sources == [] || !CanRename(d, sources[0], targets[0]) then Batch(d, 0)
    else
      var rest := RenameSeq(AfterRename(d, sources[0], targets[0]), sources[1..], targets[1..]);
      Batch(rest.dir, rest.done + 1)
  }

  /** The step of a loop over a batch: the remaining batch is its head and the rest. */
  lemma BatchTail(sources: seq<string>, targets: seq<string>, i: nat)
    requires |sources| == |targets| && i < |sources|
    ensures sources[i..][0] == sources[i] && sources[i..][1..] == sources[i + 1..]
    ensures targets[i..][0] == targets[i] && targets[i..][1..] == targets[i + 1..]
  {
  }

  /**
   * A plan under which no rename replaces an existing entry: the sources
   * exist and are distinct, the targets are distinct, and a target that
   * already exists is its own source.
   */
  ghost predicate SafePlan(d: Dir, sources: seq<string>, targets: seq<string>)
  {
    && |sources| == |targets|
    && NoDup(sources) && NoDup(targets)
    && (forall k :: 0 <= k < |sources| ==> sources[k] in d)
    && (forall k :: 0 <= k < |targets| && targets[k] in d ==> targets[k] == sources[k])
  }

  /** `d2` is `d` with each source's entry moved to its target and nothing else changed. */
  ghost predicate Moved(d: Dir, d2: Dir, sources: seq<string>, targets: seq<string>)
    requires |sources| == |targets|
  {
    && (forall n :: n in d2 <==> (n in d && n !in sources) || n in targets)
    && (forall k :: 0 <= k < |targets| ==> targets[k] in d2 && sources[k] in d && d2[targets[k]] == d[sources[k]])
    && (forall n :: n in d && n !in sources ==> n in d2 && d2[n] == d[n])
  }

  /** After the first rename of a safe plan, the rest of the plan is safe. */
  lemma SafePlanStep(d: Dir, sources: seq<string>, targets: seq<string>)
    requires SafePlan(d, sources, targets) && sources != []
    ensures CanRename(d, sources[0], targets[0])
    ensures SafePlan(AfterRename(d, sources[0], targets[0]), sources[1..], targets[1..])
    ensures targets[0] !in sources[1..] && sources[0] !in targets[1..] && sources[0] !in sources[1..]
  {
    var s0, t0 := sources[0], targets[0];
    var d1 := AfterRename(d, s0, t0);
    var ss, ts := sources[1..], targets[1..];
    forall j | 0 <= j < |ss| ensures ss[j] != s0 && ss[j] != t0 && ts[j] != t0 && ts[j] != s0 {
      assert ss[j] == sources[j + 1] && ts[j] == targets[j + 1];
      assert sources[j + 1] != sources[0] && targets[j + 1] != targets[0];
    }
    forall j | 0 <= j < |ts| && ts[j] in d1 ensures ts[j] == ss[j] {
      assert ts[j] == targets[j + 1] && ss[j] == sources[j + 1];
    }
  }

  /** One rename followed by the moves of the rest is the move of the whole plan. */
  lemma MovedCompose(d: Dir, d2: Dir, sources: seq<string>, targets: seq<string>)
    requires |sources| == |targets| && sources != [] && sources[0] in d
    requires sources[0] !in sources[1..] && targets[0] !in sources[1..]
    requires targets[0] in d ==> targets[0] == sources[0]
    requires Moved(AfterRename(d, sources[0], targets[0]), d2, sources[1..], targets[1..])
    ensures Moved(d, d2, sources, targets)
  {
    MovedComposeKeys(d, d2, sources, targets);
    MovedComposeTargets(d, d2, sources, targets);
    MovedComposeRest(d, d2, sources, targets);
  }

  lemma MovedComposeKeys(d: Dir, d2: Dir, sources: seq<string>, targets: seq<string>)
    requires |sources| == |targets| && sources != [] && sources[0] in d && targets[0] !in sources[1..]
    requires Moved(AfterRename(d, sources[0], targets[0]), d2, sources[1..], targets[1..])
    ensures forall n :: n in d2 <==> (n in d && n !in sources) || n in targets
  {
    var s0, t0 := sources[0], targets[0];
    var ss, ts := sources[1..], targets[1..];
    assert sources == [s0] + ss && targets == [t0] + ts;
    forall n ensures n in d2 <==> (n in d && n !in sources) || n in targets {
      assert n in sources <==> n == s0 || n in ss;
      assert n in targets <==> n == t0 || n in ts;
    }
  }

  lemma MovedComposeTargets(d: Dir, d2: Dir, sources: seq<string>, targets: seq<string>)
    requires |sources| == |targets| && sources != [] && sources[0] in d
    requires sources[0] !in sources[1..] && targets[0] !in sources[1..]
    requires Moved(AfterRename(d, sources[0], targets[0]), d2, sources[1..], targets[1..])
    ensures forall k :: 0 <= k < |targets| ==> targets[k] in d2 && sources[k] in d && d2[targets[k]] == d[sources[k]]
  {
    var ss, ts := sources[1..], targets[1..];
    forall k | 0 <= k < |targets| ensures targets[k] in d2 && sources[k] in d && d2[targets[k]] == d[sources[k]] {
      if k > 0 {
        assert targets[k] == ts[k - 1] && sources[k] == ss[k - 1];
      }
    }
  }

  lemma MovedComposeRest(d: Dir, d2: Dir, sources: seq<string>, targets: seq<string>)
    requires |sources| == |targets| && sources != [] && sources[0] in d
    requires targets[0] in d ==> targets[0] == sources[0]
    requires Moved(AfterRename(d, sources[0], targets[0]), d2, sources[1..], targets[1..])
    ensures forall n :: n in d && n !in sources ==> n in d2 && d2[n] == d[n]
  {
    forall n | n in d && n !in sources ensures n in d2 && d2[n] == d[n] {
      assert n != sources[0] && n !in sources[1..] && n != targets[0];
    }
  }

  /** A safe plan runs to completion and moves every entry, overwriting nothing. */
  lemma {:induction false} SafePlanMoves(d: Dir, sources: seq<string>, targets: seq<string>)
    requires SafePlan(d, sources, targets)
    ensures RenameSeq(d, sources, targets).done == |sources|
    ensures Moved(d, RenameSeq(d, sources, targets).dir, sources, targets)
    decreases |sources|
  {
    if sources != [] {
      SafePlanStep(d, sources, targets);
      var d1 := AfterRename(d, sources[0], targets[0]);
      SafePlanMoves(d1, sources[1..], targets[1..]);
      MovedCompose(d, RenameSeq(d1, sources[1..], targets[1..]).dir, sources, targets);
    }
  }

  lemma CardinalitySwap<T>(keys: set<T>, s: set<T>, t: set<T>, keys2: set<T>)
    requires s <= keys && keys2 == (keys - s) + t && (keys - s) * t == {} && |s| == |t|
    ensures |keys2| == |keys|
  {
    assert keys == (keys - s) + s;
    assert (keys - s) * s == {};
  }

  function Elements(s: seq<string>): (r: set<string>)
    ensures forall n :: n in r <==> n in s
  {
    set n | n in s
  }

  lemma MovedKeys(d: Dir, d2: Dir, sources: seq<string>, targets: seq<string>)
    requires |sources| == |targets| && Moved(d, d2, sources, targets)
    ensures d2.Keys == (d.Keys - Elements(sources)) + Elements(targets)
  {
  }

  lemma SafePlanSets(d: Dir, sources: seq<string>, targets: seq<string>)
    requires SafePlan(d, sources, targets)
    ensures Elements(sources) <= d.Keys
    ensures (d.Keys - Elements(sources)) * Elements(targets) == {}
    ensures |Elements(sources)| == |Elements(targets)|
  {
    NoDupSetSize(sources, Elements(sources));
    NoDupSetSize(targets, Elements(targets));
    forall n | n in Elements(targets) && n in d ensures n in Elements(sources) {
      var k :| 0 <= k < |targets| && targets[k] == n;
    }
  }

  /** Moving entries along a safe plan keeps the number of entries. */
  lemma MovedSize(d: Dir, d2: Dir, sources: seq<string>, targets: seq<string>)
    requires SafePlan(d, sources, targets) && Moved(d, d2, sources, targets)
    ensures |d2| == |d|
  {
    MovedKeys(d, d2, sources, targets);
    SafePlanSets(d, sources, targets);
    CardinalitySwap(d.Keys, Elements(sources), Elements(targets), d2.Keys);
  }

  /** Two consecutive moves, the second starting from fresh names, make one move. */
  lemma MovedChain(d: Dir, d1: Dir, d2: Dir, sources: seq<string>, middle: seq<string>, targets: seq<string>)
    requires |sources| == |middle| == |targets|
    requires Moved(d, d1, sources, middle) && Moved(d1, d2, middle, targets)
    requires forall k :: 0 <= k < |middle| ==> middle[k] !in d
    ensures Moved(d, d2, sources, targets)
  {
  }
}
