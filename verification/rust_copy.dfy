/**
 * The `copy` command of the Rust implementation (rust/src/main.rs): create
 * `Good Ones`, read the requested numbers from a list file, then walk the
 * sorted images and copy each one whose parsed index was requested.
 *
 * The copies land in the new folder, which is kept as its own map from name
 * to the entry copied there; the working directory itself only gains the
 * folder.
 */
module RustCopy {
  import opened Wrappers
  import opened Text
  import opened Order
  import opened Fs
  import opened RustNames
  import opened RustRename

  const GoodOnes: string := "Good Ones"

  /** The list file used when the answer to the prompt is `.`. */
  const DefaultList: string := "Good Ones.txt"

  // ---------------------------------------------------------------------------
  // The list of requested numbers
  // ---------------------------------------------------------------------------

  /** The list file's name: `.` stands for `Good Ones.txt`. */
  function ListName(input: string): (r: string)
    ensures input != "." ==> r == input
  {
    if input == "." then DefaultList else input
  }

  /** What one line of the list file contributes: its trimmed text read as a `u32`. */
  function LineNumber(line: string): Option<nat>
  {
    ParseU32(Trim(line, UnicodeWhiteSpace))
  }

  /**
   * `file_numbers`: the numbers the lines yield, in the order they are read.
   * Blank and unparsable lines add nothing (see `RequestedMembers`).
   */
  function Requested(lines: seq<string>): set<nat>
    decreases |lines|
  {
    if lines == [] then {}
    else
      var last := LineNumber(lines[|lines| - 1]);
      var rest := Requested(lines[..|lines| - 1]);
      if last.Some? then rest + {last.value} else rest
  }

  /** A number is requested exactly when some line, trimmed, parses as a `u32` with that value. */
  lemma {:induction false} RequestedMembers(lines: seq<string>)
    ensures forall n :: n in Requested(lines) <==> exists i :: 0 <= i < |lines| && LineNumber(lines[i]) == Some(n)
    decreases |lines|
  {
    if lines != [] {
      var init := lines[..|lines| - 1];
      RequestedMembers(init);
      RequestedStep(LineNumber, lines, init, Requested(init));
    }
  }

  lemma RequestedStep(number: string -> Option<nat>, lines: seq<string>, init: seq<string>, rest: set<nat>)
    requires lines != [] && init == lines[..|lines| - 1]
    requires forall n :: n in rest <==> exists i :: 0 <= i < |init| && number(init[i]) == Some(n)
    ensures var last := number(lines[|lines| - 1]);
      forall n :: n in (if last.Some? then rest + {last.value} else rest) <==>
        exists i :: 0 <= i < |lines| && number(lines[i]) == Some(n)
  {
    var last := number(lines[|lines| - 1]);
    forall n | exists i :: 0 <= i < |lines| && number(lines[i]) == Some(n)
      ensures n in (if last.Some? then rest + {last.value} else rest)
    {
      var i :| 0 <= i < |lines| && number(lines[i]) == Some(n);
      if i < |lines| - 1 {
        assert init[i] == lines[i];
      }
    }
    forall n | n in rest ensures exists i :: 0 <= i < |lines| && number(lines[i]) == Some(n) {
      var i :| 0 <= i < |init| && number(init[i]) == Some(n);
      assert init[i] == lines[i];
    }
  }

  /** The trimmed lines that draw a warning, in order (see `SkippedAreUnreadable`). */
  function Skipped(lines: seq<string>): (r: seq<string>)
    ensures |r| <= |lines|
    decreases |lines|
  {
    if lines == [] then []
    else
      var rest := Skipped(lines[..|lines| - 1]);
      var t := Trim(lines[|lines| - 1], UnicodeWhiteSpace);
      if t != [] && ParseU32(t).None? then rest + [t] else rest
  }

  /** A warned-about line is not blank and is not a `u32`. */
  lemma {:induction false} SkippedAreUnreadable(lines: seq<string>)
    ensures forall t :: t in Skipped(lines) ==> t != [] && ParseU32(t).None?
    decreases |lines|
  {
    if lines != [] {
      SkippedAreUnreadable(lines[..|lines| - 1]);
    }
  }

  /** Every line is blank, contributes its number, or is warned about. */
  lemma {:induction false} EveryLineAccounted(lines: seq<string>, i: nat)
    requires i < |lines|
    ensures var t := Trim(lines[i], UnicodeWhiteSpace);
      || AllSpace(lines[i], UnicodeWhiteSpace)
      || (ParseU32(t).Some? && ParseU32(t).value in Requested(lines))
      || t in Skipped(lines)
    decreases |lines|
  {
    var init := lines[..|lines| - 1];
    if i < |lines| - 1 {
      assert init[i] == lines[i];
      EveryLineAccounted(init, i);
    } else {
      TrimEnds(lines[i], UnicodeWhiteSpace);
    }
  }

  /** Repeated lines collapse and their order does not matter. */
  lemma RequestedDependsOnLinesOnly(lines: seq<string>, other: seq<string>)
    requires forall l :: l in lines <==> l in other
    ensures Requested(lines) == Requested(other)
  {
    RequestedMembers(lines);
    RequestedMembers(other);
    forall n | n in Requested(lines) ensures n in Requested(other) {
      var i :| 0 <= i < |lines| && LineNumber(lines[i]) == Some(n);
      assert lines[i] in other;
      var j :| 0 <= j < |other| && other[j] == lines[i];
    }
    forall n | n in Requested(other) ensures n in Requested(lines) {
      var j :| 0 <= j < |other| && LineNumber(other[j]) == Some(n);
      assert other[j] in lines;
      var i :| 0 <= i < |lines| && lines[i] == other[j];
    }
  }

  /** The loop that fills `file_numbers`, also returning the lines it warned about. */
  method ReadRequested(lines: seq<string>) returns (numbers: set<nat>, skipped: seq<string>)
    ensures numbers == Requested(lines) && skipped == Skipped(lines)
  {
    numbers, skipped := {}, [];
    var i := 0;
    while i < |lines|
      invariant 0 <= i <= |lines|
      invariant numbers == Requested(lines[..i]) && skipped == Skipped(lines[..i])
    {
      var line := Trim(lines[i], UnicodeWhiteSpace);
      var number := ParseU32(line);
      ReadStep(lines, i, line, number);
      if number.Some? {
        numbers := numbers + {number.value};
      } else if line != [] {
        skipped := skipped + [line];
      }
      i := i + 1;
    }
    assert lines[..|lines|] == lines;
  }

  /** One more line read: what it adds to the numbers and to the warnings. */
  lemma ReadStep(lines: seq<string>, i: nat, line: string, number: Option<nat>)
    requires i < |lines| && line == Trim(lines[i], UnicodeWhiteSpace) && number == ParseU32(line)
    ensures Requested(lines[..i + 1]) == if number.Some? then Requested(lines[..i]) + {number.value} else Requested(lines[..i])
    ensures Skipped(lines[..i + 1]) == if number.None? && line != [] then Skipped(lines[..i]) + [line] else Skipped(lines[..i])
  {
    var p := lines[..i + 1];
    assert p[..|p| - 1] == lines[..i] && p[|p| - 1] == lines[i];
  }

  // ---------------------------------------------------------------------------
  // Choosing what to copy
  // ---------------------------------------------------------------------------

  /** `format!("{}_{:04}.{}", prefix, index, extension)` on parsed parts: the copy source. */
  function SourceOf(n: StructuredName): string
  {
    FormatName(n.prefix, n.index, n.extension)
  }

  /** An image name that parses and is rebuilt unchanged from its parts. */
  predicate Canonical(name: string)
  {
    ParseFilename(name).Some? && SourceOf(ParseFilename(name).value) == name
  }

  /** The copy sources chosen so far, and the image whose parse panicked, if any. */
  datatype Plan = Plan(sources: seq<string>, stuck: Option<string>)

  /**
   * The decisions of the copy loop, for a name parser `parse`: every image
   * is parsed, the first that does not parse ends the loop, and an image
   * whose index was requested contributes its re-formatted name as a copy
   * source. Failed copies do not appear here: they never stop the loop.
   */
  function CopyPlan(parse: string -> Option<StructuredName>, images: seq<string>, requested: set<nat>): (r: Plan)
    ensures |r.sources| <= |images|
    decreases |images|
  {
    if images == [] then Plan([], None)
    else
      var init := images[..|images| - 1];
      var plan := CopyPlan(parse, init, requested);
      var x := images[|images| - 1];
      if plan.stuck.Some? then plan
      else
        match parse(x)
        case None => Plan(plan.sources, Some(x))
        case Some(n) =>
          if n.index in requested then Plan(plan.sources + [SourceOf(n)], None) else plan
  }

  /** The loop panics exactly when some image does not parse, and then on an image that does not. */
  lemma {:induction false} CopyPlanStuckIff(parse: string -> Option<StructuredName>, images: seq<string>,
                                            requested: set<nat>)
    ensures var r := CopyPlan(parse, images, requested);
      && (r.stuck.Some? ==> r.stuck.value in images && parse(r.stuck.value).None?)
      && (r.stuck.None? <==> forall k :: 0 <= k < |images| ==> parse(images[k]).Some?)
    decreases |images|
  {
    if images != [] {
      var init := images[..|images| - 1];
      CopyPlanStuckIff(parse, init, requested);
      assert forall k :: 0 <= k < |init| ==> init[k] == images[k];
    }
  }

  /** Once the loop has panicked, later images change nothing. */
  lemma {:induction false} CopyPlanStuck(parse: string -> Option<StructuredName>, images: seq<string>,
                                         later: seq<string>, requested: set<nat>)
    requires CopyPlan(parse, images, requested).stuck.Some?
    ensures CopyPlan(parse, images + later, requested) == CopyPlan(parse, images, requested)
    decreases |later|
  {
    if later == [] {
      assert images + later == images;
    } else {
      var init := later[..|later| - 1];
      assert (images + later)[..|images + later| - 1] == images + init;
      CopyPlanStuck(parse, images, init, requested);
    }
  }

  /**
   * When every image parses and is rebuilt unchanged from its parts, the
   * loop runs to the end and the sources are exactly the images whose index
   * was requested.
   */
  lemma {:induction false} CopyPlanCanonical(parse: string -> Option<StructuredName>, images: seq<string>,
                                             requested: set<nat>)
    requires forall k :: 0 <= k < |images| ==> parse(images[k]).Some? && SourceOf(parse(images[k]).value) == images[k]
    ensures var plan := CopyPlan(parse, images, requested);
      && plan.stuck == None
      && (forall x :: x in plan.sources <==> x in images && parse(x).Some? && parse(x).value.index in requested)
    decreases |images|
  {
    CopyPlanStuckIff(parse, images, requested);
    if images != [] {
      var init := images[..|images| - 1];
      assert forall k :: 0 <= k < |init| ==> init[k] == images[k];
      CopyPlanCanonical(parse, init, requested);
      assert images == init + [images[|images| - 1]];
    }
  }

  /** Over sorted canonical images, the sources come out in listing order too. */
  lemma {:induction false} CopyPlanSorted(parse: string -> Option<StructuredName>, images: seq<string>,
                                          requested: set<nat>)
    requires forall k :: 0 <= k < |images| ==> parse(images[k]).Some? && SourceOf(parse(images[k]).value) == images[k]
    requires StrictlySorted(images)
    ensures StrictlySorted(CopyPlan(parse, images, requested).sources)
    decreases |images|
  {
    if images != [] {
      var init := images[..|images| - 1];
      var x := images[|images| - 1];
      assert forall k :: 0 <= k < |init| ==> init[k] == images[k];
      CopyPlanSorted(parse, init, requested);
      CopyPlanCanonical(parse, init, requested);
      var sources := CopyPlan(parse, init, requested).sources;
      forall y | y in sources ensures Less(y, x) {
        var k :| 0 <= k < |init| && init[k] == y;
        assert images[k] == y;
      }
      SortedAppend(sources, x);
    }
  }

  /** A name above every element of a sorted list extends it sorted. */
  lemma SortedAppend(s: seq<string>, x: string)
    requires StrictlySorted(s) && forall y :: y in s ==> Less(y, x)
    ensures StrictlySorted(s + [x])
  {
    var t := s + [x];
    forall i, j | 0 <= i < j < |t| ensures Less(t[i], t[j]) {
      assert t[i] == s[i];
      if j < |s| {
        assert t[j] == s[j];
      } else {
        assert s[i] in s;
      }
    }
  }

  // ---------------------------------------------------------------------------
  // Copying
  // ---------------------------------------------------------------------------

  /** `fs::copy` succeeds: the source is a plain file and no I/O error strikes. */
  predicate CopyOk(d: Dir, source: string, ioFailures: set<string>)
  {
    source in d && !d[source].isDir && source !in ioFailures
  }

  /** What `Good Ones` holds, and the sources whose copy failed, in order. */
  datatype Copies = Copies(into: map<string, Entry>, failed: seq<string>)

  /** Attempt each copy in turn; a failure is reported and the next copy still happens. */
  function CopyAll(d: Dir, sources: seq<string>, ioFailures: set<string>): (r: Copies)
    ensures |r.failed| <= |sources|
    decreases |sources|
  {
    if sources == [] then Copies(map[], [])
    else
      var rest := CopyAll(d, sources[..|sources| - 1], ioFailures);
      var x := sources[|sources| - 1];
      if CopyOk(d, x, ioFailures) then Copies(rest.into[x := d[x]], rest.failed)
      else Copies(rest.into, rest.failed + [x])
  }

  /**
   * A source is copied exactly when its copy succeeds, with the contents
   * it has in the directory, and reported exactly when it fails.
   */
  lemma {:induction false} CopyAllMembers(d: Dir, sources: seq<string>, ioFailures: set<string>)
    ensures var r := CopyAll(d, sources, ioFailures);
      && (forall x :: x in r.into <==> x in sources && CopyOk(d, x, ioFailures))
      && (forall x :: x in r.into ==> x in d && r.into[x] == d[x])
      && (forall x :: x in r.failed <==> x in sources && !CopyOk(d, x, ioFailures))
    decreases |sources|
  {
    if sources != [] {
      var init := sources[..|sources| - 1];
      CopyAllMembers(d, init, ioFailures);
      assert sources == init + [sources[|sources| - 1]];
    }
  }

  // ---------------------------------------------------------------------------
  // The command
  // ---------------------------------------------------------------------------

  /** The reasons `copy` panics. */
  datatype CopyFailure = FolderExists | ListUnreadable(name: string) | NotCanonical(image: string)

  /** How `copy` ends: the working directory, the folder's contents, the failed copies, a panic. */
  datatype CopyRun = CopyRun(cwd: Dir, goodOnes: map<string, Entry>, failed: seq<string>, failure: Option<CopyFailure>)

  /**
   * `copy`, with the list-file prompt answer `input`, the lines of every
   * file that can be read (`texts`; opening fails on a name that is not a
   * plain file of the directory or is not in `texts`), an identity for the
   * new folder, and the sources whose copy hits an I/O error.
   */
  ghost function CopySpec(d: Dir, input: string, texts: map<string, seq<string>>, folderId: nat,
                          ioFailures: set<string>): CopyRun
  {
    if GoodOnes in d then CopyRun(d, map[], [], Some(FolderExists))
    else
      var d1 := d[GoodOnes := Entry(folderId, true)];
      var listName := ListName(input);
      if !IsFile(d1, listName) || listName !in texts then CopyRun(d1, map[], [], Some(ListUnreadable(listName)))
      else
        var plan := CopyPlan(ParseFilename, ImagesOf(d1), Requested(texts[listName]));
        var copies := CopyAll(d1, plan.sources, ioFailures);
        CopyRun(d1, copies.into, copies.failed, if plan.stuck.None? then None else Some(NotCanonical(plan.stuck.value)))
  }

  method Copy(dir: Directory, input: string, texts: map<string, seq<string>>, folderId: nat,
              ioFailures: set<string>) returns (run: CopyRun)
    modifies dir
    ensures run == CopySpec(old(dir.entries), input, texts, folderId, ioFailures)
    ensures dir.entries == run.cwd
  {
    ghost var d := dir.entries;
    var created := dir.CreateDir(GoodOnes, folderId);
    if !created {
      return CopyRun(dir.entries, map[], [], Some(FolderExists));
    }
    var listName := ListName(input);
    if !IsFile(dir.entries, listName) || listName !in texts {
      return CopyRun(dir.entries, map[], [], Some(ListUnreadable(listName)));
    }
    var images := GetImages(dir);
    var requested, skipped := ReadRequested(texts[listName]);
    var into, failed, stuck := CopyImages(dir.entries, images, requested, ioFailures);
    CopySpecOutcome(d, input, texts, folderId, ioFailures, images, requested, stuck, into, failed);
    run := CopyRun(dir.entries, into, failed, if stuck.None? then None else Some(NotCanonical(stuck.value)));
  }

  /**
   * The loop of `copy` over the sorted images: parse each one, stop at the
   * first that does not parse, and copy the re-formatted name of each one
   * whose index was requested into `Good Ones`.
   */
  method CopyImages(d: Dir, images: seq<string>, requested: set<nat>, ioFailures: set<string>)
    returns (into: map<string, Entry>, failed: seq<string>, stuck: Option<string>)
    ensures var plan := CopyPlan(ParseFilename, images, requested);
      plan.stuck == stuck && CopyAll(d, plan.sources, ioFailures) == Copies(into, failed)
  {
    into, failed := map[], [];
    ghost var sources: seq<string> := [];
    var i := 0;
    while i < |images|
      invariant 0 <= i <= |images|
      invariant CopyPlan(ParseFilename, images[..i], requested) == Plan(sources, None)
      invariant CopyAll(d, sources, ioFailures) == Copies(into, failed)
    {
      CopyPlanStep(ParseFilename, images, i, requested);
      var parsed := ParseFilename(images[i]);
      if parsed.None? {
        CopyPlanPanics(ParseFilename, images, i, requested);
        return into, failed, Some(images[i]);
      }
      var n := parsed.value;
      if n.index in requested {
        var source := SourceOf(n);
        CopyAllStep(d, sources, source, ioFailures);
        if CopyOk(d, source, ioFailures) {
          into := into[source := d[source]];
        } else {
          failed := failed + [source];
        }
        sources := sources + [source];
      }
      i := i + 1;
    }
    assert images[..|images|] == images;
    stuck := None;
  }

  /** The outcome of a run that gets as far as the copy loop, from the plan and the copies. */
  lemma CopySpecOutcome(d: Dir, input: string, texts: map<string, seq<string>>, folderId: nat, ioFailures: set<string>,
                        images: seq<string>, requested: set<nat>, stuck: Option<string>,
                        into: map<string, Entry>, failed: seq<string>)
    requires GoodOnes !in d && IsFile(d, ListName(input)) && ListName(input) in texts
    requires images == ImagesOf(d[GoodOnes := Entry(folderId, true)])
    requires requested == Requested(texts[ListName(input)])
    requires var plan := CopyPlan(ParseFilename, images, requested);
      plan.stuck == stuck && CopyAll(d[GoodOnes := Entry(folderId, true)], plan.sources, ioFailures) == Copies(into, failed)
    ensures CopySpec(d, input, texts, folderId, ioFailures) ==
      CopyRun(d[GoodOnes := Entry(folderId, true)], into, failed, if stuck.None? then None else Some(NotCanonical(stuck.value)))
  {
  }

  /** One more image planned: it panics, adds its source, or is passed over. */
  lemma CopyPlanStep(parse: string -> Option<StructuredName>, images: seq<string>, i: nat, requested: set<nat>)
    requires i < |images| && CopyPlan(parse, images[..i], requested).stuck.None?
    ensures var plan := CopyPlan(parse, images[..i], requested);
      CopyPlan(parse, images[..i + 1], requested) ==
        match parse(images[i])
        case None => Plan(plan.sources, Some(images[i]))
        case Some(n) => if n.index in requested then Plan(plan.sources + [SourceOf(n)], None) else plan
  {
    assert images[..i + 1][..i] == images[..i];
  }

  /** A panic on image `i` is where the whole loop ends. */
  lemma CopyPlanPanics(parse: string -> Option<StructuredName>, images: seq<string>, i: nat, requested: set<nat>)
    requires i < |images| && CopyPlan(parse, images[..i + 1], requested).stuck.Some?
    ensures CopyPlan(parse, images, requested) == CopyPlan(parse, images[..i + 1], requested)
  {
    CopyPlanStuck(parse, images[..i + 1], images[i + 1..], requested);
    assert images[..i + 1] + images[i + 1..] == images;
  }

  /** One more copy attempted: it lands in the folder or is reported. */
  lemma CopyAllStep(d: Dir, sources: seq<string>, x: string, ioFailures: set<string>)
    ensures var rest := CopyAll(d, sources, ioFailures);
      CopyAll(d, sources + [x], ioFailures) ==
        if CopyOk(d, x, ioFailures) then Copies(rest.into[x := d[x]], rest.failed)
        else Copies(rest.into, rest.failed + [x])
  {
    assert (sources + [x])[..|sources|] == sources;
  }

  // ---------------------------------------------------------------------------
  // Properties
  // ---------------------------------------------------------------------------

  /** Adding the folder does not change the listing: it is a directory. */
  lemma ImagesIgnoreFolder(d: Dir, folderId: nat)
    requires GoodOnes !in d
    ensures ImagesOf(d[GoodOnes := Entry(folderId, true)]) == ImagesOf(d)
  {
    var d1 := d[GoodOnes := Entry(folderId, true)];
    assert ImageSet(d1) == ImageSet(d);
  }

  /** The names the rename engine gives are canonical, so `copy` takes them as they are. */
  lemma FormattedIsCanonical(prefix: string, index: nat, ext: string)
    requires prefix != [] && '\n' !in prefix
    requires index < U32Limit
    requires ext != [] && AllWordChars(ext)
    ensures Canonical(FormatName(prefix, index, ext))
  {
    ParseFormatRoundTrip(prefix, index, ext);
  }

  /** An existing `Good Ones` ends the command before anything happens. */
  lemma CopyFolderExists(d: Dir, input: string, texts: map<string, seq<string>>, folderId: nat,
                         ioFailures: set<string>)
    ensures var run := CopySpec(d, input, texts, folderId, ioFailures);
      (run.failure == Some(FolderExists) <==> GoodOnes in d)
      && (GoodOnes in d ==> run.cwd == d && run.goodOnes == map[])
      && (GoodOnes !in d ==> run.cwd == d[GoodOnes := Entry(folderId, true)])
  {
  }

  /**
   * Any listed image that does not parse makes `copy` panic, even when no
   * number is requested at all.
   */
  lemma CopyPanicsOnForeignName(d: Dir, input: string, texts: map<string, seq<string>>, folderId: nat,
                                ioFailures: set<string>, image: string)
    requires GoodOnes !in d && IsFile(d, ListName(input)) && ListName(input) in texts
    requires IsImageEntry(d, image) && ParseFilename(image).None?
    ensures var run := CopySpec(d, input, texts, folderId, ioFailures);
      run.failure.Some? && run.failure.value.NotCanonical? && ParseFilename(run.failure.value.image).None?
  {
    assert IsFile(d[GoodOnes := Entry(folderId, true)], ListName(input));
    ImagesIgnoreFolder(d, folderId);
    var images := ImagesOf(d);
    assert image in images;
    var k :| 0 <= k < |images| && images[k] == image;
    CopyPlanStuckIff(ParseFilename, images, Requested(texts[ListName(input)]));
  }

  /** The listed images are plain files of the directory. */
  lemma ListedArePlainFiles(d: Dir, x: string)
    requires x in ImagesOf(d)
    ensures x in d && !d[x].isDir
  {
  }

  /**
   * The copies of a plan over canonical images: the attempted sources are
   * the images themselves, so an image ends up copied exactly when its
   * index was requested and its copy succeeds, and is reported otherwise.
   */
  lemma PlanCopies(parse: string -> Option<StructuredName>, d: Dir, images: seq<string>, requested: set<nat>,
                   ioFailures: set<string>)
    requires forall k :: 0 <= k < |images| ==> parse(images[k]).Some? && SourceOf(parse(images[k]).value) == images[k]
    ensures var plan := CopyPlan(parse, images, requested);
      var copies := CopyAll(d, plan.sources, ioFailures);
      && plan.stuck == None
      && (forall x :: x in copies.into <==>
            x in images && parse(x).Some? && parse(x).value.index in requested && CopyOk(d, x, ioFailures))
      && (forall x :: x in copies.into ==> x in d && copies.into[x] == d[x])
      && (forall x :: x in copies.failed <==>
            x in images && parse(x).Some? && parse(x).value.index in requested && !CopyOk(d, x, ioFailures))
  {
    CopyPlanCanonical(parse, images, requested);
    CopyAllMembers(d, CopyPlan(parse, images, requested).sources, ioFailures);
  }

  /**
   * When `Good Ones` is new, the list can be read and every listed image is
   * canonical, the command completes: exactly the listed images whose index
   * was requested are attempted, those that copy are in `Good Ones` with
   * their contents, the others are reported, and no failure stops the loop.
   */
  lemma CopyCompletes(d: Dir, input: string, texts: map<string, seq<string>>, folderId: nat,
                      ioFailures: set<string>)
    requires GoodOnes !in d && IsFile(d, ListName(input)) && ListName(input) in texts
    requires forall x :: x in ImagesOf(d) ==> Canonical(x)
    ensures var run := CopySpec(d, input, texts, folderId, ioFailures);
      var requested := Requested(texts[ListName(input)]);
      && run.failure == None
      && run.cwd == d[GoodOnes := Entry(folderId, true)]
      && (forall x :: x in run.goodOnes <==>
            x in ImagesOf(d) && ParseFilename(x).Some? && ParseFilename(x).value.index in requested && x !in ioFailures)
      && (forall x :: x in run.goodOnes ==> x in d && run.goodOnes[x] == d[x])
      && (forall x :: x in run.failed <==>
            x in ImagesOf(d) && ParseFilename(x).Some? && ParseFilename(x).value.index in requested && x in ioFailures)
  {
    var d1 := d[GoodOnes := Entry(folderId, true)];
    var requested := Requested(texts[ListName(input)]);
    ImagesIgnoreFolder(d, folderId);
    var images := ImagesOf(d);
    forall k | 0 <= k < |images|
      ensures ParseFilename(images[k]).Some? && SourceOf(ParseFilename(images[k]).value) == images[k]
    {
      assert images[k] in images;
    }
    PlanCopies(ParseFilename, d1, images, requested, ioFailures);
    forall x | x in images ensures CopyOk(d1, x, ioFailures) <==> x !in ioFailures {
      ListedArePlainFiles(d, x);
    }
    var run := CopySpec(d, input, texts, folderId, ioFailures);
    forall x | x in run.goodOnes ensures x in d && run.goodOnes[x] == d[x] {
      ListedArePlainFiles(d, x);
    }
  }
}
