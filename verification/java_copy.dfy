/**
 * `Copy` (Java/Copy.java): make `Good Ones`, then for every line of
 * `good ones.txt` read a photo number, pick the first of the `.NEF`, `.JPG`
 * and `.jpg` photos with that number that exists, and copy it into the
 * folder. The photo prefix is the name of the working directory, taken
 * from its absolute path.
 *
 * The absolute path, the lines of the readable files and the names whose
 * copy fails for reasons outside the model are parameters. The copies land
 * in the folder, kept as its own map from name to the entry copied there.
 */
module JavaCopy {
  import opened Wrappers
  import opened Text
  import opened Fs
  import opened JavaNames

  const GoodOnes: string := "Good Ones"
  const ListFile: string := "good ones.txt"

  // ---------------------------------------------------------------------------
  // The prefix: `getAbsolutePath().split("/")`, second to last piece
  // ---------------------------------------------------------------------------

  /** All the pieces of `s` between slashes, empty ones included. */
  function SplitAll(s: string): (r: seq<string>)
    ensures |r| >= 1
    decreases |s|
  {
    var k := LastIndexOf(s, '/');
    if k < 0 then [s] else SplitAll(s[..k]) + [s[k + 1..]]
  }

  function DropTrailingEmpty(parts: seq<string>): (r: seq<string>)
    ensures |r| <= |parts| && r == parts[..|r|]
    ensures r != [] ==> r[|r| - 1] != ""
  {
    if parts != [] && parts[|parts| - 1] == "" then DropTrailingEmpty(parts[..|parts| - 1]) else parts
  }

  /** `s.split("/")`: the text itself when there is no slash, otherwise the pieces without the trailing empty ones. */
  function JavaSplit(s: string): seq<string>
  {
    if LastIndexOf(s, '/') < 0 then [s] else DropTrailingEmpty(SplitAll(s))
  }

  /** `directories[directories.length - 2]`; fewer than two pieces throw `ArrayIndexOutOfBoundsException` (`None`). */
  function FolderPrefix(absolutePath: string): Option<string>
  {
    var parts := JavaSplit(absolutePath);
    if |parts| < 2 then None else Some(parts[|parts| - 2])
  }

  /** A piece with no slash after the last slash is the last piece. */
  lemma SplitAllJoin(a: string, b: string)
    requires '/' !in b
    ensures SplitAll(a + "/" + b) == SplitAll(a) + [b]
  {
    var s := a + "/" + b;
    forall i | |a| < i < |s| ensures s[i] != '/' {
      assert s[i] == b[i - |a| - 1];
    }
    LastIndexBeforeAt(s, '/', |a|, |s|);
    assert s[..|a|] == a && s[|a| + 1..] == b;
  }

  /**
   * The absolute path of `.` in a directory `name` is `parent/name/.`; its
   * second to last piece is the directory's name.
   */
  lemma FolderPrefixIsName(parent: string, name: string)
    requires '/' !in name
    ensures FolderPrefix(parent + "/" + name + "/.") == Some(name)
  {
    var dir := parent + "/" + name;
    var s := dir + "/" + ".";
    assert s == parent + "/" + name + "/.";
    SplitAllJoin(parent, name);
    SplitAllJoin(dir, ".");
    assert s[|dir|] == '/';
    var parts := SplitAll(s);
    assert parts == SplitAll(parent) + [name] + ["."];
    assert LastIndexOf(s, '/') >= 0 by {
      LastIndexBeforeAt(s, '/', |dir|, |s|);
    }
  }

  /** In the root directory the path is `/.` and the prefix is empty. */
  lemma FolderPrefixAtRoot()
    ensures FolderPrefix("/.") == Some("")
  {
    SplitAllJoin("", ".");
    assert "" + "/" + "." == "/.";
    LastIndexBeforeAt("/.", '/', 0, 2);
  }

  // ---------------------------------------------------------------------------
  // Which photo a number stands for
  // ---------------------------------------------------------------------------

  /** The names tried for number `n`, in priority order: raw, then the two JPEG spellings. */
  function Candidates(prefix: string, n: int): seq<string>
  {
    [FileName(prefix, n, ".NEF"), FileName(prefix, n, ".JPG"), FileName(prefix, n, ".jpg")]
  }

  /** The first of `names` that exists, if any. */
  function FirstExisting(cwd: Dir, names: seq<string>): (r: Option<string>)
    ensures r.Some? ==> r.value in cwd && r.value in names
    ensures r.None? <==> forall j :: 0 <= j < |names| ==> names[j] !in cwd
  {
    if names == [] then None else if names[0] in cwd then Some(names[0]) else FirstExisting(cwd, names[1..])
  }

  /** The earliest existing name is the one chosen. */
  lemma {:induction false} FirstExistingAt(cwd: Dir, names: seq<string>, i: nat)
    requires i < |names| && names[i] in cwd
    requires forall j :: 0 <= j < i ==> names[j] !in cwd
    ensures FirstExisting(cwd, names) == Some(names[i])
  {
    if i > 0 {
      assert names[0] !in cwd;
      FirstExistingAt(cwd, names[1..], i - 1);
    }
  }

  /** The chosen photo: the first candidate `File.exists` finds, if any. */
  function Chosen(cwd: Dir, prefix: string, n: int): Option<string>
  {
    FirstExisting(cwd, Candidates(prefix, n))
  }

  /** The three candidates are different names, told apart by their extensions. */
  lemma CandidatesDistinct(prefix: string, n: int)
    ensures var c := Candidates(prefix, n); c[0] != c[1] && c[1] != c[2] && c[0] != c[2]
  {
    var stem := prefix + "_" + Padding(n) + IntToString(n);
    var c := Candidates(prefix, n);
    assert c[0] == stem + ".NEF" && c[1] == stem + ".JPG" && c[2] == stem + ".jpg";
    assert c[0][|stem| + 1] == 'N' && c[1][|stem| + 1] == 'J' && c[2][|stem| + 1] == 'j';
  }

  // ---------------------------------------------------------------------------
  // The loop over the lines
  // ---------------------------------------------------------------------------

  /** The folder's new entries, `numLines`, `copiedCount`, and the exception that ended the loop. */
  datatype CopyState = CopyState(folder: map<string, Entry>, numLines: nat, copiedCount: nat, error: Option<JavaError>)

  /**
   * One line: count it, parse it, pick the photo and copy it into the
   * folder. A missing photo is reported and skipped; a copy that fails
   * (the folder is a plain file, or a failure outside the model) throws
   * `IOException`.
   */
  function CopyLine(cwd: Dir, prefix: string, ioFailures: set<string>, st: CopyState, line: string): CopyState
    requires GoodOnes in cwd
  {
    if st.error.Some? then st
    else
      var counted := st.(numLines := st.numLines + 1);
      match ParseInt(line)
      case None => counted.(error := Some(NumberFormatException(line)))
      case Some(n) =>
        match Chosen(cwd, prefix, n)
        case None => counted
        case Some(photo) =>
          if !cwd[GoodOnes].isDir || photo !in cwd || photo in ioFailures then counted.(error := Some(IOException(photo)))
          else counted.(folder := counted.folder[photo := cwd[photo]], copiedCount := counted.copiedCount + 1)
  }

  /** The `while` loop over the lines, in order. */
  function CopyLines(cwd: Dir, prefix: string, ioFailures: set<string>, lines: seq<string>): (r: CopyState)
    requires GoodOnes in cwd
    ensures r.copiedCount <= r.numLines <= |lines|
    ensures r.error.None? ==> r.numLines == |lines|
  {
    if lines == [] then CopyState(map[], 0, 0, None)
    else CopyLine(cwd, prefix, ioFailures, CopyLines(cwd, prefix, ioFailures, lines[..|lines| - 1]), lines[|lines| - 1])
  }

  /** Once the loop has ended with an exception, later lines change nothing. */
  lemma {:induction false} CopyLinesStop(cwd: Dir, prefix: string, ioFailures: set<string>, lines: seq<string>, k: nat)
    requires GoodOnes in cwd && k <= |lines|
    requires CopyLines(cwd, prefix, ioFailures, lines[..k]).error.Some?
    ensures CopyLines(cwd, prefix, ioFailures, lines) == CopyLines(cwd, prefix, ioFailures, lines[..k])
    decreases |lines| - k
  {
    if k < |lines| {
      assert lines[..k + 1][..k] == lines[..k];
      CopyLinesStop(cwd, prefix, ioFailures, lines, k + 1);
    } else {
      assert lines[..k] == lines;
    }
  }

  /** One more line is one more step of the loop. */
  lemma CopyLinesNext(cwd: Dir, prefix: string, ioFailures: set<string>, lines: seq<string>, i: nat)
    requires GoodOnes in cwd && i < |lines|
    ensures CopyLines(cwd, prefix, ioFailures, lines[..i + 1])
         == CopyLine(cwd, prefix, ioFailures, CopyLines(cwd, prefix, ioFailures, lines[..i]), lines[i])
  {
    assert lines[..i + 1][..i] == lines[..i];
  }

  /** The loop of `Copy.main`, over the lines `readLine` returns. */
  method CopyListed(cwd: Dir, prefix: string, ioFailures: set<string>, lines: seq<string>)
    returns (folder: map<string, Entry>, numLines: nat, copiedCount: nat, error: Option<JavaError>)
    requires GoodOnes in cwd
    ensures CopyState(folder, numLines, copiedCount, error) == CopyLines(cwd, prefix, ioFailures, lines)
  {
    folder, numLines, copiedCount, error := map[], 0, 0, None;
    var i := 0;
    while i < |lines|
      invariant i <= |lines|
      invariant CopyLines(cwd, prefix, ioFailures, lines[..i]) == CopyState(folder, numLines, copiedCount, None)
    {
      CopyLinesNext(cwd, prefix, ioFailures, lines, i);
      var line := lines[i];
      numLines := numLines + 1;
      var photoNumber := ParseInt(line);
      if photoNumber.None? {
        error := Some(NumberFormatException(line));
        CopyLinesStop(cwd, prefix, ioFailures, lines, i + 1);
        return;
      }
      var n := photoNumber.value;
      var rawPhoto, jpgPhoto1, jpgPhoto2 := FileName(prefix, n, ".NEF"), FileName(prefix, n, ".JPG"), FileName(prefix, n, ".jpg");
      var candidates := Candidates(prefix, n);
      assert candidates == [rawPhoto, jpgPhoto1, jpgPhoto2];
      var photo: string;
      if rawPhoto in cwd {
        photo := rawPhoto;
        FirstExistingAt(cwd, candidates, 0);
      } else if jpgPhoto1 in cwd {
        photo := jpgPhoto1;
        FirstExistingAt(cwd, candidates, 1);
      } else if jpgPhoto2 in cwd {
        photo := jpgPhoto2;
        FirstExistingAt(cwd, candidates, 2);
      } else {
        assert Chosen(cwd, prefix, n) == None;
        i := i + 1;
        continue;
      }
      assert Chosen(cwd, prefix, n) == Some(photo);
      if !cwd[GoodOnes].isDir || photo !in cwd || photo in ioFailures {
        error := Some(IOException(photo));
        CopyLinesStop(cwd, prefix, ioFailures, lines, i + 1);
        return;
      }
      folder := folder[photo := cwd[photo]];
      copiedCount := copiedCount + 1;
      i := i + 1;
    }
    assert lines[..|lines|] == lines;
  }

  // ---------------------------------------------------------------------------
  // `Copy.main`
  // ---------------------------------------------------------------------------

  /** The directory after `main`, the folder's new entries, the two counters, and the exception. */
  datatype CopyRun = CopyRun(cwd: Dir, folder: map<string, Entry>, numLines: nat, copiedCount: nat, error: Option<JavaError>)

  /**
   * `Copy.main`: `mkdir` (its result only printed), open the list file,
   * take the prefix from the path, then the loop. `folderId` is the
   * identity of the folder `mkdir` creates.
   */
  ghost function CopySpec(d: Dir, absolutePath: string, texts: map<string, seq<string>>, folderId: nat,
                          ioFailures: set<string>): CopyRun
  {
    var d1 := if GoodOnes in d then d else d[GoodOnes := Entry(folderId, true)];
    if !IsFile(d1, ListFile) || ListFile !in texts then CopyRun(d1, map[], 0, 0, Some(FileNotFoundException(ListFile)))
    else match FolderPrefix(absolutePath)
      case None => CopyRun(d1, map[], 0, 0, Some(ArrayIndexOutOfBoundsException))
      case Some(prefix) =>
        var st := CopyLines(d1, prefix, ioFailures, texts[ListFile]);
        CopyRun(d1, st.folder, st.numLines, st.copiedCount, st.error)
  }

  method Copy(dir: Directory, absolutePath: string, texts: map<string, seq<string>>, folderId: nat, ioFailures: set<string>)
    returns (folder: map<string, Entry>, numLines: nat, copiedCount: nat, error: Option<JavaError>)
    modifies dir
    ensures CopyRun(dir.entries, folder, numLines, copiedCount, error) == CopySpec(old(dir.entries), absolutePath, texts, folderId, ioFailures)
  {
    var created := dir.CreateDir(GoodOnes, folderId);
    folder, numLines, copiedCount := map[], 0, 0;
    if !IsFile(dir.entries, ListFile) || ListFile !in texts {
      return folder, numLines, copiedCount, Some(FileNotFoundException(ListFile));
    }
    var prefix := FolderPrefix(absolutePath);
    if prefix.None? {
      return folder, numLines, copiedCount, Some(ArrayIndexOutOfBoundsException);
    }
    folder, numLines, copiedCount, error := CopyListed(dir.entries, prefix.value, ioFailures, texts[ListFile]);
  }

  /** The handlers catch `FileNotFoundException` and `IOException`; then both counts are printed. Anything else aborts the run. */
  predicate CountsPrinted(error: Option<JavaError>)
  {
    error.None? || error.value.FileNotFoundException? || error.value.IOException?
  }

  // ---------------------------------------------------------------------------
  // Properties
  // ---------------------------------------------------------------------------

  /** The photo a line asks for, if it parses and one of its candidates exists. */
  function LinePhoto(cwd: Dir, prefix: string, line: string): Option<string>
  {
    match ParseInt(line)
    case None => None
    case Some(n) => Chosen(cwd, prefix, n)
  }

  /** The photos the lines name, in order, one for each line whose number has a photo. */
  function Found(cwd: Dir, prefix: string, lines: seq<string>): (r: seq<string>)
    ensures |r| <= |lines|
    ensures forall x :: x in r ==> x in cwd
  {
    if lines == [] then []
    else
      var earlier := Found(cwd, prefix, lines[..|lines| - 1]);
      match LinePhoto(cwd, prefix, lines[|lines| - 1])
      case None => earlier
      case Some(photo) => earlier + [photo]
  }

  /**
   * With `Good Ones` a directory, every line a number and no copy failing:
   * every line is counted, one copy is counted for each line whose photo
   * exists and none for the others, and the folder holds exactly the
   * photos found, each a copy of the original.
   */
  lemma {:induction false} CopiesFound(cwd: Dir, prefix: string, ioFailures: set<string>, lines: seq<string>)
    requires GoodOnes in cwd && cwd[GoodOnes].isDir
    requires forall k :: 0 <= k < |lines| ==> ParseInt(lines[k]).Some?
    requires forall x :: x in Found(cwd, prefix, lines) ==> x !in ioFailures
    ensures var r := CopyLines(cwd, prefix, ioFailures, lines);
      && r.error == None && r.numLines == |lines| && r.copiedCount == |Found(cwd, prefix, lines)|
      && r.folder.Keys == Elements(Found(cwd, prefix, lines))
      && (forall x :: x in r.folder ==> r.folder[x] == cwd[x])
    decreases |lines|
  {
    if lines != [] {
      var init := lines[..|lines| - 1];
      var last := lines[|lines| - 1];
      forall k | 0 <= k < |init| ensures ParseInt(init[k]).Some? {
        assert init[k] == lines[k];
      }
      var st, earlier := CopyLines(cwd, prefix, ioFailures, init), Found(cwd, prefix, init);
      var r := CopyLines(cwd, prefix, ioFailures, lines);
      FoundLast(cwd, prefix, lines);
      CopiesFound(cwd, prefix, ioFailures, init);
      assert ParseInt(last).Some?;
      var n := ParseInt(last).value;
      assert LinePhoto(cwd, prefix, last) == Chosen(cwd, prefix, n);
      match Chosen(cwd, prefix, n)
      case None =>
        assert r == st.(numLines := st.numLines + 1);
        assert Found(cwd, prefix, lines) == earlier;
      case Some(photo) =>
        assert Found(cwd, prefix, lines) == earlier + [photo];
        assert photo !in ioFailures && photo in cwd;
        assert r == st.(numLines := st.numLines + 1, folder := st.folder[photo := cwd[photo]], copiedCount := st.copiedCount + 1);
        ElementsSnoc(earlier, photo);
    }
  }

  lemma ElementsSnoc(s: seq<string>, x: string)
    ensures Elements(s + [x]) == Elements(s) + {x}
  {
  }

  /** The last line adds its photo, if it has one, to the photos found before it. */
  lemma FoundLast(cwd: Dir, prefix: string, lines: seq<string>)
    requires lines != []
    ensures var outcome := LinePhoto(cwd, prefix, lines[|lines| - 1]);
      Found(cwd, prefix, lines) == Found(cwd, prefix, lines[..|lines| - 1]) + (if outcome.Some? then [outcome.value] else [])
  {
  }

  /** Every photo found is named by some line. */
  lemma {:induction false} FoundIsNamed(cwd: Dir, prefix: string, lines: seq<string>, x: string) returns (k: nat)
    requires x in Found(cwd, prefix, lines)
    ensures k < |lines| && LinePhoto(cwd, prefix, lines[k]) == Some(x)
    decreases |lines|
  {
    var init := lines[..|lines| - 1];
    FoundLast(cwd, prefix, lines);
    if x in Found(cwd, prefix, init) {
      k := FoundIsNamed(cwd, prefix, init, x);
      assert lines[k] == init[k];
    } else {
      k := |lines| - 1;
    }
  }

  /** Every photo a line names is found. */
  lemma {:induction false} NamedIsFound(cwd: Dir, prefix: string, lines: seq<string>, x: string, k: nat)
    requires k < |lines| && LinePhoto(cwd, prefix, lines[k]) == Some(x)
    ensures x in Found(cwd, prefix, lines)
    decreases |lines|
  {
    var init := lines[..|lines| - 1];
    FoundLast(cwd, prefix, lines);
    if k < |init| {
      assert init[k] == lines[k];
      NamedIsFound(cwd, prefix, init, x, k);
    }
  }

  /** When `Good Ones` is a plain file, the first photo found ends the loop with `IOException`: nothing is copied. */
  lemma {:induction false} CopyOntoFileCopiesNothing(cwd: Dir, prefix: string, ioFailures: set<string>, lines: seq<string>)
    requires GoodOnes in cwd && !cwd[GoodOnes].isDir
    ensures var r := CopyLines(cwd, prefix, ioFailures, lines); r.copiedCount == 0 && r.folder == map[]
    decreases |lines|
  {
    if lines != [] {
      CopyOntoFileCopiesNothing(cwd, prefix, ioFailures, lines[..|lines| - 1]);
    }
  }

  /**
   * A line that is not a number, reached with no exception before it,
   * ends the run with `NumberFormatException`, which no handler catches:
   * the counts are not printed.
   */
  lemma NonNumericAborts(cwd: Dir, prefix: string, ioFailures: set<string>, lines: seq<string>, k: nat)
    requires GoodOnes in cwd && k < |lines|
    requires CopyLines(cwd, prefix, ioFailures, lines[..k]).error == None
    requires ParseInt(lines[k]) == None
    ensures var r := CopyLines(cwd, prefix, ioFailures, lines);
      r.error == Some(NumberFormatException(lines[k])) && r.numLines == k + 1 && !CountsPrinted(r.error)
  {
    assert lines[..k + 1][..k] == lines[..k];
    CopyLinesStop(cwd, prefix, ioFailures, lines, k + 1);
  }
}
