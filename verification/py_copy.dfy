/**
 * The copy side of the Python scripts (Python/PicUtils.py and
 * Python/pic.py, whose `copy` functions are the same): make a folder
 * named after the list file, read one photo number per line into a set,
 * then copy every photo whose number is in the set into the folder.
 */
module PyCopy {
  import opened Wrappers
  import opened Text
  import opened Order
  import opened Fs
  import opened PyNames
  import opened PyRename

  /** The list file used when the answer to the prompt is `.`. */
  const DefaultInput: string := "Good Ones.txt"

  function InputName(answer: string): string
  {
    if answer == "." then DefaultInput else answer
  }

  // ---------------------------------------------------------------------------
  // `int()` on a stripped line
  // ---------------------------------------------------------------------------

  /**
   * The value of decimal digits with single underscores between digits,
   * as Python's `int()` reads them: `digit ("_"? digit)*`, or `None`.
   */
  function GroupsValue(s: string): (r: Option<nat>)
  {
    if s == [] || !IsDigit(s[|s| - 1]) then None
    else if |s| == 1 then Some(DigitValue(s[0]))
    else
      var front := if s[|s| - 2] == '_' then s[..|s| - 2] else s[..|s| - 1];
      match GroupsValue(front)
      case None => None
      case Some(v) => Some(v * 10 + DigitValue(s[|s| - 1]))
  }

  /** How many sign characters `text` starts with: one for a leading `+` or `-`. */
  function SignLength(text: string): (k: nat)
    ensures k <= |text|
  {
    if text != [] && (text[0] == '+' || text[0] == '-') then 1 else 0
  }

  /**
   * `int(text)` in base 10 on text that `strip()` has already trimmed: an
   * optional sign, then digit groups. `None` is the `ValueError`.
   */
  function PyInt(text: string): (r: Option<int>)
  {
    var k := SignLength(text);
    match GroupsValue(text[k..])
    case None => None
    case Some(v) => Some(if k == 1 && text[0] == '-' then -(v as int) else v)
  }

  /** A line of the list file: stripped of white space as `str.strip` does, then read by `int()`. */
  function LineValue(line: string): Option<int>
  {
    PyInt(Trim(line, PythonSpace))
  }

  /** Plain digits read as their value. */
  lemma {:induction false} DigitsValue(digits: string)
    requires digits != [] && AllDigits(digits)
    ensures GroupsValue(digits) == Some(ValueOf(digits))
  {
    if |digits| > 1 {
      DigitsValue(digits[..|digits| - 1]);
    } else {
      assert digits[..0] == [];
    }
  }

  /** Plain digits, signed or not, read as their value; an empty line does not. */
  lemma PyIntDigits(digits: string)
    requires digits != [] && AllDigits(digits)
    ensures PyInt(digits) == Some(ValueOf(digits))
    ensures PyInt("+" + digits) == Some(ValueOf(digits))
    ensures PyInt("-" + digits) == Some(-(ValueOf(digits) as int))
    ensures PyInt("") == None
  {
    DigitsValue(digits);
    assert SignLength(digits) == 0 by { assert IsDigit(digits[0]); }
    var plus, minus := "+" + digits, "-" + digits;
    assert SignLength(plus) == 1 && plus[1..] == digits;
    assert SignLength(minus) == 1 && minus[1..] == digits;
  }

  /** Underscores group digits, but not at either end or two in a row; a lone sign is not a number. */
  lemma PyIntUnderscores()
    ensures PyInt("1_000") == Some(1000)
    ensures PyInt("1__0") == None && PyInt("_1") == None && PyInt("1_") == None
    ensures PyInt("+") == None && PyInt("--1") == None && PyInt("1 2") == None
  {
    assert "1_000"[..3] == "1_0" && "1_0"[..1] == "1" && "1_000"[..4] == "1_00" && "1_00"[..3] == "1_0";
    assert GroupsValue("1") == Some(1);
    assert GroupsValue("1_0") == Some(10);
    assert GroupsValue("1_00") == Some(100);
    assert "1__0"[..2] == "1_";
    assert "_1"[..0] == [];
    assert "--1"[1..] == "-1";
  }

  /** What `"{:04d}".format(n)` writes, `int()` reads back as `n`, negative numbers included. */
  lemma PyIntReadsPad4(n: int)
    ensures PyInt(PyPad4(n)) == Some(n)
  {
    var r := PyPad4(n);
    PyPad4Value(n);
    if n >= 0 {
      DigitsValue(r);
      assert SignLength(r) == 0 && r[0..] == r;
    } else {
      var digits := r[1..];
      DigitsValue(digits);
      assert SignLength(r) == 1;
    }
  }

  // ---------------------------------------------------------------------------
  // `to_copy`
  // ---------------------------------------------------------------------------

  /** The numbers to copy, or the line whose `int()` raised. */
  datatype Numbers = Numbers(values: set<int>) | BadLine(line: string)

  /**
   * `set(read(line) for line in lines)`, where `read` may raise: the first
   * line it cannot read ends the reading. `copy` reads with `LineValue`.
   */
  function ToCopy(read: string -> Option<int>, lines: seq<string>): (r: Numbers)
  {
    if lines == [] then Numbers({})
    else
      var rest := ToCopy(read, lines[..|lines| - 1]);
      var line := lines[|lines| - 1];
      if rest.BadLine? then rest
      else match read(line)
        case None => BadLine(line)
        case Some(v) => Numbers(rest.values + {v})
  }

  /** `set(int(line.strip()) for line in f.readlines())` as a loop over the lines. */
  method ReadToCopy(lines: seq<string>) returns (r: Numbers)
    ensures r == ToCopy(LineValue, lines)
  {
    var values: set<int> := {};
    for i := 0 to |lines|
      invariant ToCopy(LineValue, lines[..i]) == Numbers(values)
    {
      assert lines[..i + 1][..i] == lines[..i];
      var v := LineValue(lines[i]);
      if v.None? {
        ToCopyStops(LineValue, lines, i + 1);
        return BadLine(lines[i]);
      }
      values := values + {v.value};
    }
    assert lines[..|lines|] == lines;
    r := Numbers(values);
  }

  /** Once a prefix of the lines has raised, the whole file raises with the same line. */
  lemma {:induction false} ToCopyStops(read: string -> Option<int>, lines: seq<string>, k: nat)
    requires k <= |lines| && ToCopy(read, lines[..k]).BadLine?
    ensures ToCopy(read, lines) == ToCopy(read, lines[..k])
    decreases |lines| - k
  {
    if k < |lines| {
      assert lines[..k + 1][..k] == lines[..k];
      ToCopyStops(read, lines, k + 1);
    } else {
      assert lines[..k] == lines;
    }
  }

  /** The file reads as numbers exactly when every line does. */
  lemma {:induction false} ToCopyParses(read: string -> Option<int>, lines: seq<string>)
    ensures ToCopy(read, lines).Numbers? <==> forall i :: 0 <= i < |lines| ==> read(lines[i]).Some?
  {
    if lines != [] {
      var front := lines[..|lines| - 1];
      ToCopyParses(read, front);
      assert forall i :: 0 <= i < |front| ==> front[i] == lines[i];
    }
  }

  /** Some line of the file reads as `v`. */
  ghost predicate Listed(read: string -> Option<int>, lines: seq<string>, v: int)
  {
    exists i :: 0 <= i < |lines| && read(lines[i]) == Some(v)
  }

  /** When the file reads, the set holds exactly the values of its lines. */
  lemma {:induction false} ToCopyMembers(read: string -> Option<int>, lines: seq<string>, v: int)
    requires ToCopy(read, lines).Numbers?
    ensures v in ToCopy(read, lines).values <==> Listed(read, lines, v)
  {
    if lines != [] {
      ToCopyMembers(read, lines[..|lines| - 1], v);
      ListedLast(read, lines, v);
    }
  }

  /** A value is listed in the file when it is listed before the last line or is the last line's. */
  lemma ListedLast(read: string -> Option<int>, lines: seq<string>, v: int)
    requires lines != []
    ensures Listed(read, lines, v) <==> Listed(read, lines[..|lines| - 1], v) || read(lines[|lines| - 1]) == Some(v)
  {
    var front := lines[..|lines| - 1];
    if Listed(read, front, v) {
      var i :| 0 <= i < |front| && read(front[i]) == Some(v);
      assert front[i] == lines[i];
    }
    if Listed(read, lines, v) && read(lines[|lines| - 1]) != Some(v) {
      var i :| 0 <= i < |lines| && read(lines[i]) == Some(v);
      assert front[i] == lines[i];
    }
  }

  /** When the file does not read, the line that raised is the first line that cannot be read. */
  lemma {:induction false} ToCopyBadLine(read: string -> Option<int>, lines: seq<string>) returns (k: nat)
    requires ToCopy(read, lines).BadLine?
    ensures k < |lines| && read(lines[k]).None? && ToCopy(read, lines).line == lines[k]
    ensures forall i :: 0 <= i < k ==> read(lines[i]).Some?
  {
    var front := lines[..|lines| - 1];
    if ToCopy(read, front).BadLine? {
      k := ToCopyBadLine(read, front);
      assert forall i :: 0 <= i <= k ==> front[i] == lines[i];
    } else {
      ToCopyParses(read, front);
      k := |lines| - 1;
      assert forall i :: 0 <= i < k ==> front[i] == lines[i];
    }
  }

  /** A blank line (or one of white space only) makes `int('')` raise. */
  lemma BlankLineRaises(lines: seq<string>, k: nat)
    requires k < |lines| && AllSpace(lines[k], PythonSpace)
    ensures ToCopy(LineValue, lines).BadLine?
  {
    TrimEnds(lines[k], PythonSpace);
    assert LineValue(lines[k]).None?;
    ToCopyParses(LineValue, lines);
  }

  // ---------------------------------------------------------------------------
  // The copy loop
  // ---------------------------------------------------------------------------

  /**
   * Where the copy loop has got to: the working directory, what it wrote
   * into the folder, `copied_count`, and the exception that ended it.
   */
  datatype CopyState = CopyState(cwd: Dir, folder: map<string, Entry>, count: nat, error: Option<PyError>)

  /** `shutil.copy2` fails: the source is not a readable file, or it would be copied onto itself. */
  predicate CopyFails(cwd: Dir, photo: string, folderName: string, ioFailures: set<string>)
    requires folderName in cwd
  {
    || photo !in cwd || cwd[photo].isDir || photo in ioFailures
    || (!cwd[folderName].isDir && folderName == photo)
  }

  /**
   * `shutil.copy2(photo, folder_name)`, then `copied_count += 1`: into the
   * folder when it is a directory, over the file when it is one.
   */
  function Copy2(st: CopyState, photo: string, folderName: string, ioFailures: set<string>): (r: CopyState)
    requires folderName in st.cwd
    ensures r.cwd.Keys == st.cwd.Keys
  {
    if CopyFails(st.cwd, photo, folderName, ioFailures) then st.(error := Some(CopyError(photo)))
    else if st.cwd[folderName].isDir then st.(folder := st.folder[photo := st.cwd[photo]], count := st.count + 1)
    else st.(cwd := st.cwd[folderName := st.cwd[photo]], count := st.count + 1)
  }

  /** One photo of the loop: `get_photo_number` may raise; a number in the set means a copy. */
  function CopyStep(st: CopyState, photo: string, toCopy: set<int>, folderName: string, ioFailures: set<string>): (r: CopyState)
    requires folderName in st.cwd
    ensures r.cwd.Keys == st.cwd.Keys
  {
    if st.error.Some? then st
    else match GetPhotoNumber(photo)
      case None => st.(error := Some(AttributeError(photo)))
      case Some(n) => if n in toCopy then Copy2(st, photo, folderName, ioFailures) else st
  }

  /** The loop over the listed photos, in order. */
  function CopyLoop(cwd: Dir, photos: seq<string>, toCopy: set<int>, folderName: string, ioFailures: set<string>): (r: CopyState)
    requires folderName in cwd
    ensures r.cwd.Keys == cwd.Keys
    ensures r.count <= |photos|
  {
    if photos == [] then CopyState(cwd, map[], 0, None)
    else
      var st := CopyLoop(cwd, photos[..|photos| - 1], toCopy, folderName, ioFailures);
      CopyStep(st, photos[|photos| - 1], toCopy, folderName, ioFailures)
  }

  /** The loop of `copy`, on the directory in place. */
  method CopyPhotos(dir: Directory, photos: seq<string>, toCopy: set<int>, folderName: string, ioFailures: set<string>)
    returns (folder: map<string, Entry>, copiedCount: nat, error: Option<PyError>)
    requires folderName in dir.entries
    modifies dir
    ensures CopyState(dir.entries, folder, copiedCount, error) == CopyLoop(old(dir.entries), photos, toCopy, folderName, ioFailures)
  {
    ghost var d := dir.entries;
    folder, copiedCount, error := map[], 0, None;
    for i := 0 to |photos|
      invariant CopyLoop(d, photos[..i], toCopy, folderName, ioFailures) == CopyState(dir.entries, folder, copiedCount, None)
    {
      assert photos[..i + 1][..i] == photos[..i];
      var photo := photos[i];
      var number := GetPhotoNumber(photo);
      if number.None? {
        error := Some(AttributeError(photo));
        CopyLoopStops(d, photos, toCopy, folderName, ioFailures, i + 1);
        return;
      }
      if number.value in toCopy {
        if CopyFails(dir.entries, photo, folderName, ioFailures) {
          error := Some(CopyError(photo));
          CopyLoopStops(d, photos, toCopy, folderName, ioFailures, i + 1);
          return;
        }
        if dir.entries[folderName].isDir {
          folder := folder[photo := dir.entries[photo]];
        } else {
          dir.CopyOnto(photo, folderName);
        }
        copiedCount := copiedCount + 1;
      }
    }
    assert photos[..|photos|] == photos;
  }

  /** Once a photo has raised, the photos after it change nothing. */
  lemma {:induction false} CopyLoopStops(cwd: Dir, photos: seq<string>, toCopy: set<int>, folderName: string,
                                         ioFailures: set<string>, k: nat)
    requires folderName in cwd && k <= |photos|
    requires CopyLoop(cwd, photos[..k], toCopy, folderName, ioFailures).error.Some?
    ensures CopyLoop(cwd, photos, toCopy, folderName, ioFailures) == CopyLoop(cwd, photos[..k], toCopy, folderName, ioFailures)
    decreases |photos| - k
  {
    if k < |photos| {
      assert photos[..k + 1][..k] == photos[..k];
      CopyLoopStops(cwd, photos, toCopy, folderName, ioFailures, k + 1);
    } else {
      assert photos[..k] == photos;
    }
  }

  // ---------------------------------------------------------------------------
  // `copy`
  // ---------------------------------------------------------------------------

  /** The directory `copy` leaves, what it copied into the folder, `copied_count`, and the exception. */
  datatype CopyRun = CopyRun(cwd: Dir, folder: map<string, Entry>, copiedCount: nat, error: Option<PyError>)

  /**
   * `copy`, with the prompt's answer as a parameter, the lines of the
   * plain files that can be read (`open` fails on a name that is not a
   * plain file of the directory or has no lines in `texts`), `folderId` for
   * the folder it creates, and the photos whose copy fails for reasons
   * outside the model.
   */
  ghost function CopySpec(d: Dir, script: Script, answer: string, texts: map<string, seq<string>>,
                          folderId: nat, ioFailures: set<string>): CopyRun
  {
    var input := InputName(answer);
    var folderName := WithoutExtension(script, input);
    if folderName !in d && folderName == "" then CopyRun(d, map[], 0, Some(MakedirsError(folderName)))
    else
      var d1 := if folderName in d then d else d[folderName := Entry(folderId, true)];
      if !IsFile(d1, input) || input !in texts then CopyRun(d1, map[], 0, Some(OpenError(input)))
      else match ToCopy(LineValue, texts[input])
        case BadLine(line) => CopyRun(d1, map[], 0, Some(ValueError(Trim(line, PythonSpace))))
        case Numbers(toCopy) =>
          var st := CopyLoop(d1, PhotosOf(d1, script), toCopy, folderName, ioFailures);
          CopyRun(st.cwd, st.folder, st.count, st.error)
  }

  /** `copy` on the working directory. */
  method Copy(dir: Directory, script: Script, answer: string, texts: map<string, seq<string>>,
              folderId: nat, ioFailures: set<string>)
    returns (folder: map<string, Entry>, copiedCount: nat, error: Option<PyError>)
    modifies dir
    ensures CopyRun(dir.entries, folder, copiedCount, error) == CopySpec(old(dir.entries), script, answer, texts, folderId, ioFailures)
  {
    var input := InputName(answer);
    var folderName := WithoutExtension(script, input);
    folder, copiedCount := map[], 0;
    if folderName !in dir.entries {
      if folderName == "" {
        return folder, copiedCount, Some(MakedirsError(folderName));
      }
      var ok := dir.CreateDir(folderName, folderId);
    }
    if !IsFile(dir.entries, input) || input !in texts {
      return folder, copiedCount, Some(OpenError(input));
    }
    var numbers := ReadToCopy(texts[input]);
    if numbers.BadLine? {
      return folder, copiedCount, Some(ValueError(Trim(numbers.line, PythonSpace)));
    }
    var photos := GetPhotoFiles(dir, script);
    folder, copiedCount, error := CopyPhotos(dir, photos, numbers.values, folderName, ioFailures);
  }

  // ---------------------------------------------------------------------------
  // Properties
  // ---------------------------------------------------------------------------

  /** Under both scripts, the default list file gives the folder `Good Ones`. */
  lemma DefaultFolderName(script: Script)
    ensures WithoutExtension(script, InputName(".")) == "Good Ones"
  {
    var s := DefaultInput;
    assert s == "Good Ones" + ".txt";
    RegexExtensionOfJoin("Good Ones", ".txt");
    SplitExtDotAt(s, 9);
  }

  /** A photo is wanted when its number is among the numbers to copy. */
  predicate Wanted(photo: string, toCopy: set<int>)
  {
    GetPhotoNumber(photo).Some? && GetPhotoNumber(photo).value in toCopy
  }

  /**
   * When every photo has a number and no copy fails, the loop copies
   * exactly the wanted photos into the folder, with their contents, counts
   * each once, and leaves the working directory as it was.
   */
  lemma {:induction false} CopyLoopIntoFolder(cwd: Dir, photos: seq<string>, toCopy: set<int>, folderName: string,
                                              ioFailures: set<string>)
    requires folderName in cwd && cwd[folderName].isDir && NoDup(photos)
    requires forall i :: 0 <= i < |photos| ==> GetPhotoNumber(photos[i]).Some?
    requires forall i :: 0 <= i < |photos| ==> photos[i] in cwd && !cwd[photos[i]].isDir && photos[i] !in ioFailures
    ensures var r := CopyLoop(cwd, photos, toCopy, folderName, ioFailures);
      && r.error == None && r.cwd == cwd && r.count == |r.folder|
      && (forall p :: p in r.folder <==> p in photos && Wanted(p, toCopy))
      && (forall p :: p in r.folder ==> r.folder[p] == cwd[p])
  {
    if photos != [] {
      var front := photos[..|photos| - 1];
      var last := photos[|photos| - 1];
      assert forall i :: 0 <= i < |front| ==> front[i] == photos[i];
      CopyLoopIntoFolder(cwd, front, toCopy, folderName, ioFailures);
      var st := CopyLoop(cwd, front, toCopy, folderName, ioFailures);
      NoDupLast(photos);
      IntoFolderStep(st, last, toCopy, folderName, ioFailures);
    }
  }

  /** The last of distinct names does not occur before it. */
  lemma NoDupLast(s: seq<string>)
    requires s != [] && NoDup(s)
    ensures s[|s| - 1] !in s[..|s| - 1]
  {
  }

  /** A numbered photo that copies into the folder directory, not copied before, is added with one more count. */
  lemma IntoFolderStep(st: CopyState, photo: string, toCopy: set<int>, folderName: string, ioFailures: set<string>)
    requires folderName in st.cwd && st.cwd[folderName].isDir && st.error == None
    requires GetPhotoNumber(photo).Some? && photo in st.cwd && !st.cwd[photo].isDir && photo !in ioFailures
    requires photo !in st.folder && st.count == |st.folder|
    ensures var r := CopyStep(st, photo, toCopy, folderName, ioFailures);
      && r.error == None && r.cwd == st.cwd && r.count == |r.folder|
      && r.folder == if Wanted(photo, toCopy) then st.folder[photo := st.cwd[photo]] else st.folder
  {
  }

  /**
   * When `folder_name` names a plain file, `copy2` writes each wanted photo
   * over that file: nothing goes into a folder, and no other entry changes.
   */
  lemma {:induction false} CopyLoopOntoFile(cwd: Dir, photos: seq<string>, toCopy: set<int>, folderName: string,
                                            ioFailures: set<string>)
    requires folderName in cwd && !cwd[folderName].isDir
    ensures var r := CopyLoop(cwd, photos, toCopy, folderName, ioFailures);
      && r.folder == map[]
      && (forall x :: x in cwd && x != folderName ==> r.cwd[x] == cwd[x])
      && !r.cwd[folderName].isDir
  {
    if photos != [] {
      CopyLoopOntoFile(cwd, photos[..|photos| - 1], toCopy, folderName, ioFailures);
    }
  }

  /**
   * A photo without a number stops the loop with `AttributeError`: the
   * copies made before it stay, and no later photo is copied.
   */
  lemma CopyLoopAbort(cwd: Dir, photos: seq<string>, toCopy: set<int>, folderName: string,
                      ioFailures: set<string>, k: nat)
    requires folderName in cwd && k < |photos|
    requires CopyLoop(cwd, photos[..k], toCopy, folderName, ioFailures).error == None
    requires GetPhotoNumber(photos[k]).None?
    ensures CopyLoop(cwd, photos, toCopy, folderName, ioFailures)
         == CopyLoop(cwd, photos[..k], toCopy, folderName, ioFailures).(error := Some(AttributeError(photos[k])))
  {
    assert photos[..k + 1][..k] == photos[..k];
    CopyLoopStops(cwd, photos, toCopy, folderName, ioFailures, k + 1);
  }

  /** The loop raises only on a listed photo: one without a number, or a wanted one whose copy fails. */
  lemma {:induction false} CopyLoopErrors(cwd: Dir, photos: seq<string>, toCopy: set<int>, folderName: string,
                                          ioFailures: set<string>)
    requires folderName in cwd
    ensures var e := CopyLoop(cwd, photos, toCopy, folderName, ioFailures).error;
      e.Some? ==>
        || (e.value.AttributeError? && e.value.name in photos && GetPhotoNumber(e.value.name).None?)
        || (e.value.CopyError? && e.value.source in photos && Wanted(e.value.source, toCopy))
  {
    if photos != [] {
      var front := photos[..|photos| - 1];
      CopyLoopErrors(cwd, front, toCopy, folderName, ioFailures);
      assert forall x :: x in front ==> x in photos;
    }
  }

  /** Creating the folder does not change which photos are listed: a directory is never a photo. */
  lemma PhotosIgnoreFolder(d: Dir, script: Script, folderName: string, folderId: nat)
    requires folderName !in d
    ensures PhotosOf(d[folderName := Entry(folderId, true)], script) == PhotosOf(d, script)
  {
    var d1 := d[folderName := Entry(folderId, true)];
    assert PhotoSet(d1, script) == PhotoSet(d, script);
  }

  /**
   * `copy` end to end: when the folder can be made or is a directory, the
   * list file reads, every photo has a number and no copy fails, the new
   * folder holds exactly the photos whose number some line of the file
   * gives, with their contents, and `copied_count` is how many there are.
   */
  lemma CopyCopiesListed(d: Dir, script: Script, answer: string, texts: map<string, seq<string>>,
                         folderId: nat, ioFailures: set<string>)
    requires var folderName := WithoutExtension(script, InputName(answer));
      folderName != "" && (folderName in d ==> d[folderName].isDir)
    requires IsFile(d, InputName(answer)) && InputName(answer) in texts && ToCopy(LineValue, texts[InputName(answer)]).Numbers?
    requires forall p :: IsPhotoOrVideo(d, script, p) ==> GetPhotoNumber(p).Some? && p !in ioFailures
    ensures var run := CopySpec(d, script, answer, texts, folderId, ioFailures);
      var folderName := WithoutExtension(script, InputName(answer));
      var lines := texts[InputName(answer)];
      && run.error == None
      && run.cwd == (if folderName in d then d else d[folderName := Entry(folderId, true)])
      && (forall p :: p in run.folder <==>
            IsPhotoOrVideo(d, script, p) && Listed(LineValue, lines, GetPhotoNumber(p).value))
      && (forall p :: p in run.folder ==> run.folder[p] == d[p])
      && run.copiedCount == |run.folder|
  {
    var input := InputName(answer);
    var folderName := WithoutExtension(script, input);
    var lines := texts[input];
    var d1 := if folderName in d then d else d[folderName := Entry(folderId, true)];
    assert IsFile(d1, input);
    if folderName !in d {
      PhotosIgnoreFolder(d, script, folderName, folderId);
    }
    var photos := PhotosOf(d1, script);
    assert photos == PhotosOf(d, script);
    var toCopy := ToCopy(LineValue, lines).values;
    forall i | 0 <= i < |photos|
      ensures GetPhotoNumber(photos[i]).Some?
      ensures photos[i] in d1 && !d1[photos[i]].isDir && photos[i] !in ioFailures
    {
      assert photos[i] in photos;
    }
    CopyLoopIntoFolder(d1, photos, toCopy, folderName, ioFailures);
    forall p | IsPhotoOrVideo(d, script, p)
      ensures Wanted(p, toCopy) <==> Listed(LineValue, lines, GetPhotoNumber(p).value)
    {
      ToCopyMembers(LineValue, lines, GetPhotoNumber(p).value);
    }
  }

  /**
   * A blank line anywhere in the list file raises `ValueError` before the
   * loop starts: nothing is copied and only the folder may have been made.
   */
  lemma BlankLineCopiesNothing(d: Dir, script: Script, answer: string, texts: map<string, seq<string>>,
                               folderId: nat, ioFailures: set<string>, k: nat)
    requires WithoutExtension(script, InputName(answer)) != ""
    requires IsFile(d, InputName(answer)) && InputName(answer) in texts
    requires k < |texts[InputName(answer)]| && AllSpace(texts[InputName(answer)][k], PythonSpace)
    ensures var run := CopySpec(d, script, answer, texts, folderId, ioFailures);
      var folderName := WithoutExtension(script, InputName(answer));
      && run.error.Some? && run.error.value.ValueError?
      && run.folder == map[] && run.copiedCount == 0
      && run.cwd == (if folderName in d then d else d[folderName := Entry(folderId, true)])
  {
    BlankLineRaises(texts[InputName(answer)], k);
  }
}
