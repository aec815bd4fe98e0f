/**
 * The filename helpers of the two Python scripts (Python/PicUtils.py and
 * Python/pic.py). They differ only in how the extension is found:
 * PicUtils.py searches for `\.\w+$`, pic.py uses `os.path.splitext`. Both
 * keep the dot in the extension and compare it case-sensitively.
 */
module PyNames {
  import opened Wrappers
  import opened Text
  import opened Fs
  import opened Order

  /** Which of the two scripts is running. */
  datatype Script = PicUtils | Pic

  /** The extensions both scripts treat as photos and videos, compared exactly. */
  const PhotoExtensions: set<string> := {".JPG", ".NEF", ".jpg", ".jpeg", ".MOV", ".CR2", ".MP4"}

  /** `PREFIX_LENGTH` of both scripts. */
  const PrefixLength: nat := 6

  // ---------------------------------------------------------------------------
  // `\.\w+$` (PicUtils.py)
  // ---------------------------------------------------------------------------

  /** Where `$` matches for a word run: the end, or just before a final newline. */
  function MatchEnd(s: string): (e: nat)
    ensures e <= |s| && (e == |s| || (e == |s| - 1 && s[e] == '\n'))
  {
    if |s| > 0 && s[|s| - 1] == '\n' then |s| - 1 else |s|
  }

  /** Start of the match of `\.\w+$` (the only possible one), or -1 when there is none. */
  function RegexExtensionDot(s: string): (r: int)
    ensures -1 <= r < MatchEnd(s)
    ensures r >= 0 ==> s[r] == '.' && r + 1 < MatchEnd(s) && AllWordChars(s[r + 1..MatchEnd(s)])
  {
    WordDotBefore(s, MatchEnd(s))
  }

  /** PicUtils.py `get_extension`: the matched text, dot included, or "". */
  function RegexExtension(s: string): string
  {
    var b := RegexExtensionDot(s);
    if b < 0 then "" else s[b..MatchEnd(s)]
  }

  /** PicUtils.py `get_filename_without_extension`: the text before the match. */
  function RegexStem(s: string): string
  {
    var b := RegexExtensionDot(s);
    if b < 0 then s else s[..b]
  }

  /** For names that do not end in a newline, stem and extension put back together give the name. */
  lemma RegexSplitJoin(s: string)
    requires s == [] || s[|s| - 1] != '\n'
    ensures RegexStem(s) + RegexExtension(s) == s
    ensures RegexExtension(s) == [] || (RegexExtension(s)[0] == '.' && AllWordChars(RegexExtension(s)[1..]))
  {
    assert MatchEnd(s) == |s|;
    var b := RegexExtensionDot(s);
    if b >= 0 {
      var ext := s[b..];
      assert RegexExtension(s) == ext && RegexStem(s) == s[..b];
      assert s == s[..b] + ext;
      assert ext[1..] == s[b + 1..|s|];
    }
  }

  /** A final newline is matched around but lost: `"a.jpg\n"` splits into `"a"` and `".jpg"`. */
  lemma RegexSplitDropsNewline()
    ensures RegexStem("a.jpg\n") == "a" && RegexExtension("a.jpg\n") == ".jpg"
    ensures RegexStem("a.jpg\n") + RegexExtension("a.jpg\n") != "a.jpg\n"
  {
    var s := "a.jpg\n";
    WordDotBeforeAt(s, 5, 1);
    assert s[1..5] == ".jpg";
  }

  // ---------------------------------------------------------------------------
  // `os.path.splitext` (pic.py)
  // ---------------------------------------------------------------------------

  predicate AllDots(s: string)
  {
    forall i :: 0 <= i < |s| ==> s[i] == '.'
  }

  /** Only dots at positions `lo` up to `hi`. */
  predicate DotsBetween(p: string, lo: int, hi: int)
  {
    forall i :: lo <= i < hi && 0 <= i < |p| ==> p[i] == '.'
  }

  /**
   * The dot `os.path.splitext` splits at: the last dot, provided it comes
   * after the last `/` and something other than a dot precedes it in the
   * last path component. -1 when there is no extension.
   */
  function SplitExtDot(p: string): (r: int)
    ensures -1 <= r < |p|
    ensures r >= 0 ==> p[r] == '.'
  {
    var sep := LastIndexOf(p, '/');
    var dot := LastIndexOf(p, '.');
    if dot > sep && !DotsBetween(p, sep + 1, dot) then dot else -1
  }

  /** `os.path.splitext`: root and extension, the extension keeping its dot. */
  function SplitExt(p: string): (r: (string, string))
    ensures r.0 + r.1 == p
    ensures r.1 == [] || r.1[0] == '.'
  {
    var d := SplitExtDot(p);
    if d < 0 then (p, "")
    else
      assert p == p[..d] + p[d..];
      (p[..d], p[d..])
  }

  /** The extension is a dot followed by neither a dot nor a `/`. */
  lemma SplitExtShape(p: string)
    ensures var ext := SplitExt(p).1;
      ext == [] || (ext[0] == '.' && forall i :: 0 < i < |ext| ==> ext[i] != '.' && ext[i] != '/')
  {
    var d := SplitExtDot(p);
    if d >= 0 {
      LastIndexOfNone(p, '.');
      LastIndexOfNone(p, '/');
      var ext := p[d..];
      forall i | 0 < i < |ext| ensures ext[i] != '.' && ext[i] != '/' {
        assert ext[i] == p[d + i];
      }
    }
  }

  /** Leading dots do not start an extension: `".jpg"` and `"..jpg"` have none. */
  lemma SplitExtLeadingDots(dots: string, rest: string)
    requires dots != [] && AllDots(dots)
    requires '.' !in rest && '/' !in rest
    ensures SplitExt(dots + rest) == (dots + rest, "")
  {
    var p := dots + rest;
    var dot := LastIndexOf(p, '.');
    assert p[|dots| - 1] == '.';
    assert forall i :: |dots| - 1 < i < |p| ==> p[i] == rest[i - |dots|];
    LastIndexBeforeAt(p, '.', |dots| - 1, |p|);
    assert dot == |dots| - 1;
    assert LastIndexOf(p, '/') == -1;
    assert p[..dot] == dots[..dot];
  }

  /** A name ending in a dot has the dot alone as its extension: `"a."` gives `"."`. */
  lemma SplitExtTrailingDot(stem: string)
    requires stem != [] && '.' !in stem && '/' !in stem
    ensures SplitExt(stem + ".") == (stem, ".")
  {
    var p := stem + ".";
    assert p[|stem|] == '.';
    assert LastIndexOf(p, '.') == |stem|;
    assert LastIndexOf(p, '/') == -1;
    assert p[0..|stem|][0] == stem[0] != '.';
    assert p[..|stem|] == stem;
  }

  // ---------------------------------------------------------------------------
  // The helpers both scripts share, by script
  // ---------------------------------------------------------------------------

  /** `get_extension`. */
  function Extension(script: Script, name: string): string
  {
    match script
    case PicUtils => RegexExtension(name)
    case Pic => SplitExt(name).1
  }

  /** `get_filename_without_extension`. */
  function WithoutExtension(script: Script, name: string): string
  {
    match script
    case PicUtils => RegexStem(name)
    case Pic => SplitExt(name).0
  }

  /** `is_photo_or_video`: a plain file whose extension is one of the seven, exactly. */
  predicate IsPhotoOrVideo(d: Dir, script: Script, name: string)
  {
    name in d && !d[name].isDir && Extension(script, name) in PhotoExtensions
  }

  /** Every photo extension is a dot followed by word characters. */
  lemma PhotoExtensionShape(ext: string)
    requires ext in PhotoExtensions
    ensures |ext| >= 2 && ext[0] == '.' && AllWordChars(ext[1..])
  {
  }

  /** `.png`, `.mov`, `.nef`, `.gif` and `.JPEG` are not photos to the Python scripts. */
  lemma PhotoExtensionsCaseSensitive()
    ensures ".png" !in PhotoExtensions && ".mov" !in PhotoExtensions && ".nef" !in PhotoExtensions
    ensures ".gif" !in PhotoExtensions && ".JPEG" !in PhotoExtensions
  {
  }

  /** `"{:04d}".format(n)`: at least four characters, the sign counting toward the width (see `PyPad4Value`). */
  function PyPad4(n: int): (r: string)
    ensures |r| >= 4
  {
    if n >= 0 then ZeroPad(n, 4) else "-" + ZeroPad(-n, 3)
  }

  /** The padded text reads back as the number: digits for `n >= 0`, a minus sign and digits otherwise. */
  lemma PyPad4Value(n: int)
    ensures var r := PyPad4(n);
      && (n >= 0 ==> AllDigits(r) && ValueOf(r) == n)
      && (n < 0 ==> r[0] == '-' && AllDigits(r[1..]) && ValueOf(r[1..]) == -n)
  {
    ZeroPadValue(if n >= 0 then n else -n, if n >= 0 then 4 else 3);
    if n < 0 {
      assert PyPad4(n)[1..] == ZeroPad(-n, 3);
    }
  }

  /** `new_filename`: with a prefix, `prefix_NNNN` plus the extension; without one, no underscore. */
  function NewFilename(script: Script, original: string, prefix: string, index: int): string
  {
    if prefix != "" then prefix + "_" + PyPad4(index) + Extension(script, original)
    else PyPad4(index) + Extension(script, original)
  }

  /**
   * `get_photo_number`: the digits between the underscore and the dot of
   * the trailing `_\d+\.\w+`, read as a number. `None` is the
   * `AttributeError` raised when the name does not end that way.
   */
  function GetPhotoNumber(name: string): (r: Option<int>)
    ensures r.Some? ==> r.value >= 0
  {
    var b := RegexExtensionDot(name);
    if b < 0 then None
    else
      var j := DigitRunStart(name, b);
      if j == b || j == 0 || name[j - 1] != '_' then None
      else Some(ValueOf(name[j..b]))
  }

  // ---------------------------------------------------------------------------
  // Properties
  // ---------------------------------------------------------------------------

  /** With a non-empty prefix, names for different indices in 0..9999 differ, whatever the originals. */
  lemma NewFilenameIndexDiffers(script: Script, o1: string, o2: string, prefix: string, a: int, b: int)
    requires prefix != "" && 0 <= a <= 9999 && 0 <= b <= 9999 && a != b
    ensures NewFilename(script, o1, prefix, a) != NewFilename(script, o2, prefix, b)
  {
    var pa, pb := PyPad4(a), PyPad4(b);
    ZeroPad4Width(a);
    ZeroPad4Width(b);
    if pa == pb {
      Pad4Injective(a, b);
    }
    JoinDistinct(prefix + "_", pa, Extension(script, o1), pb, Extension(script, o2));
  }

  /**
   * Names `new_filename` gives for indices in 0..9999 determine the index,
   * whatever the prefixes: the extension is the text from the last dot, and
   * the four characters before it are the padded index.
   */
  lemma NewFilenameSameIndex(script: Script, o1: string, o2: string, p1: string, p2: string, a: int, b: int)
    requires 0 <= a <= 9999 && 0 <= b <= 9999
    requires var e := Extension(script, o1); |e| >= 2 && e[0] == '.' && AllWordChars(e[1..])
    requires var e := Extension(script, o2); |e| >= 2 && e[0] == '.' && AllWordChars(e[1..])
    requires NewFilename(script, o1, p1, a) == NewFilename(script, o2, p2, b)
    ensures a == b
  {
    var e1, e2 := Extension(script, o1), Extension(script, o2);
    var pa, pb := PyPad4(a), PyPad4(b);
    ZeroPad4Width(a);
    ZeroPad4Width(b);
    var s1 := if p1 != "" then p1 + "_" + pa else pa;
    var s2 := if p2 != "" then p2 + "_" + pb else pb;
    var name := s1 + e1;
    assert name == s2 + e2;
    var k1 := ExtensionDotAt(s1, e1);
    var k2 := ExtensionDotAt(s2, e2);
    assert |s1| == |s2|;
    assert s1 == name[..|s1|] == s2;
    assert pa == s1[|s1| - 4..] && pb == s2[|s2| - 4..];
    Pad4Injective(a, b);
  }

  /** The contrapositive: different indices in 0..9999 give different names. */
  lemma NewFilenameIndexApart(script: Script, o1: string, o2: string, p1: string, p2: string, a: int, b: int)
    requires 0 <= a <= 9999 && 0 <= b <= 9999 && a != b
    requires var e := Extension(script, o1); |e| >= 2 && e[0] == '.' && AllWordChars(e[1..])
    requires var e := Extension(script, o2); |e| >= 2 && e[0] == '.' && AllWordChars(e[1..])
    ensures NewFilename(script, o1, p1, a) != NewFilename(script, o2, p2, b)
  {
    if NewFilename(script, o1, p1, a) == NewFilename(script, o2, p2, b) {
      NewFilenameSameIndex(script, o1, o2, p1, p2, a, b);
    }
  }

  /** Under one non-empty prefix, names sort by index up to 9999, whatever the extensions. */
  lemma NewFilenameOrder(script: Script, o1: string, o2: string, prefix: string, a: int, b: int)
    requires prefix != "" && 0 <= a < b <= 9999
    ensures Less(NewFilename(script, o1, prefix, a), NewFilename(script, o2, prefix, b))
  {
    var pa, pb := PyPad4(a), PyPad4(b);
    var x, y := Extension(script, o1), Extension(script, o2);
    Pad4Order(a, b);
    ZeroPad4Width(a);
    ZeroPad4Width(b);
    LessExtend(pa, pb, x, y);
    LessCommonPrefix(prefix + "_", pa + x, pb + y);
    NewFilenameHead(script, o1, prefix, a);
    NewFilenameHead(script, o2, prefix, b);
  }

  /** With a prefix, the name is the prefix and an underscore, then the padded index and the extension. */
  lemma NewFilenameHead(script: Script, o: string, prefix: string, n: int)
    requires prefix != ""
    ensures NewFilename(script, o, prefix, n) == (prefix + "_") + (PyPad4(n) + Extension(script, o))
  {
  }

  /** In a stem followed by a dot and word characters, the last dot is the extension's. */
  lemma ExtensionDotAt(stem: string, ext: string) returns (k: nat)
    requires |ext| >= 2 && ext[0] == '.' && AllWordChars(ext[1..])
    ensures k == |stem| && LastIndexOf(stem + ext, '.') == k
  {
    var p := stem + ext;
    k := |stem|;
    forall i | k < i < |p| ensures p[i] != '.' {
      assert p[i] == ext[1..][i - k - 1];
    }
    LastIndexBeforeAt(p, '.', k, |p|);
  }

  /** The shape of `new_filename` for a non-negative index below 10000. */
  lemma NewFilenameShape(script: Script, original: string, prefix: string, index: int)
    requires 0 <= index <= 9999
    ensures var ext := Extension(script, original);
      var name := NewFilename(script, original, prefix, index);
      && (prefix != "" ==> name == prefix + "_" + FixedDigits(index, 4) + ext)
      && (prefix == "" ==> name == FixedDigits(index, 4) + ext)
  {
    ZeroPad4Width(index);
  }

  lemma {:induction false} SplitExtOfJoin(stem: string, ext: string)
    requires ext != [] && ext[0] == '.' && AllWordChars(ext[1..])
    requires stem != [] && IsDigit(stem[|stem| - 1])
    ensures SplitExt(stem + ext).1 == ext
  {
    var p := stem + ext;
    var dot := |stem|;
    assert p[dot] == '.' && p[dot - 1] == stem[|stem| - 1];
    forall i | dot < i < |p| ensures p[i] != '.' && p[i] != '/' {
      assert p[i] == ext[1..][i - dot - 1];
    }
    SplitExtDotAt(p, dot);
    assert p[dot..] == ext;
  }

  /** A dot preceded by something other than a dot or `/`, with neither after it, is the split point. */
  lemma {:induction false} SplitExtDotAt(p: string, dot: nat)
    requires 1 <= dot < |p| && p[dot] == '.' && p[dot - 1] != '.' && p[dot - 1] != '/'
    requires forall i :: dot < i < |p| ==> p[i] != '.' && p[i] != '/'
    ensures SplitExtDot(p) == dot
  {
    LastIndexBeforeAt(p, '.', dot, |p|);
    LastIndexOfBelow(p, '/', dot - 1);
  }

  lemma RegexExtensionOfJoin(stem: string, ext: string)
    requires ext != [] && ext[0] == '.' && |ext| >= 2 && AllWordChars(ext[1..])
    ensures RegexExtension(stem + ext) == ext && RegexStem(stem + ext) == stem
  {
    var p := stem + ext;
    assert MatchEnd(p) == |p|;
    forall i | |stem| + 1 <= i < |p| ensures IsWordChar(p[i]) {
      assert p[i] == ext[1..][i - |stem| - 1];
    }
    WordDotBeforeAt(p, |p|, |stem|);
    assert p[|stem|..] == ext;
    assert p[..|stem|] == stem;
  }

  /**
   * Renaming keeps the extension: the new name has the original's
   * extension, case and dot included, when that is a dot and word
   * characters (every photo extension is).
   */
  lemma NewFilenameKeepsExtension(script: Script, original: string, prefix: string, index: int)
    requires var ext := Extension(script, original); |ext| >= 2 && ext[0] == '.' && AllWordChars(ext[1..])
    ensures Extension(script, NewFilename(script, original, prefix, index)) == Extension(script, original)
  {
    var ext := Extension(script, original);
    var pad := PyPad4(index);
    PyPad4Value(index);
    var stem := if prefix != "" then prefix + "_" + pad else pad;
    assert NewFilename(script, original, prefix, index) == stem + ext;
    assert stem[|stem| - 1] == pad[|pad| - 1];
    assert IsDigit(pad[|pad| - 1]) by {
      if index < 0 {
        assert pad[|pad| - 1] == pad[1..][|pad| - 2];
      }
    }
    if script == PicUtils {
      RegexExtensionOfJoin(stem, ext);
    } else {
      SplitExtOfJoin(stem, ext);
    }
  }

  /**
   * Round trip: for a non-empty prefix, a non-negative index and an
   * original whose extension is a dot and word characters, the number read
   * back from the new name is the index.
   */
  lemma PhotoNumberRoundTrip(script: Script, original: string, prefix: string, index: int)
    requires prefix != "" && index >= 0
    requires var ext := Extension(script, original); |ext| >= 2 && ext[0] == '.' && AllWordChars(ext[1..])
    ensures GetPhotoNumber(NewFilename(script, original, prefix, index)) == Some(index)
  {
    var ext := Extension(script, original);
    var pad := PyPad4(index);
    PyPad4Value(index);
    var name := NewFilename(script, original, prefix, index);
    var k := |prefix| + 1;
    var b := k + |pad|;
    assert name == (prefix + "_") + pad + ext;
    RegexExtensionOfJoin((prefix + "_") + pad, ext);
    assert RegexExtensionDot(name) == b;
    assert name[k..b] == pad;
    DigitsBetweenSlice(name, k, b);
    assert name[k - 1] == '_';
    DigitRunStartAt(name, k, b);
  }

  /** Without a prefix there is no underscore, and the number cannot be read back. */
  lemma EmptyPrefixNumberUnreadable(script: Script, original: string, index: int)
    requires 0 <= index
    requires var ext := Extension(script, original); |ext| >= 2 && ext[0] == '.' && AllWordChars(ext[1..])
    ensures GetPhotoNumber(NewFilename(script, original, "", index)) == None
  {
    var ext := Extension(script, original);
    var pad := PyPad4(index);
    PyPad4Value(index);
    var name := NewFilename(script, original, "", index);
    assert name == pad + ext;
    RegexExtensionOfJoin(pad, ext);
    assert name[0..|pad|] == pad;
    DigitsBetweenSlice(name, 0, |pad|);
    DigitRunStartZero(name, |pad|);
  }

  lemma {:induction false} DigitRunStartZero(s: string, b: nat)
    requires b <= |s| && DigitsBetween(s, 0, b)
    ensures DigitRunStart(s, b) == 0
    decreases b
  {
    if b > 0 {
      assert IsDigit(s[b - 1]);
      DigitRunStartZero(s, b - 1);
    }
  }

  /** A negative index is written with a minus sign, which the number pattern does not accept. */
  lemma NegativeIndexUnreadable(script: Script, original: string, prefix: string, index: int)
    requires index < 0
    requires var ext := Extension(script, original); |ext| >= 2 && ext[0] == '.' && AllWordChars(ext[1..])
    ensures GetPhotoNumber(NewFilename(script, original, prefix, index)) == None
  {
    var ext := Extension(script, original);
    var pad := PyPad4(index);
    PyPad4Value(index);
    var stem := if prefix != "" then prefix + "_" + pad else pad;
    var name := NewFilename(script, original, prefix, index);
    assert name == stem + ext;
    RegexExtensionOfJoin(stem, ext);
    var b := |stem|;
    var m := |stem| - |pad|;
    assert name[m] == '-';
    assert name[m + 1..b] == pad[1..];
    DigitsBetweenSlice(name, m + 1, b);
    DigitRunStartAt(name, m + 1, b);
  }
}
