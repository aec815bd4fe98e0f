/**
 * The filename classifier and name codec of the Rust implementation
 * (rust/src/main.rs): which entries are images, how a canonical name
 * `<prefix>_<index>.<ext>` is formatted, and how the regular expression
 * `(?<prefix>.+)_(?<index>\d+)\.(?<extension>\w+)$` takes one apart.
 */
module RustNames {
  import opened Wrappers
  import opened Text
  import opened Order

  /** `_get_image_extensions`: the lower-case extensions of managed files. */
  const ImageExtensions: set<string> := {"cr2", "gif", "jpg", "jpeg", "mov", "mp4", "nef", "png"}

  /** `PREFIX_LENGTH`: the length of the random phase-one prefix. */
  const PrefixLength: nat := 6

  /** One more than the largest `u32`. */
  const U32Limit: nat := 0x1_0000_0000

  /**
   * `_get_file_extension`, i.e. `Path::extension` of a single path component:
   * the text after the last dot, or "" when there is no dot or the only dot
   * that could start an extension is the first character.
   */
  function FileExtension(name: string): (ext: string)
    ensures '.' !in ext
    ensures ext != [] ==>
      var b := |name| - |ext| - 1;
      1 <= b && name[b] == '.' && name[b + 1..] == ext
  {
    var b := LastIndexOf(name, '.');
    LastIndexOfNone(name, '.');
    if b <= 0 then [] else name[b + 1..]
  }

  /** `_get_images`' filter: the lower-cased extension is a managed one. */
  predicate IsImage(name: string)
  {
    Lower(FileExtension(name)) in ImageExtensions
  }

  /** `format!("{}_{:04}.{}", prefix, index, extension)`. */
  function FormatName(prefix: string, index: nat, extension: string): string
  {
    prefix + "_" + ZeroPad(index, 4) + "." + extension
  }

  lemma FormatNameParts(prefix: string, index: nat, extension: string)
    ensures FormatName(prefix, index, extension) == (prefix + "_") + (ZeroPad(index, 4) + ("." + extension))
    ensures StartsWith(FormatName(prefix, index, extension), prefix)
  {
    var name := FormatName(prefix, index, extension);
    assert name == prefix + ("_" + ZeroPad(index, 4) + "." + extension);
    assert name[..|prefix|] == prefix;
  }

  /**
   * The target `rename_image` computes. The branch without an underscore is
   * taken when the IMAGE name is empty, not when the prefix is.
   */
  function RenamedTo(imageName: string, newPrefix: string, index: nat): string
  {
    var extension := FileExtension(imageName);
    if imageName == [] then ZeroPad(index, 4) + "." + extension
    else FormatName(newPrefix, index, extension)
  }

  /** `str::parse::<u32>`: an optional '+', then ASCII digits, below 2^32. */
  function ParseU32(s: string): (r: Option<nat>)
    ensures r.Some? ==> r.value < U32Limit
  {
    var digits := if |s| > 0 && s[0] == '+' then s[1..] else s;
    if |digits| == 0 || !AllDigits(digits) || ValueOf(digits) >= U32Limit then None
    else Some(ValueOf(digits))
  }

  datatype StructuredName = StructuredName(prefix: string, index: nat, extension: string)

  /**
   * `_parse_filename`: the leftmost match of the regular expression, which is
   * anchored only at the end. The extension is the word characters after the
   * last dot, the index is the maximal digit run before that dot, the
   * character before the run must be '_', and the prefix is everything before
   * that underscore back to the last newline (`.` does not match a newline).
   * `None` is the source's panic: no match, or an index that overflows `u32`.
   */
  function ParseFilename(name: string): (r: Option<StructuredName>)
    ensures r.Some? ==> r.value.index < U32Limit
  {
    var b := WordDotBefore(name, |name|);
    if b < 0 then None
    else
      var j := DigitRunStart(name, b);
      if j == b || j < 2 || name[j - 1] != '_' then None
      else
        var a := j - 1;
        var start := LastIndexBefore(name, '\n', a) + 1;
        if start == a then None
        else
          match ParseU32(name[j..b])
          case None => None
          case Some(index) =>
            Some(StructuredName(name[start..a], index, name[b + 1..]))
  }

  /** A parsed prefix is non-empty and free of newlines; a parsed extension is non-empty word characters. */
  lemma ParseFilenameParts(name: string)
    requires ParseFilename(name).Some?
    ensures var p := ParseFilename(name).value;
      && p.prefix != [] && '\n' !in p.prefix
      && p.extension != [] && AllWordChars(p.extension)
  {
    var start, a, b := ParseFilenameSplit(name);
    var p := ParseFilename(name).value;
    forall i | 0 <= i < |p.extension| ensures IsWordChar(p.extension[i]) {
      assert p.extension[i] == name[b + 1 + i];
    }
    forall i | 0 <= i < |p.prefix| ensures p.prefix[i] != '\n' {
      assert p.prefix[i] == name[start + i];
    }
  }

  predicate EndsWith(s: string, suffix: string)
  {
    |suffix| <= |s| && s[|s| - |suffix|..] == suffix
  }

  /**
   * What a successful parse means: the name ends with the prefix, an
   * underscore, a digit run denoting the index, a dot and the extension.
   */
  lemma ParseFilenameMatches(name: string) returns (digits: string)
    requires ParseFilename(name).Some?
    ensures var p := ParseFilename(name).value;
      && digits != [] && AllDigits(digits) && ValueOf(digits) == p.index
      && EndsWith(name, p.prefix + "_" + digits + "." + p.extension)
  {
    var start, a, b := ParseFilenameSplit(name);
    digits := name[a + 1..b];
    var p := ParseFilename(name).value;
    SplitAround(name, start, a, b);
    var suffix := p.prefix + "_" + digits + "." + p.extension;
    assert name[start..] == suffix;
    assert |name| - |suffix| == start;
  }

  /** Where a parsed name's parts sit: `prefix` `_` `digits` `.` `extension` up to the end. */
  lemma ParseFilenameSplit(name: string) returns (start: nat, a: nat, b: nat)
    requires ParseFilename(name).Some?
    ensures start < a < b < |name| && name[a] == '_' && name[b] == '.'
    ensures forall i :: start <= i < a ==> name[i] != '\n'
    ensures WordCharsBetween(name, b + 1, |name|)
    ensures var digits := name[a + 1..b];
      && digits != [] && AllDigits(digits)
      && ParseFilename(name).value == StructuredName(name[start..a], ValueOf(digits), name[b + 1..])
  {
    b := WordDotBefore(name, |name|);
    var j := DigitRunStart(name, b);
    a := j - 1;
    start := LastIndexBefore(name, '\n', a) + 1;
    LastIndexBeforeNone(name, '\n', a);
    var digits := name[j..b];
    DigitsBetweenSlice(name, j, b);
    assert digits[0] != '+' by { assert IsDigit(digits[0]); }
  }

  lemma SplitAround(s: string, start: nat, a: nat, b: nat)
    requires start <= a < b < |s| && s[a] == '_' && s[b] == '.'
    ensures s[start..] == s[start..a] + "_" + s[a + 1..b] + "." + s[b + 1..]
  {
  }

  // ---------------------------------------------------------------------------
  // Properties
  // ---------------------------------------------------------------------------

  /** The extension is the text after the last dot, kept verbatim (case included). */
  lemma FileExtensionOfJoin(stem: string, ext: string)
    requires stem != [] && '.' !in ext
    ensures FileExtension(stem + "." + ext) == ext
  {
    var name := stem + "." + ext;
    assert name[|stem|] == '.';
    assert forall i :: |stem| < i < |name| ==> name[i] == ext[i - |stem| - 1];
    LastIndexBeforeAt(name, '.', |stem|, |name|);
    assert name[|stem| + 1..] == ext;
  }

  /** No dot, or only a leading dot (`.jpg`), means no extension. */
  lemma FileExtensionNone(name: string)
    requires '.' !in name || (name[0] == '.' && '.' !in name[1..])
    ensures FileExtension(name) == []
  {
  }

  /** A managed extension is non-empty and made of word characters. */
  lemma ImageExtensionIsWord(name: string)
    requires IsImage(name)
    ensures FileExtension(name) != [] && AllWordChars(FileExtension(name))
  {
    var e := FileExtension(name);
    var l := Lower(e);
    assert forall i :: 0 <= i < |l| ==> IsAlphanumeric(l[i]);
    assert forall i :: 0 <= i < |e| ==> IsAlphanumeric(e[i]) by {
      forall i | 0 <= i < |e| ensures IsAlphanumeric(e[i]) {
        assert l[i] == ToLower(e[i]);
      }
    }
  }

  /** A formatted name keeps the extension it was given. */
  lemma FormatNameExtension(prefix: string, index: nat, ext: string)
    requires '.' !in ext
    ensures FileExtension(FormatName(prefix, index, ext)) == ext
  {
    assert FormatName(prefix, index, ext) == (prefix + "_" + ZeroPad(index, 4)) + "." + ext;
    FileExtensionOfJoin(prefix + "_" + ZeroPad(index, 4), ext);
  }

  /**
   * A formatted name with an index up to 9999: the prefix, an underscore
   * (even for an empty prefix), exactly four digits denoting the index, a
   * dot and the extension.
   */
  lemma FormatNameShape(prefix: string, index: nat, ext: string)
    requires index <= 9999
    ensures var target := FormatName(prefix, index, ext);
      && |target| == |prefix| + 6 + |ext|
      && target[..|prefix| + 1] == prefix + "_"
      && AllDigits(target[|prefix| + 1..|prefix| + 5])
      && ValueOf(target[|prefix| + 1..|prefix| + 5]) == index
      && target[|prefix| + 5..] == "." + ext
  {
    var pad := ZeroPad(index, 4);
    ZeroPad4Width(index);
    ZeroPadValue(index, 4);
    var target := FormatName(prefix, index, ext);
    assert target == (prefix + "_") + pad + ("." + ext);
    assert target[|prefix| + 1..|prefix| + 5] == pad;
  }

  /**
   * `rename_image`'s target for a non-empty image name and an index up to
   * 9999 is the formatted name, so it keeps the original extension.
   */
  lemma RenamedToShape(imageName: string, newPrefix: string, index: nat)
    requires imageName != [] && index <= 9999
    ensures var target := RenamedTo(imageName, newPrefix, index);
      && target == FormatName(newPrefix, index, FileExtension(imageName))
      && FileExtension(target) == FileExtension(imageName)
  {
    FormatNameExtension(newPrefix, index, FileExtension(imageName));
  }

  /**
   * Formatted names with dot-free extensions and indices up to 9999 are
   * equal only when prefix, index and extension are: the last dot fixes the
   * extension, the lengths then fix the prefix, and the four digits the index.
   */
  lemma FormatNameInjective(p: string, i: nat, e: string, q: string, j: nat, f: string)
    requires '.' !in e && '.' !in f && i <= 9999 && j <= 9999
    requires FormatName(p, i, e) == FormatName(q, j, f)
    ensures p == q && i == j && e == f
  {
    var name := FormatName(p, i, e);
    FormatNameExtension(p, i, e);
    FormatNameExtension(q, j, f);
    assert e == f;
    ZeroPad4Width(i);
    ZeroPad4Width(j);
    FormatNameAt(p, i, e);
    FormatNameAt(q, j, f);
    assert |p| == |q|;
    Pad4Injective(i, j);
  }

  lemma FormatNameIndexDiffers(p: string, i: nat, e: string, q: string, j: nat, f: string)
    requires '.' !in e && '.' !in f && i <= 9999 && j <= 9999 && i != j
    ensures FormatName(p, i, e) != FormatName(q, j, f)
  {
    if FormatName(p, i, e) == FormatName(q, j, f) {
      FormatNameInjective(p, i, e, q, j, f);
    }
  }

  /** Names sharing a prefix sort by index while indices have four digits. */
  lemma FormatNameOrder(p: string, i: nat, e: string, j: nat, f: string)
    requires i < j <= 9999
    ensures Less(FormatName(p, i, e), FormatName(p, j, f))
  {
    var pi, pj := ZeroPad(i, 4), ZeroPad(j, 4);
    ZeroPad4Width(i);
    ZeroPad4Width(j);
    Pad4Order(i, j);
    LessExtend(pi, pj, "." + e, "." + f);
    LessCommonPrefix(p + "_", pi + ("." + e), pj + ("." + f));
    FormatNameParts(p, i, e);
    FormatNameParts(p, j, f);
  }

  lemma ParseU32Digits(digits: string)
    requires digits != [] && AllDigits(digits) && ValueOf(digits) < U32Limit
    ensures ParseU32(digits) == Some(ValueOf(digits))
    ensures ParseU32("+" + digits) == Some(ValueOf(digits))
  {
    assert ("+" + digits)[1..] == digits;
  }

  /** `u32` parsing rejects the empty string, a lone sign, a minus sign and overflow. */
  lemma ParseU32Rejects(digits: string)
    requires AllDigits(digits)
    ensures ParseU32([]) == None && ParseU32("+") == None
    ensures ParseU32("-" + digits) == None
    ensures ValueOf(digits) >= U32Limit ==> ParseU32(digits) == None
  {
    assert !IsDigit(('-' as char));
    assert ("-" + digits)[0] == '-';
  }

  /**
   * A name that is a newline-free prefix, '_', digits, '.' and word
   * characters up to the end parses into those parts, when the digits fit
   * in a `u32`.
   */
  lemma ParseFilenameAt(name: string, a: nat, b: nat)
    requires 1 <= a && a + 1 < b && b + 1 < |name|
    requires name[a] == '_' && name[b] == '.'
    requires forall i :: 0 <= i < a ==> name[i] != '\n'
    requires DigitsBetween(name, a + 1, b) && WordCharsBetween(name, b + 1, |name|)
    requires ValueOf(name[a + 1..b]) < U32Limit
    ensures ParseFilename(name) == Some(StructuredName(name[..a], ValueOf(name[a + 1..b]), name[b + 1..]))
  {
    ParseFilenameSteps(name, a, b);
    ParseFilenameFromSteps(name, a, b, ValueOf(name[a + 1..b]));
  }

  /** `_parse_filename` returns the parts its steps locate. */
  lemma ParseFilenameFromSteps(name: string, a: nat, b: nat, v: nat)
    requires 1 <= a && a + 1 < b && b < |name| && name[a] == '_'
    requires WordDotBefore(name, |name|) == b && DigitRunStart(name, b) == a + 1
    requires LastIndexBefore(name, '\n', a) == -1
    requires ParseU32(name[a + 1..b]) == Some(v)
    ensures ParseFilename(name) == Some(StructuredName(name[..a], v, name[b + 1..]))
  {
  }

  /** The value each step of `_parse_filename` computes on such a name. */
  lemma ParseFilenameSteps(name: string, a: nat, b: nat)
    requires 1 <= a && a + 1 < b && b + 1 < |name|
    requires name[a] == '_' && name[b] == '.'
    requires forall i :: 0 <= i < a ==> name[i] != '\n'
    requires DigitsBetween(name, a + 1, b) && WordCharsBetween(name, b + 1, |name|)
    requires ValueOf(name[a + 1..b]) < U32Limit
    ensures WordDotBefore(name, |name|) == b && DigitRunStart(name, b) == a + 1
    ensures LastIndexBefore(name, '\n', a) == -1
    ensures ParseU32(name[a + 1..b]) == Some(ValueOf(name[a + 1..b]))
  {
    WordDotBeforeAt(name, |name|, b);
    DigitRunStartAt(name, a + 1, b);
    LastIndexBeforeAt(name, '\n', -1, a);
    DigitsBetweenSlice(name, a + 1, b);
    ParseU32Digits(name[a + 1..b]);
  }

  /** Where the parts of a formatted name sit. */
  lemma FormatNameAt(prefix: string, index: nat, ext: string)
    ensures var name := FormatName(prefix, index, ext);
      var a := |prefix|;
      var b := a + 1 + |ZeroPad(index, 4)|;
      && |name| == b + 1 + |ext|
      && name[a] == '_' && name[b] == '.'
      && (forall i :: 0 <= i < a ==> name[i] == prefix[i])
      && DigitsBetween(name, a + 1, b)
      && (forall i :: b < i < |name| ==> name[i] == ext[i - b - 1])
      && name[..a] == prefix && name[a + 1..b] == ZeroPad(index, 4) && name[b + 1..] == ext
  {
    var digits := ZeroPad(index, 4);
    var name := FormatName(prefix, index, ext);
    var a := |prefix|;
    var b := a + 1 + |digits|;
    assert name == prefix + ("_" + (digits + ("." + ext)));
    forall i | a + 1 <= i < b ensures IsDigit(name[i]) {
      assert name[i] == digits[i - a - 1];
    }
  }

  /**
   * Round trip: parsing a formatted name gives back its parts, for a
   * non-empty prefix without newlines (underscores and digits allowed), any
   * `u32` index, and a non-empty word-character extension.
   */
  lemma ParseFormatRoundTrip(prefix: string, index: nat, ext: string)
    requires prefix != [] && '\n' !in prefix
    requires index < U32Limit
    requires ext != [] && AllWordChars(ext)
    ensures ParseFilename(FormatName(prefix, index, ext)) == Some(StructuredName(prefix, index, ext))
  {
    var name := FormatName(prefix, index, ext);
    var a := |prefix|;
    var b := a + 1 + |ZeroPad(index, 4)|;
    FormatNameAt(prefix, index, ext);
    ZeroPadValue(index, 4);
    assert forall i :: 0 <= i < a ==> name[i] != '\n';
    assert WordCharsBetween(name, b + 1, |name|);
    ParseFilenameAt(name, a, b);
  }

  /** A name formatted with an empty prefix, `_0007.jpg`, does not parse. */
  lemma EmptyPrefixDoesNotParse(index: nat, ext: string)
    requires ext != [] && AllWordChars(ext)
    ensures ParseFilename(FormatName([], index, ext)) == None
  {
    var name := FormatName([], index, ext);
    var b := 1 + |ZeroPad(index, 4)|;
    FormatNameAt([], index, ext);
    assert WordCharsBetween(name, b + 1, |name|);
    WordDotBeforeAt(name, |name|, b);
    DigitRunStartAt(name, 1, b);
  }
}
