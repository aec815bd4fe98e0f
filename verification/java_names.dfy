/**
 * The name handling of the Java implementation: `Utils.getExtension`,
 * `Utils.fileName`, `Utils.newFileName` (Java/Utils.java) and the photo
 * filter `Filter.accept` (Java/Filter.java), with the pieces of the Java
 * library they lean on: 32-bit `int` arithmetic, `Integer.toString` (what
 * `StringBuilder.append(int)` writes) and `Integer.parseInt`.
 */
module JavaNames {
  import opened Wrappers
  import opened Text

  // ---------------------------------------------------------------------------
  // Java `int`
  // ---------------------------------------------------------------------------

  const Int32Min: int := -0x8000_0000
  const Int32Max: int := 0x7fff_ffff
  const Int32Span: int := 0x1_0000_0000

  predicate IsInt32(x: int) { Int32Min <= x <= Int32Max }

  /** The exceptions the programs can end with. */
  datatype JavaError =
    | NumberFormatException(text: string)
    | FileNotFoundException(name: string)
    | IOException(name: string)
    | ArrayIndexOutOfBoundsException

  /** The `int` a Java addition or subtraction leaves: the exact result reduced modulo 2^32 into the `int` range. */
  function Wrap32(x: int): (r: int)
    ensures IsInt32(r)
    ensures IsInt32(x) ==> r == x
  {
    (x - Int32Min) % Int32Span + Int32Min
  }

  /** Wrapping after each step of a sum is wrapping once at the end. */
  lemma Wrap32Add(x: int, y: int)
    ensures Wrap32(Wrap32(x) + y) == Wrap32(x + y)
  {
    var q := (x - Int32Min) / Int32Span;
    assert Wrap32(x) == x - q * Int32Span;
    assert (x + y - Int32Min) - q * Int32Span == Wrap32(x) + y - Int32Min;
    ModShift(x + y - Int32Min, q);
  }

  /** The `int` after `x + 1`, advanced `k - 1` more, is `x + k`. */
  lemma Wrap32Next(x: int, k: nat)
    requires k >= 1
    ensures Wrap32(Wrap32(x + 1) + (k - 1)) == Wrap32(x + k)
  {
    Wrap32Add(x + 1, k - 1);
    assert x + 1 + (k - 1) == x + k;
  }

  lemma Wrap32Same(x: int, y: int)
    requires x == y && IsInt32(y)
    ensures Wrap32(x) == y
  {
  }

  lemma ModShift(a: int, q: int)
    ensures (a - q * Int32Span) % Int32Span == a % Int32Span
  {
  }

  /** Two Java `int`s that are congruent modulo 2^32 are the same. */
  lemma Wrap32Congruent(x: int, y: int)
    requires (x - y) % Int32Span == 0
    ensures Wrap32(x) == Wrap32(y)
  {
    var q := (x - y) / Int32Span;
    assert x - Int32Min == (y - Int32Min) + q * Int32Span;
    ModShift(x - Int32Min, q);
  }

  /** `Integer.toString(n)`: a minus sign for negatives, then the decimal digits of the magnitude. */
  function IntToString(n: int): (r: string)
    ensures |r| >= 1
  {
    if n < 0 then "-" + Decimal(-n) else Decimal(n)
  }

  /**
   * `Integer.parseInt(s)`: an optional `+` or `-`, then one or more
   * digits, and the value must fit in an `int`; anything else throws
   * `NumberFormatException` (here `None`). Nothing is trimmed.
   */
  function ParseInt(s: string): (r: Option<int>)
    ensures r.Some? ==> IsInt32(r.value)
  {
    if s == [] then None
    else
      var digits := if s[0] == '-' || s[0] == '+' then s[1..] else s;
      if digits == [] || !AllDigits(digits) then None
      else
        var v := if s[0] == '-' then -(ValueOf(digits) as int) else ValueOf(digits);
        if IsInt32(v) then Some(v) else None
  }

  /** `Integer.parseInt` reads back what `Integer.toString` writes, for every `int`. */
  lemma ParseIntToString(n: int)
    requires IsInt32(n)
    ensures ParseInt(IntToString(n)) == Some(n)
  {
    var m: nat := if n < 0 then -n else n;
    var digits := Decimal(m);
    ZeroPadValue(m, 0);
    assert IsDigit(digits[0]);
    if n < 0 {
      assert IntToString(n)[1..] == digits;
    }
  }

  /** A decimal beyond `Integer.MAX_VALUE` does not parse. */
  lemma ParseIntOverflow(n: nat)
    requires n > Int32Max
    ensures ParseInt(Decimal(n)) == None
  {
    ZeroPadValue(n, 0);
    assert IsDigit(Decimal(n)[0]);
  }

  /** Unlike the Python and Rust readers, surrounding blanks make the text unreadable. */
  lemma ParseIntNoTrim(s: string)
    ensures ParseInt(" " + s) == None
    ensures ParseInt(s + " ") == None
  {
    var t := s + " ";
    if t[0] != '-' && t[0] != '+' {
      assert t[|t| - 1] == ' ';
    } else {
      assert t[1..][|t| - 2] == ' ';
    }
  }

  lemma ParseIntSignAlone()
    ensures ParseInt("") == None && ParseInt("+") == None && ParseInt("-") == None
  {
    assert "+"[1..] == [] && "-"[1..] == [];
  }

  // ---------------------------------------------------------------------------
  // `Utils.getExtension`
  // ---------------------------------------------------------------------------

  /** The pattern `\.\w+\z` matches at `p`: a dot, then word characters, at least one, to the end. */
  predicate ExtensionMatchAt(s: string, p: nat)
  {
    p < |s| - 1 && s[p] == '.' && AllWordChars(s[p + 1..])
  }

  /** `Utils.getExtension`: the text `\.\w+\z` finds, or "" when it finds nothing. */
  function GetExtension(name: string): (r: string)
  {
    var b := WordExtensionDot(name);
    if b >= 0 then name[b..] else ""
  }

  /**
   * The pattern can match at one place only, since a dot is not a word
   * character; the extension is the text matched there, and "" exactly
   * when there is no match.
   */
  lemma GetExtensionMatch(name: string, p: nat)
    ensures ExtensionMatchAt(name, p) ==> GetExtension(name) == name[p..]
    ensures var e := GetExtension(name); e != "" ==> |e| <= |name| && ExtensionMatchAt(name, |name| - |e|) && e == name[|name| - |e|..]
  {
    if ExtensionMatchAt(name, p) {
      WordExtensionDotAt(name, p);
    }
  }

  /** An extension of the pattern's shape appended to any stem is what `getExtension` finds. */
  lemma GetExtensionOfJoin(stem: string, ext: string)
    requires |ext| >= 2 && ext[0] == '.' && AllWordChars(ext[1..])
    ensures GetExtension(stem + ext) == ext
  {
    var s := stem + ext;
    assert s[|stem| + 1..] == ext[1..];
    GetExtensionMatch(s, |stem|);
    assert s[|stem|..] == ext;
  }

  // ---------------------------------------------------------------------------
  // `Utils.fileName` and `Utils.newFileName`
  // ---------------------------------------------------------------------------

  /** The zeros `fileName` puts before the index. */
  function Padding(index: int): string
  {
    if index < 10 then "000" else if index < 100 then "00" else if index < 1000 then "0" else ""
  }

  /** `Utils.fileName(prefix, index, extension)`. */
  function FileName(prefix: string, index: int, extension: string): string
  {
    prefix + "_" + Padding(index) + IntToString(index) + extension
  }

  /** `Utils.newFileName`: the new name keeps the original's extension. */
  function NewFileName(originalFileName: string, prefix: string, index: int): string
  {
    FileName(prefix, index, GetExtension(originalFileName))
  }

  lemma {:induction false} FixedDigitsWiden(n: nat, m: nat, k: nat)
    requires n < Pow10(m)
    ensures FixedDigits(n, m + k) == FixedDigits(0, k) + FixedDigits(n, m)
    decreases m
  {
    if m == 0 {
      assert n == 0;
    } else {
      assert n / 10 < Pow10(m - 1);
      FixedDigitsWiden(n / 10, m - 1, k);
      assert m + k - 1 == (m - 1) + k;
    }
  }

  lemma {:induction false} NumDigitsAtLeast(n: nat, k: nat)
    requires n >= Pow10(k)
    ensures NumDigits(n) > k
    decreases k
  {
    if k > 0 {
      assert n / 10 >= Pow10(k - 1);
      NumDigitsAtLeast(n / 10, k - 1);
    }
  }

  /** The zeros for a non-negative index followed by its digits are `{:04}`: four digits up to 9999, the plain number beyond. */
  lemma PaddingIsZeroPad(n: nat)
    ensures Padding(n) + Decimal(n) == ZeroPad(n, 4)
  {
    assert FixedDigits(0, 1) == "0";
    assert FixedDigits(0, 2) == "00";
    assert FixedDigits(0, 3) == "000";
    if n < 10 {
      assert NumDigits(n) == 1;
      FixedDigitsWiden(n, 1, 3);
    } else if n < 100 {
      assert NumDigits(n) == 2;
      FixedDigitsWiden(n, 2, 2);
    } else if n < 1000 {
      assert NumDigits(n / 10) == 2;
      assert NumDigits(n) == 3;
      FixedDigitsWiden(n, 3, 1);
    } else {
      NumDigitsAtLeast(n, 3);
    }
  }

  /** From 0 to 9999 the index is written with exactly four digits. */
  lemma FileNameFourDigits(prefix: string, index: int, extension: string)
    requires 0 <= index <= 9999
    ensures FileName(prefix, index, extension) == prefix + "_" + FixedDigits(index, 4) + extension
  {
    PaddingIsZeroPad(index);
    ZeroPad4Width(index);
  }

  /** From 10000 the index is written unpadded, with more than four digits. */
  lemma FileNameAboveLimit(prefix: string, index: int, extension: string)
    requires index >= 10000
    ensures FileName(prefix, index, extension) == prefix + "_" + Decimal(index) + extension
    ensures |Decimal(index)| > 4
  {
    NumDigitsAtLeast(index, 4);
  }

  /** A negative index takes the `< 10` branch: three zeros, then the minus sign. */
  lemma FileNameNegative(prefix: string, index: int, extension: string)
    requires index < 0
    ensures FileName(prefix, index, extension) == prefix + "_000-" + Decimal(-index) + extension
  {
  }

  /** The underscore is there even when the prefix is empty. */
  lemma FileNameEmptyPrefix(index: int, extension: string)
    ensures FileName("", index, extension)[0] == '_'
  {
  }

  /** Between 0 and 9999, different indices give different names, whatever the extensions. */
  lemma FileNameIndexApart(prefix: string, a: int, b: int, e1: string, e2: string)
    requires 0 <= a <= 9999 && 0 <= b <= 9999 && a != b
    ensures FileName(prefix, a, e1) != FileName(prefix, b, e2)
  {
    FileNameFourDigits(prefix, a, e1);
    FileNameFourDigits(prefix, b, e2);
    FixedDigitsValue(a, 4);
    FixedDigitsValue(b, 4);
    JoinDistinct(prefix + "_", FixedDigits(a, 4), e1, FixedDigits(b, 4), e2);
  }

  /** What `getExtension` finds is a dot followed by word characters, at least one. */
  lemma GetExtensionShape(name: string)
    requires GetExtension(name) != ""
    ensures var e := GetExtension(name); |e| >= 2 && e[0] == '.' && AllWordChars(e[1..])
  {
    var b := WordExtensionDot(name);
    assert name[b..][1..] == name[b + 1..];
  }

  /** `newFileName` keeps the original's extension, case and dot included. */
  lemma NewFileNameKeepsExtension(originalFileName: string, prefix: string, index: int)
    requires GetExtension(originalFileName) != ""
    ensures GetExtension(NewFileName(originalFileName, prefix, index)) == GetExtension(originalFileName)
  {
    GetExtensionShape(originalFileName);
    var stem := prefix + "_" + Padding(index) + IntToString(index);
    GetExtensionOfJoin(stem, GetExtension(originalFileName));
  }

  // ---------------------------------------------------------------------------
  // `Filter.accept`
  // ---------------------------------------------------------------------------

  /** The extensions `Filter` lets through: JPEG, Nikon raw, JPEG, video, Canon raw. */
  const AcceptedExtensions: seq<string> := [".JPG", ".NEF", ".jpg", ".MOV", ".CR2"]

  /** `Filter.accept`: only the name's `getExtension` matters, compared case-sensitively. */
  predicate Accept(name: string)
  {
    GetExtension(name) in AcceptedExtensions
  }

  /** For a name ending in a dot and word characters, it is accepted exactly when that ending is one of the five. */
  lemma AcceptExactly(stem: string, ext: string)
    requires |ext| >= 2 && ext[0] == '.' && AllWordChars(ext[1..])
    ensures Accept(stem + ext) <==> ext in AcceptedExtensions
  {
    GetExtensionOfJoin(stem, ext);
  }

  /** A name with no extension is rejected. */
  lemma NoExtensionRejected(name: string)
    requires forall p: nat :: !ExtensionMatchAt(name, p)
    ensures GetExtension(name) == "" && !Accept(name)
  {
    GetExtensionMatch(name, 0);
  }

  /** Other spellings of the same formats are rejected, whatever the stem: the comparison is case-sensitive. */
  lemma AcceptCaseSensitive(stem: string)
    ensures !Accept(stem + ".jpeg") && !Accept(stem + ".nef") && !Accept(stem + ".png")
  {
    AcceptExactly(stem, ".jpeg");
    AcceptExactly(stem, ".nef");
    AcceptExactly(stem, ".png");
  }

  /** Only the final extension counts: a photo with `.bak` added is rejected. */
  lemma AcceptFinalExtension(stem: string)
    ensures !Accept(stem + ".JPG.bak")
  {
    assert stem + ".JPG.bak" == (stem + ".JPG") + ".bak";
    AcceptExactly(stem + ".JPG", ".bak");
  }
}
