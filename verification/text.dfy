/**
 * Character classes, searching and decimal formatting shared by the three
 * implementations. Character classes are the ASCII ones: `\d` is [0-9] and
 * `\w` is [A-Za-z0-9_].
 */
module Text {

  predicate IsDigit(c: char) { '0' <= c <= '9' }

  predicate IsAsciiLetter(c: char) { 'a' <= c <= 'z' || 'A' <= c <= 'Z' }

  predicate IsAlphanumeric(c: char) { IsAsciiLetter(c) || IsDigit(c) }

  predicate IsWordChar(c: char) { IsAlphanumeric(c) || c == '_' }

  predicate AllDigits(s: string) { forall i :: 0 <= i < |s| ==> IsDigit(s[i]) }

  predicate AllWordChars(s: string) { forall i :: 0 <= i < |s| ==> IsWordChar(s[i]) }

  predicate StartsWith(s: string, prefix: string) { |prefix| <= |s| && s[..|prefix|] == prefix }

  /** Text that starts with `prefix` still does after more is appended. */
  lemma StartsWithAppend(s: string, t: string, prefix: string)
    requires StartsWith(s, prefix)
    ensures StartsWith(s + t, prefix)
  {
    assert (s + t)[..|prefix|] == s[..|prefix|];
  }

  /** ASCII lower-casing of one character. */
  function ToLower(c: char): (r: char)
    ensures IsAsciiLetter(c) <==> IsAsciiLetter(r)
    ensures IsDigit(c) <==> IsDigit(r)
    ensures 'a' <= r <= 'z' || r == c
  {
    if 'A' <= c <= 'Z' then (c as int + 32) as char else c
  }

  function Lower(s: string): (r: string)
    ensures |r| == |s|
    ensures forall i :: 0 <= i < |s| ==> r[i] == ToLower(s[i])
  {
    seq(|s|, i requires 0 <= i < |s| => ToLower(s[i]))
  }

  /** Position of the last occurrence of `c` in `s`, or -1 when there is none. */
  function LastIndexOf(s: string, c: char): (r: int)
    ensures -1 <= r < |s|
    ensures r >= 0 ==> s[r] == c
  {
    LastIndexBefore(s, c, |s|)
  }

  /** Position of the last occurrence of `c` among the first `k` characters, or -1. */
  function LastIndexBefore(s: string, c: char, k: nat): (r: int)
    requires k <= |s|
    ensures -1 <= r < k
    ensures r >= 0 ==> s[r] == c
  {
    if k == 0 then -1
    else if s[k - 1] == c then k - 1
    else LastIndexBefore(s, c, k - 1)
  }

  /** Nothing after the last occurrence before `k`, up to `k`, is `c`. */
  lemma {:induction false} LastIndexBeforeNone(s: string, c: char, k: nat)
    requires k <= |s|
    ensures forall i :: LastIndexBefore(s, c, k) < i < k ==> s[i] != c
  {
    if k > 0 && s[k - 1] != c {
      LastIndexBeforeNone(s, c, k - 1);
    }
  }

  /** Nothing after the last occurrence is `c`. */
  lemma LastIndexOfNone(s: string, c: char)
    ensures forall i :: LastIndexOf(s, c) < i < |s| ==> s[i] != c
  {
    LastIndexBeforeNone(s, c, |s|);
  }

  /** The last occurrence before `e` is the one with no occurrence after it up to `e`. */
  lemma {:induction false} LastIndexBeforeAt(s: string, c: char, k: int, e: nat)
    requires e <= |s| && -1 <= k < e && (k >= 0 ==> s[k] == c)
    requires forall i :: k < i < e ==> s[i] != c
    ensures LastIndexBefore(s, c, e) == k
  {
    LastIndexBeforeNone(s, c, e);
  }

  /** No occurrence from `k` on puts the last one before `k`. */
  lemma {:induction false} LastIndexOfBelow(s: string, c: char, k: nat)
    requires k <= |s|
    requires forall i :: k <= i < |s| ==> s[i] != c
    ensures LastIndexOf(s, c) < k
  {
  }

  /** Every character at positions `lo` up to `hi` is a digit. */
  predicate DigitsBetween(s: string, lo: nat, hi: nat)
  {
    forall i :: lo <= i < hi && i < |s| ==> IsDigit(s[i])
  }

  /** The range form and the slice form say the same. */
  lemma DigitsBetweenSlice(s: string, lo: nat, hi: nat)
    requires lo <= hi <= |s|
    ensures DigitsBetween(s, lo, hi) <==> AllDigits(s[lo..hi])
  {
    var t := s[lo..hi];
    if DigitsBetween(s, lo, hi) {
      forall i | 0 <= i < |t| ensures IsDigit(t[i]) {
        assert t[i] == s[lo + i];
      }
    }
    if AllDigits(t) {
      forall i | lo <= i < hi && i < |s| ensures IsDigit(s[i]) {
        assert s[i] == t[i - lo];
      }
    }
  }

  /** Start of the longest run of digits that ends just before position `j`. */
  function DigitRunStart(s: string, j: nat): (r: nat)
    requires j <= |s|
    ensures r <= j
    ensures DigitsBetween(s, r, j)
    ensures r == 0 || !IsDigit(s[r - 1])
  {
    if j == 0 || !IsDigit(s[j - 1]) then j
    else DigitRunStart(s, j - 1)
  }

  /** The run start is determined by the surrounding characters. */
  lemma {:induction false} DigitRunStartAt(s: string, k: nat, j: nat)
    requires 1 <= k <= j <= |s|
    requires DigitsBetween(s, k, j) && !IsDigit(s[k - 1])
    ensures DigitRunStart(s, j) == k
    decreases j
  {
    if k < j {
      assert IsDigit(s[j - 1]);
      DigitRunStartAt(s, k, j - 1);
    }
  }

  /** Only word characters at positions `lo` up to `hi`. */
  predicate WordCharsBetween(s: string, lo: nat, hi: nat)
  {
    forall i :: lo <= i < hi && i < |s| ==> IsWordChar(s[i])
  }

  /** The last dot before position `e` that is followed by word characters, at least one, up to `e`; -1 if there is none. */
  function WordDotBefore(s: string, e: nat): (r: int)
    requires e <= |s|
    ensures -1 <= r < e
    ensures r >= 0 ==> s[r] == '.' && r < e - 1 && WordCharsBetween(s, r + 1, e)
  {
    var b := LastIndexBefore(s, '.', e);
    if b >= 0 && b < e - 1 && WordCharsBetween(s, b + 1, e) then b else -1
  }

  /** A dot followed by word characters up to `e` is the one found. */
  lemma {:induction false} WordDotBeforeAt(s: string, e: nat, b: nat)
    requires e <= |s| && b < e - 1 && s[b] == '.' && WordCharsBetween(s, b + 1, e)
    ensures WordDotBefore(s, e) == b
  {
    assert forall i :: b < i < e ==> s[i] != '.' by {
      forall i | b < i < e ensures s[i] != '.' {
        assert IsWordChar(s[i]);
      }
    }
    LastIndexBeforeAt(s, '.', b, e);
  }

  /** The last dot of `s`, when only word characters, at least one, follow it; -1 otherwise. */
  function WordExtensionDot(s: string): (r: int)
    ensures -1 <= r < |s|
    ensures r >= 0 ==> s[r] == '.' && r < |s| - 1 && AllWordChars(s[r + 1..])
  {
    WordDotBefore(s, |s|)
  }

  /** A dot followed by word characters up to the end is the one found. */
  lemma WordExtensionDotAt(s: string, b: nat)
    requires b < |s| - 1 && s[b] == '.' && AllWordChars(s[b + 1..])
    ensures WordExtensionDot(s) == b
  {
    forall i | b + 1 <= i < |s| ensures IsWordChar(s[i]) {
      assert s[i] == s[b + 1..][i - b - 1];
    }
    WordDotBeforeAt(s, |s|, b);
  }

  lemma JoinDistinct(head: string, a: string, x: string, b: string, y: string)
    requires |a| == |b| && a != b
    ensures head + a + x != head + b + y
  {
    var m := DifferAt(a, b);
    var n := |head|;
    assert (head + a + x)[n + m] == a[m];
    assert (head + b + y)[n + m] == b[m];
  }

  /** Two different texts of the same length differ at some position. */
  lemma {:induction false} DifferAt(a: string, b: string) returns (m: nat)
    requires |a| == |b| && a != b
    ensures m < |a| && a[m] != b[m]
    decreases |a|
  {
    if a[0] != b[0] {
      m := 0;
    } else {
      assert a == [a[0]] + a[1..] && b == [b[0]] + b[1..];
      var k := DifferAt(a[1..], b[1..]);
      m := k + 1;
    }
  }

  // ---------------------------------------------------------------------------
  // Decimal digits
  // ---------------------------------------------------------------------------

  function DigitChar(d: nat): (c: char)
    requires d < 10
    ensures IsDigit(c)
  {
    ('0' as int + d) as char
  }

  function DigitValue(c: char): nat
  {
    if IsDigit(c) then c as int - '0' as int else 0
  }

  function Pow10(n: nat): (r: nat)
    ensures r >= 1
  {
    if n == 0 then 1 else 10 * Pow10(n - 1)
  }

  lemma {:induction false} Pow10Monotone(a: nat, b: nat)
    requires a <= b
    ensures Pow10(a) <= Pow10(b)
  {
    if a < b { Pow10Monotone(a, b - 1); }
  }

  /** The number a string of decimal digits denotes (leading zeros allowed). */
  function ValueOf(s: string): nat
  {
    if |s| == 0 then 0 else ValueOf(s[..|s| - 1]) * 10 + DigitValue(s[|s| - 1])
  }

  /** The `w` low-order decimal digits of `n`, most significant first. */
  function FixedDigits(n: nat, w: nat): (r: string)
    ensures |r| == w && AllDigits(r)
  {
    if w == 0 then [] else FixedDigits(n / 10, w - 1) + [DigitChar(n % 10)]
  }

  /** How many decimal digits `n` has (0 has one). */
  function NumDigits(n: nat): (k: nat)
    ensures 1 <= k && n < Pow10(k)
  {
    if n < 10 then 1 else 1 + NumDigits(n / 10)
  }

  lemma {:induction false} NumDigitsAtMost(n: nat, w: nat)
    requires n < Pow10(w)
    ensures NumDigits(n) <= w || w == 0
  {
    if n >= 10 && w > 0 {
      NumDigitsAtMost(n / 10, w - 1);
    }
  }

  /** Decimal rendering of `n` zero-padded to at least `w` digits: Rust's `{:0w}`. */
  function ZeroPad(n: nat, w: nat): (r: string)
    ensures AllDigits(r) && |r| >= w
  {
    FixedDigits(n, if NumDigits(n) > w then NumDigits(n) else w)
  }

  /** Plain decimal rendering of `n`, no padding. */
  function Decimal(n: nat): (r: string)
    ensures AllDigits(r) && |r| >= 1
  {
    ZeroPad(n, 0)
  }

  lemma {:induction false} FixedDigitsValue(n: nat, w: nat)
    requires n < Pow10(w)
    ensures ValueOf(FixedDigits(n, w)) == n
  {
    if w > 0 {
      FixedDigitsValue(n / 10, w - 1);
      var s := FixedDigits(n, w);
      assert s[..|s| - 1] == FixedDigits(n / 10, w - 1);
    }
  }

  /** Reading back a zero-padded rendering gives the number. */
  lemma ZeroPadValue(n: nat, w: nat)
    ensures ValueOf(ZeroPad(n, w)) == n
  {
    var k := NumDigits(n);
    if k <= w { Pow10Monotone(k, w); }
    FixedDigitsValue(n, if k > w then k else w);
  }

  /** Up to 9999, `{:04}` is exactly four digits wide. */
  lemma ZeroPad4Width(n: nat)
    requires n <= 9999
    ensures ZeroPad(n, 4) == FixedDigits(n, 4)
    ensures |ZeroPad(n, 4)| == 4
  {
    NumDigitsAtMost(n, 4);
  }

  lemma Pad4Injective(a: nat, b: nat)
    requires a <= 9999 && b <= 9999
    requires ZeroPad(a, 4) == ZeroPad(b, 4)
    ensures a == b
  {
    ZeroPadValue(a, 4);
    ZeroPadValue(b, 4);
  }

  // ---------------------------------------------------------------------------
  // Trimming
  // ---------------------------------------------------------------------------

  /**
   * Which characters count as white space: Rust's `char::is_whitespace`
   * (the Unicode White_Space property) or Python's `str.isspace`, which also
   * takes the four information separators U+001C to U+001F.
   */
  datatype Whitespace = UnicodeWhiteSpace | PythonSpace

  predicate IsSpace(ws: Whitespace, c: char)
  {
    || ('\t' <= c <= '\r') || c == ' ' || c == '\U{0085}' || c == '\U{00A0}' || c == '\U{1680}'
    || ('\U{2000}' <= c <= '\U{200A}') || c == '\U{2028}' || c == '\U{2029}' || c == '\U{202F}'
    || c == '\U{205F}' || c == '\U{3000}'
    || (ws == PythonSpace && '\U{001C}' <= c <= '\U{001F}')
  }

  predicate AllSpace(s: string, ws: Whitespace)
  {
    forall i :: 0 <= i < |s| ==> IsSpace(ws, s[i])
  }

  /** The end of the run of white space that starts at `i`. */
  function SpaceRunEnd(s: string, ws: Whitespace, i: nat): (k: nat)
    requires i <= |s|
    ensures i <= k <= |s|
    decreases |s| - i
  {
    if i < |s| && IsSpace(ws, s[i]) then SpaceRunEnd(s, ws, i + 1) else i
  }

  /** The start of the run of white space that ends at `hi`, going back no further than `lo`. */
  function SpaceRunStart(s: string, ws: Whitespace, lo: nat, hi: nat): (k: nat)
    requires lo <= hi <= |s|
    ensures lo <= k <= hi
    decreases hi
  {
    if lo < hi && IsSpace(ws, s[hi - 1]) then SpaceRunStart(s, ws, lo, hi - 1) else hi
  }

  /** `str::trim` and `str.strip()`: white space is removed from both ends (see `TrimEnds` and `TrimPadded`). */
  function Trim(s: string, ws: Whitespace): string
  {
    var a := SpaceRunEnd(s, ws, 0);
    s[a..SpaceRunStart(s, ws, a, |s|)]
  }

  /** The run found from `i` is white space and stops at the end or at a non-space. */
  lemma {:induction false} SpaceRunEndFacts(s: string, ws: Whitespace, i: nat)
    requires i <= |s|
    ensures var k := SpaceRunEnd(s, ws, i);
      && (forall j :: i <= j < k ==> IsSpace(ws, s[j]))
      && (k == |s| || !IsSpace(ws, s[k]))
    decreases |s| - i
  {
    if i < |s| && IsSpace(ws, s[i]) {
      SpaceRunEndFacts(s, ws, i + 1);
    }
  }

  /** The run found back from `hi` is white space and stops at `lo` or after a non-space. */
  lemma {:induction false} SpaceRunStartFacts(s: string, ws: Whitespace, lo: nat, hi: nat)
    requires lo <= hi <= |s|
    ensures var k := SpaceRunStart(s, ws, lo, hi);
      && (forall j :: k <= j < hi ==> IsSpace(ws, s[j]))
      && (k == lo || !IsSpace(ws, s[k - 1]))
    decreases hi
  {
    if lo < hi && IsSpace(ws, s[hi - 1]) {
      SpaceRunStartFacts(s, ws, lo, hi - 1);
    }
  }

  /** White space from `i` up to a non-space at `k` (or the end) is the run found. */
  lemma {:induction false} SpaceRunEndAt(s: string, ws: Whitespace, i: nat, k: nat)
    requires i <= k <= |s|
    requires forall j :: i <= j < k ==> IsSpace(ws, s[j])
    requires k == |s| || !IsSpace(ws, s[k])
    ensures SpaceRunEnd(s, ws, i) == k
    decreases k - i
  {
    if i < k {
      SpaceRunEndAt(s, ws, i + 1, k);
    }
  }

  /** White space from a non-space before `k` (or from `lo`) up to `hi` is the run found. */
  lemma {:induction false} SpaceRunStartAt(s: string, ws: Whitespace, lo: nat, k: nat, hi: nat)
    requires lo <= k <= hi <= |s|
    requires forall j :: k <= j < hi ==> IsSpace(ws, s[j])
    requires k == lo || !IsSpace(ws, s[k - 1])
    ensures SpaceRunStart(s, ws, lo, hi) == k
    decreases hi - k
  {
    if k < hi {
      SpaceRunStartAt(s, ws, lo, k, hi - 1);
    }
  }

  /**
   * The trimmed text starts and ends with a non-space, and is empty exactly
   * when the text is all white space.
   */
  lemma TrimEnds(s: string, ws: Whitespace)
    ensures var r := Trim(s, ws);
      && (r == [] || (!IsSpace(ws, r[0]) && !IsSpace(ws, r[|r| - 1])))
      && (r == [] <==> AllSpace(s, ws))
  {
    var a := SpaceRunEnd(s, ws, 0);
    var b := SpaceRunStart(s, ws, a, |s|);
    SpaceRunEndFacts(s, ws, 0);
    SpaceRunStartFacts(s, ws, a, |s|);
    var r := Trim(s, ws);
    assert r == s[a..b];
    if a < b {
      assert r[0] == s[a] && r[|r| - 1] == s[b - 1];
      assert !IsSpace(ws, s[a]);
    }
  }

  /** Trimming removes exactly the surrounding whitespace, so `" 12\r"` reads as `12`. */
  lemma TrimPadded(lead: string, body: string, trail: string, ws: Whitespace)
    requires AllSpace(lead, ws) && AllSpace(trail, ws)
    requires body == [] || (!IsSpace(ws, body[0]) && !IsSpace(ws, body[|body| - 1]))
    ensures Trim(lead + body + trail, ws) == body
  {
    var s := lead + body + trail;
    var a := |lead|;
    var b := |lead| + |body|;
    forall j | 0 <= j < a ensures IsSpace(ws, s[j]) {
      assert s[j] == lead[j];
    }
    forall j | b <= j < |s| ensures IsSpace(ws, s[j]) {
      assert s[j] == trail[j - b];
    }
    if body == [] {
      SpaceRunEndAt(s, ws, 0, |s|);
      SpaceRunStartAt(s, ws, |s|, |s|, |s|);
    } else {
      assert s[a] == body[0] && s[b - 1] == body[|body| - 1];
      SpaceRunEndAt(s, ws, 0, a);
      SpaceRunStartAt(s, ws, a, b, |s|);
      assert s[a..b] == body;
    }
  }
}
