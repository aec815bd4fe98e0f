/**
 * Lexicographic order on names (code point by code point, which is the order
 * Rust's `String`, Python's `str` and the UTF-8 byte order agree on), sorting,
 * and the sorted listing of a finite set of names.
 */
module Order {
  import opened Text

  /** `a` sorts strictly before `b`. */
  predicate Less(a: string, b: string)
    decreases |a|
  {
    if |b| == 0 then false
    else if |a| == 0 then true
    else a[0] < b[0] || (a[0] == b[0] && Less(a[1..], b[1..]))
  }

  lemma {:induction false} LessIrreflexive(a: string)
    ensures !Less(a, a)
  {
    if |a| > 0 { LessIrreflexive(a[1..]); }
  }

  lemma {:induction false} LessTransitive(a: string, b: string, c: string)
    requires Less(a, b) && Less(b, c)
    ensures Less(a, c)
  {
    if |a| > 0 && a[0] == b[0] && b[0] == c[0] {
      LessTransitive(a[1..], b[1..], c[1..]);
    }
  }

  lemma {:induction false} LessTotal(a: string, b: string)
    requires a != b
    ensures Less(a, b) || Less(b, a)
  {
    if |a| > 0 && |b| > 0 && a[0] == b[0] {
      assert a == [a[0]] + a[1..] && b == [b[0]] + b[1..];
      LessTotal(a[1..], b[1..]);
    }
  }

  lemma LessAsymmetric(a: string, b: string)
    requires Less(a, b)
    ensures !Less(b, a)
  {
    if Less(b, a) {
      LessTransitive(a, b, a);
      LessIrreflexive(a);
    }
  }

  /** A difference within equal-length heads decides the order, whatever follows. */
  lemma {:induction false} LessExtend(a: string, b: string, x: string, y: string)
    requires Less(a, b) && |a| == |b|
    ensures Less(a + x, b + y)
  {
    assert (a + x)[0] == a[0] && (b + y)[0] == b[0];
    if a[0] == b[0] {
      assert (a + x)[1..] == a[1..] + x && (b + y)[1..] == b[1..] + y;
      LessExtend(a[1..], b[1..], x, y);
    }
  }

  /** A shared head does not change the order. */
  lemma {:induction false} LessCommonPrefix(c: string, x: string, y: string)
    requires Less(x, y)
    ensures Less(c + x, c + y)
  {
    if |c| > 0 {
      assert (c + x)[1..] == c[1..] + x && (c + y)[1..] == c[1..] + y;
      LessCommonPrefix(c[1..], x, y);
    } else {
      assert c + x == x && c + y == y;
    }
  }

  /**
   * Fixed-width digit strings sort like the numbers they denote: the reason
   * zero padding keeps the numbering order under a name sort.
   */
  lemma {:induction false} FixedDigitsOrder(a: nat, b: nat, w: nat)
    requires a < b < Pow10(w)
    ensures Less(FixedDigits(a, w), FixedDigits(b, w))
  {
    var qa, qb := a / 10, b / 10;
    assert qb < Pow10(w - 1);
    if qa < qb {
      FixedDigitsOrder(qa, qb, w - 1);
      LessExtend(FixedDigits(qa, w - 1), FixedDigits(qb, w - 1), [DigitChar(a % 10)], [DigitChar(b % 10)]);
    } else {
      assert a % 10 < b % 10;
      assert Less([DigitChar(a % 10)], [DigitChar(b % 10)]);
      LessCommonPrefix(FixedDigits(qa, w - 1), [DigitChar(a % 10)], [DigitChar(b % 10)]);
    }
  }

  /** Four-digit indices keep their numeric order as text. */
  lemma Pad4Order(a: nat, b: nat)
    requires a < b <= 9999
    ensures Less(ZeroPad(a, 4), ZeroPad(b, 4))
  {
    ZeroPad4Width(a);
    ZeroPad4Width(b);
    FixedDigitsOrder(a, b, 4);
  }

  // ---------------------------------------------------------------------------
  // Sorted sequences
  // ---------------------------------------------------------------------------

  predicate Sorted(s: seq<string>)
  {
    forall i, j :: 0 <= i < j < |s| ==> !Less(s[j], s[i])
  }

  predicate StrictlySorted(s: seq<string>)
  {
    forall i, j :: 0 <= i < j < |s| ==> Less(s[i], s[j])
  }

  predicate NoDup<T(==)>(s: seq<T>)
  {
    forall i, j :: 0 <= i < j < |s| ==> s[i] != s[j]
  }

  /** Insert `x` into sorted `s` before the first element not below it. */
  function Insert(s: seq<string>, x: string): (r: seq<string>)
    requires Sorted(s)
    ensures Sorted(r)
    ensures multiset(r) == multiset(s) + multiset{x}
  {
    if s == [] || !Less(s[0], x) then
      forall j | 0 <= j < |s| ensures !Less(s[j], x) {
        if Less(s[j], x) {
          if x != s[0] {
            LessTotal(x, s[0]);
            LessTransitive(s[j], x, s[0]);
          }
        }
      }
      [x] + s
    else
      var t := Insert(s[1..], x);
      assert s == [s[0]] + s[1..];
      forall j | 0 <= j < |t| ensures !Less(t[j], s[0]) {
        assert t[j] in multiset(t);
        if t[j] == x {
          LessAsymmetric(s[0], x);
        } else {
          assert t[j] in multiset(s[1..]);
          var k :| 0 <= k < |s[1..]| && s[1..][k] == t[j];
          assert s[k + 1] == t[j];
        }
      }
      [s[0]] + t
  }

  /** `Vec::sort` / `list.sort`: an ascending permutation of the input. */
  method Sort(names: seq<string>) returns (r: seq<string>)
    ensures Sorted(r)
    ensures multiset(r) == multiset(names)
  {
    r := [];
    var i := 0;
    while i < |names|
      invariant i <= |names|
      invariant Sorted(r)
      invariant multiset(r) == multiset(names[..i])
    {
      assert names[..i + 1] == names[..i] + [names[i]];
      r := Insert(r, names[i]);
      i := i + 1;
    }
    assert names[..i] == names;
  }

  lemma SortedNoDupIsStrict(s: seq<string>)
    requires Sorted(s) && NoDup(s)
    ensures StrictlySorted(s)
  {
    forall i, j | 0 <= i < j < |s| ensures Less(s[i], s[j]) {
      LessTotal(s[i], s[j]);
    }
  }

  lemma {:induction false} NoDupCount<T>(s: seq<T>, x: T)
    requires NoDup(s)
    ensures multiset(s)[x] <= 1
  {
    if |s| > 0 {
      var init := s[..|s| - 1];
      assert s == init + [s[|s| - 1]];
      NoDupCount(init, x);
      if x == s[|s| - 1] {
        assert x !in init;
      }
    }
  }

  lemma DupCount<T>(s: seq<T>, i: nat, j: nat)
    requires i < j < |s| && s[i] == s[j]
    ensures multiset(s)[s[i]] >= 2
  {
    assert s == s[..j] + [s[j]] + s[j + 1..];
    assert s[..j][i] == s[i];
    assert s[i] in multiset(s[..j]);
  }

  /** Permuting a sequence without duplicates gives one without duplicates. */
  lemma NoDupPermutation<T>(a: seq<T>, b: seq<T>)
    requires NoDup(a) && multiset(a) == multiset(b)
    ensures NoDup(b)
  {
    forall i, j | 0 <= i < j < |b| ensures b[i] != b[j] {
      if b[i] == b[j] {
        DupCount(b, i, j);
        NoDupCount(a, b[i]);
      }
    }
  }

  // ---------------------------------------------------------------------------
  // The sorted listing of a set of names
  // ---------------------------------------------------------------------------

  predicate IsLeast(m: string, s: set<string>)
  {
    m in s && forall x :: x in s && x != m ==> Less(m, x)
  }

  lemma {:induction false} LeastExists(s: set<string>)
    requires s != {}
    ensures exists m :: IsLeast(m, s)
    decreases |s|
  {
    var y :| y in s;
    if s != {y} {
      var rest := s - {y};
      LeastExists(rest);
      var m :| IsLeast(m, rest);
      if Less(y, m) {
        forall x | x in s && x != y ensures Less(y, x) {
          if x != m { LessTransitive(y, m, x); }
        }
        assert IsLeast(y, s);
      } else {
        LessTotal(y, m);
        assert IsLeast(m, s);
      }
    } else {
      assert IsLeast(y, s);
    }
  }

  /** The names of `s` in ascending order. */
  ghost function SortedNames(s: set<string>): (r: seq<string>)
    ensures StrictlySorted(r)
    ensures forall x :: x in r <==> x in s
    decreases |s|
  {
    if s == {} then []
    else
      LeastExists(s);
      var m :| IsLeast(m, s);
      var t := SortedNames(s - {m});
      assert forall j :: 0 <= j < |t| ==> Less(m, t[j]) by {
        forall j | 0 <= j < |t| ensures Less(m, t[j]) {
          assert t[j] in t;
        }
      }
      [m] + t
  }

  /** The head of a strictly ascending sequence is the least of its elements. */
  lemma HeadIsLeast(r: seq<string>, s: set<string>)
    requires StrictlySorted(r) && r != []
    requires forall x :: x in r <==> x in s
    ensures IsLeast(r[0], s)
    ensures forall x :: x in r[1..] <==> x in s - {r[0]}
  {
    assert r[0] in r;
    forall x | x in s && x != r[0] ensures Less(r[0], x) {
      var k :| 0 <= k < |r| && r[k] == x;
    }
    forall x ensures x in r[1..] <==> x in s - {r[0]} {
      if x in r[1..] {
        var k :| 0 <= k < |r[1..]| && r[1..][k] == x;
        assert r[k + 1] == x;
        LessIrreflexive(r[0]);
      }
    }
  }

  lemma LeastUnique(a: string, b: string, s: set<string>)
    requires IsLeast(a, s) && IsLeast(b, s)
    ensures a == b
  {
    if a != b {
      LessAsymmetric(a, b);
    }
  }

  /** A strictly ascending sequence is determined by its set of elements. */
  lemma {:induction false} SortedNamesUnique(r: seq<string>, s: set<string>)
    requires StrictlySorted(r)
    requires forall x :: x in r <==> x in s
    ensures r == SortedNames(s)
    decreases |s|
  {
    var q := SortedNames(s);
    if s != {} {
      assert r != [] by {
        var y :| y in s;
      }
      assert q != [] by {
        var y :| y in s;
      }
      HeadIsLeast(r, s);
      HeadIsLeast(q, s);
      LeastUnique(r[0], q[0], s);
      SortedNamesUnique(r[1..], s - {r[0]});
      assert r == [r[0]] + r[1..];
    } else {
      StrictlySortedNoDup(r);
      NoDupSetSize(r, s);
    }
  }

  /** Sorting a duplicate-free listing of a set gives the set's names in ascending order. */
  lemma SortedPermutationIsListing(found: seq<string>, files: seq<string>, s: set<string>)
    requires NoDup(found) && forall x :: x in found <==> x in s
    requires Sorted(files) && multiset(files) == multiset(found)
    ensures files == SortedNames(s)
  {
    NoDupPermutation(found, files);
    SortedNoDupIsStrict(files);
    forall x ensures x in files <==> x in s {
      assert x in files <==> x in multiset(files);
      assert x in found <==> x in multiset(found);
    }
    SortedNamesUnique(files, s);
  }

  lemma StrictlySortedNoDup(s: seq<string>)
    requires StrictlySorted(s)
    ensures NoDup(s)
  {
    forall i, j | 0 <= i < j < |s| ensures s[i] != s[j] {
      LessIrreflexive(s[i]);
    }
  }

  lemma SortedNamesLength(s: set<string>)
    ensures |SortedNames(s)| == |s|
  {
    var r := SortedNames(s);
    StrictlySortedNoDup(r);
    NoDupSetSize(r, s);
  }

  lemma {:induction false} NoDupSetSize<T>(r: seq<T>, s: set<T>)
    requires NoDup(r)
    requires forall x :: x in r <==> x in s
    ensures |r| == |s|
  {
    if |r| > 0 {
      var init := r[..|r| - 1];
      var last := r[|r| - 1];
      assert r == init + [last];
      forall x ensures x in init <==> x in s - {last} {
        if x in init {
          var k :| 0 <= k < |init| && init[k] == x;
          assert r[k] == x;
        }
      }
      NoDupSetSize(init, s - {last});
    } else {
      assert s == {};
    }
  }
}
