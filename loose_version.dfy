/**
  The version order used to compare svn tag names: `LooseVersion(a) > LooseVersion(b)`
  from Python 2's distutils, restricted to strings made only of ASCII digits and dots.
  On such a string LooseVersion keeps every maximal run of digits as a number and drops
  the dots, and two versions compare as Python compares the two lists of numbers:
  element by element, a list that runs out first being the smaller one.
  So "1.10" is newer than "1.9", "1.2.0" is newer than "1.2", and "1.02" equals "1.2".
*/
module LooseVersion {

  predicate IsDigit(c: char) {
    '0' as int <= c as int <= '9' as int
  }

  /** Every character is an ASCII digit or a dot. */
  predicate DigitsAndDots(s: string) {
    forall i :: 0 <= i < |s| ==> IsDigit(s[i]) || s[i] == '.'
  }

  /** The tag filter `^[\.\d]+$`: a non-empty string of digits and dots. */
  predicate IsDottedTag(s: string) {
    |s| > 0 && DigitsAndDots(s)
  }

  /** The decimal value of a string of digits. */
  function DigitsValue(d: string): nat
    requires forall i :: 0 <= i < |d| ==> IsDigit(d[i])
  {
    if d == [] then 0
    else
      assert IsDigit(d[|d| - 1]);
      10 * DigitsValue(d[..|d| - 1]) + (d[|d| - 1] as int - '0' as int)
  }

  /** The length of the run of digits that `s` starts with. */
  function LeadingDigits(s: string): (n: nat)
    ensures n <= |s|
    ensures forall i :: 0 <= i < n ==> IsDigit(s[i])
    ensures n == |s| || !IsDigit(s[n])
  {
    if s == [] || !IsDigit(s[0]) then 0 else 1 + LeadingDigits(s[1..])
  }

  /** LooseVersion's component list of a string of digits and dots. */
  function Components(s: string): seq<nat>
    requires DigitsAndDots(s)
    decreases |s|
  {
    if s == [] then []
    else if s[0] == '.' then Components(s[1..])
    else
      var n := LeadingDigits(s);
      [DigitsValue(s[..n])] + Components(s[n..])
  }

  /** Python 2's `a < b` on two lists of numbers. */
  predicate Less(a: seq<nat>, b: seq<nat>)
    decreases |a|
  {
    |b| > 0 && (|a| == 0 || a[0] < b[0] || (a[0] == b[0] && Less(a[1..], b[1..])))
  }

  /** `LooseVersion(a) > LooseVersion(b)` for two strings of digits and dots. */
  predicate Newer(a: string, b: string)
    requires DigitsAndDots(a) && DigitsAndDots(b)
  {
    Less(Components(b), Components(a))
  }

  /** `a` is a proper prefix of `b`, or the lists first differ at an index where `a` is smaller. */
  ghost predicate PrefixOrSmallerAtFirstDifference(a: seq<nat>, b: seq<nat>) {
    (|a| < |b| && a == b[..|a|])
    || exists i :: 0 <= i < |a| && i < |b| && a[..i] == b[..i] && a[i] < b[i]
  }

  /** The recursive comparison is the usual lexicographic order, stated without recursion. */
  lemma LessIsLexicographic(a: seq<nat>, b: seq<nat>)
    ensures Less(a, b) <==> PrefixOrSmallerAtFirstDifference(a, b)
  {
    if Less(a, b) {
      LessHasFirstDifference(a, b);
    }
    if PrefixOrSmallerAtFirstDifference(a, b) {
      FirstDifferenceGivesLess(a, b);
    }
  }

  lemma {:induction false} LessHasFirstDifference(a: seq<nat>, b: seq<nat>)
    requires Less(a, b)
    ensures PrefixOrSmallerAtFirstDifference(a, b)
    decreases |a|
  {
    if |a| > 0 && a[0] == b[0] {
      LessHasFirstDifference(a[1..], b[1..]);
      if |a| - 1 < |b| - 1 && a[1..] == b[1..][..|a| - 1] {
        assert a == [a[0]] + a[1..] && b[..|a|] == [b[0]] + b[1..][..|a| - 1];
      } else {
        var i :| 0 <= i < |a| - 1 && i < |b| - 1 && a[1..][..i] == b[1..][..i] && a[1..][i] < b[1..][i];
        assert a[..i + 1] == [a[0]] + a[1..][..i] && b[..i + 1] == [b[0]] + b[1..][..i];
        assert a[i + 1] < b[i + 1];
      }
    } else if |a| > 0 {
      assert a[..0] == b[..0];
    }
  }

  lemma {:induction false} FirstDifferenceGivesLess(a: seq<nat>, b: seq<nat>)
    requires PrefixOrSmallerAtFirstDifference(a, b)
    ensures Less(a, b)
    decreases |a|
  {
    if |a| > 0 && !(a[0] < b[0]) {
      if |a| < |b| && a == b[..|a|] {
        assert a[0] == b[0];
        assert a[1..] == b[1..][..|a| - 1];
        FirstDifferenceGivesLess(a[1..], b[1..]);
      } else {
        var i :| 0 <= i < |a| && i < |b| && a[..i] == b[..i] && a[i] < b[i];
        assert i != 0;
        assert a[0] == a[..i][0] == b[..i][0] == b[0];
        assert a[1..][..i - 1] == a[..i][1..] == b[..i][1..] == b[1..][..i - 1];
        assert a[1..][i - 1] < b[1..][i - 1];
        FirstDifferenceGivesLess(a[1..], b[1..]);
      }
    }
  }

  lemma {:induction false} LessIrreflexive(a: seq<nat>)
    ensures !Less(a, a)
    decreases |a|
  {
    if |a| > 0 {
      LessIrreflexive(a[1..]);
    }
  }

  lemma {:induction false} LessTransitive(a: seq<nat>, b: seq<nat>, c: seq<nat>)
    requires Less(a, b) && Less(b, c)
    ensures Less(a, c)
    decreases |a|
  {
    if |a| > 0 && a[0] == b[0] && b[0] == c[0] {
      LessTransitive(a[1..], b[1..], c[1..]);
    }
  }

  /** Any two component lists are equal or ordered one way or the other. */
  lemma {:induction false} LessTotal(a: seq<nat>, b: seq<nat>)
    ensures a == b || Less(a, b) || Less(b, a)
    decreases |a|
  {
    if |a| > 0 && |b| > 0 && a[0] == b[0] {
      LessTotal(a[1..], b[1..]);
      if a[1..] == b[1..] {
        assert a == [a[0]] + a[1..] && b == [b[0]] + b[1..];
      }
    }
  }

  /** "Not newer" is transitive: the order's non-strict companion. */
  lemma NotLessTransitive(a: seq<nat>, b: seq<nat>, c: seq<nat>)
    requires !Less(b, a) && !Less(c, b)
    ensures !Less(c, a)
  {
    LessTotal(a, b);
    if Less(c, a) && Less(a, b) {
      LessTransitive(c, a, b);
    }
  }

  /** A strict step followed by a non-strict one is strict. */
  lemma LessThenNotLess(a: seq<nat>, b: seq<nat>, c: seq<nat>)
    requires Less(a, b) && !Less(c, b)
    ensures Less(a, c)
  {
    LessTotal(b, c);
    if b != c {
      LessTransitive(a, b, c);
    }
  }

  /** A non-strict step followed by a strict one is strict. */
  lemma NotLessThenLess(a: seq<nat>, b: seq<nat>, c: seq<nat>)
    requires !Less(b, a) && Less(b, c)
    ensures Less(a, c)
  {
    LessTotal(a, b);
    if a != b {
      LessTransitive(a, b, c);
    }
  }

  /** Two versions are never each newer than the other. */
  lemma NewerAsymmetric(a: string, b: string)
    requires DigitsAndDots(a) && DigitsAndDots(b)
    ensures !(Newer(a, b) && Newer(b, a))
  {
    if Newer(a, b) && Newer(b, a) {
      LessTransitive(Components(a), Components(b), Components(a));
      LessIrreflexive(Components(a));
    }
  }

  /** The start value of the newest-tag search, "0.0", has components [0, 0]. */
  lemma ZeroComponents()
    ensures Components("0.0") == [0, 0]
  {
    assert LeadingDigits("0") == 1;
    assert LeadingDigits("0.0") == 1;
    assert Components("0") == [0] + Components("") by {
      assert "0"[..1] == "0" && "0"[1..] == "";
    }
    assert Components("0.0") == [0] + Components(".0") by {
      assert "0.0"[..1] == "0" && "0.0"[1..] == ".0";
    }
  }

  /** Components of a single run of digits followed by the rest of the string. */
  lemma {:induction false} ComponentsOfRun(d: string, rest: string)
    requires |d| > 0 && forall i :: 0 <= i < |d| ==> IsDigit(d[i])
    requires DigitsAndDots(rest) && (rest == [] || rest[0] == '.')
    ensures DigitsAndDots(d + rest)
    ensures Components(d + rest) == [DigitsValue(d)] + Components(rest)
  {
    var s := d + rest;
    assert DigitsAndDots(s) by {
      forall i | 0 <= i < |s| ensures IsDigit(s[i]) || s[i] == '.' {
        if i >= |d| { assert s[i] == rest[i - |d|]; }
      }
    }
    RunLength(d, rest);
    assert s[..|d|] == d && s[|d|..] == rest;
  }

  /**
    Components split at the dots: joining two digit-and-dot strings with a dot joins
    their component lists. With `ComponentsOfRun` this says that a string's components
    are its dot-separated pieces, empty pieces dropped, each read as a decimal number.
  */
  lemma {:induction false} ComponentsOfJoin(a: string, b: string)
    requires DigitsAndDots(a) && DigitsAndDots(b)
    ensures DigitsAndDots(a + "." + b)
    ensures Components(a + "." + b) == Components(a) + Components(b)
    decreases |a|
  {
    var s := a + "." + b;
    JoinIsDotted(a, b);
    if a == [] {
      assert s[1..] == b;
    } else if a[0] == '.' {
      assert s[1..] == a[1..] + "." + b;
      ComponentsOfJoin(a[1..], b);
    } else {
      var n := LeadingDigits(a);
      SuffixIsDotted(a, n);
      ComponentsOfJoin(a[n..], b);
      var rest := a[n..] + "." + b;
      assert rest[0] == '.' by {
        if n < |a| { assert !IsDigit(a[n]); }
      }
      assert a[..n] + rest == s;
      RunLength(a[..n], rest);
      assert s[..n] == a[..n] && s[n..] == rest;
    }
  }

  lemma JoinIsDotted(a: string, b: string)
    requires DigitsAndDots(a) && DigitsAndDots(b)
    ensures DigitsAndDots(a + "." + b)
  {
    var s := a + "." + b;
    forall i | 0 <= i < |s| ensures IsDigit(s[i]) || s[i] == '.' {
      if i > |a| { assert s[i] == b[i - |a| - 1]; }
    }
  }

  lemma SuffixIsDotted(a: string, n: nat)
    requires DigitsAndDots(a) && n <= |a|
    ensures DigitsAndDots(a[n..])
  {
    forall i | 0 <= i < |a| - n ensures IsDigit(a[n..][i]) || a[n..][i] == '.' {
      assert a[n..][i] == a[n + i];
    }
  }

  lemma {:induction false} RunLength(d: string, rest: string)
    requires forall i :: 0 <= i < |d| ==> IsDigit(d[i])
    requires rest == [] || rest[0] == '.'
    ensures LeadingDigits(d + rest) == |d|
    decreases |d|
  {
    if d != [] {
      assert (d + rest)[1..] == d[1..] + rest;
      RunLength(d[1..], rest);
    }
  }

  /** Components are compared as numbers, not as text: "1.10" is newer than "1.9". */
  lemma NumericOrderExample()
    ensures Newer("1.10", "1.9") && !Newer("1.9", "1.10")
  {
    ComponentsOneTen();
    ComponentsOneNine();
    assert Less([1, 9], [1, 10]) by {
      assert [1, 9][1..] == [9] && [1, 10][1..] == [10];
    }
    assert !Less([1, 10], [1, 9]) by {
      assert [1, 9][1..] == [9] && [1, 10][1..] == [10];
    }
  }

  lemma ComponentsOneTen()
    ensures Components("1.10") == [1, 10]
  {
    assert DigitsValue("10") == 10 by {
      assert "10"[..1] == "1" && "1"[..0] == "";
    }
    ComponentsOfRun("10", "");
    assert Components(".10") == [10];
    ComponentsOfRun("1", ".10");
    assert "1" + ".10" == "1.10";
  }

  lemma ComponentsOneNine()
    ensures Components("1.9") == [1, 9]
  {
    ComponentsOfRun("9", "");
    assert Components(".9") == [9];
    ComponentsOfRun("1", ".9");
    assert "1" + ".9" == "1.9";
  }

  /** A version that extends another is newer: "1.2.0" is newer than "1.2". */
  lemma LongerOrderExample()
    ensures Newer("1.2.0", "1.2") && !Newer("1.2", "1.2.0")
  {
    ComponentsOneTwo();
    ComponentsOneTwoZero();
    assert Less([1, 2], [1, 2, 0]) by {
      assert [1, 2][1..] == [2] && [1, 2, 0][1..] == [2, 0];
      assert [2][1..] == [] && [2, 0][1..] == [0];
    }
    assert !Less([1, 2, 0], [1, 2]) by {
      assert [1, 2][1..] == [2] && [1, 2, 0][1..] == [2, 0];
      assert [2][1..] == [] && [2, 0][1..] == [0];
    }
  }

  lemma ComponentsOneTwo()
    ensures Components("1.2") == [1, 2]
  {
    ComponentsOfRun("2", "");
    assert Components(".2") == [2];
    ComponentsOfRun("1", ".2");
    assert "1" + ".2" == "1.2";
  }

  lemma ComponentsOneTwoZero()
    ensures Components("1.2.0") == [1, 2, 0]
  {
    ComponentsOfRun("1", "");
    ComponentsTwoZero();
    ComponentsOfJoin("1", "2.0");
    assert "1" + "." + "2.0" == "1.2.0";
  }

  lemma ComponentsTwoZero()
    ensures Components("2.0") == [2, 0]
  {
    ComponentsOfRun("0", "");
    assert Components(".0") == [0];
    ComponentsOfRun("2", ".0");
    assert "2" + ".0" == "2.0";
  }

  /** Leading zeros do not count: "1.02" and "1.2" have the same components. */
  lemma LeadingZeroIgnored()
    ensures Components("1.02") == Components("1.2") == [1, 2]
  {
    ZeroTwoIsTwo();
    ComponentsOfRun("1", "");
    ComponentsOfJoin("1", "02");
    assert "1" + "." + "02" == "1.02";
    ComponentsOneTwo();
  }

  lemma ZeroTwoIsTwo()
    ensures Components("02") == [2]
  {
    assert DigitsValue("02") == 2 by {
      assert "02"[..1] == "0" && "0"[..0] == "";
    }
    ComponentsOfRun("02", "");
    assert "02" + "" == "02";
  }
}
