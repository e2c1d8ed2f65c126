/**
 * The parts of java.lang.String that the preparations rely on, written out
 * over Dafny strings: startsWith, endsWith, contains, indexOf (with and
 * without a start index), replace (literal, non-overlapping, left to right,
 * all occurrences), trim, and the decimal rendering of an int used when a
 * line number is concatenated into a message.
 */
module JavaString {

  /** String.startsWith */
  predicate StartsWith(s: string, p: string) {
    |p| <= |s| && s[..|p|] == p
  }

  /** String.endsWith */
  predicate EndsWith(s: string, p: string) {
    |p| <= |s| && s[|s| - |p|..] == p
  }

  /** p occurs in s starting at index i */
  predicate OccursAt(s: string, p: string, i: int) {
    0 <= i && i + |p| <= |s| && s[i..i + |p|] == p
  }

  /** String.contains */
  predicate Contains(s: string, p: string) {
    exists i | 0 <= i <= |s| - |p| :: OccursAt(s, p, i)
  }

  /** The first occurrence of p in s at an index of at least `from`, or -1. */
  function Search(s: string, p: string, from: nat): (r: int)
    decreases |s| - from
    ensures r == -1 || (from <= r && OccursAt(s, p, r))
    ensures forall j :: from <= j && (r == -1 || j < r) ==> !OccursAt(s, p, j)
  {
    if from + |p| > |s| then -1
    else if s[from..from + |p|] == p then from
    else Search(s, p, from + 1)
  }

  /**
   * String.indexOf(p, from): a negative start counts as 0, and a start at or
   * beyond the end finds only the empty string, at the end.
   */
  function IndexOfFrom(s: string, p: string, from: int): (r: int)
    ensures r == -1 || OccursAt(s, p, r)
    ensures r != -1 && from <= |s| ==> from <= r
    ensures forall j :: from <= j && (r == -1 || j < r) ==> !OccursAt(s, p, j)
  {
    if from >= |s| then (if |p| == 0 then |s| else -1)
    else Search(s, p, if from < 0 then 0 else from)
  }

  /** String.indexOf(p): the first occurrence, or -1 exactly when there is none. */
  function IndexOf(s: string, p: string): (r: int)
    ensures r == -1 || OccursAt(s, p, r)
    ensures (r != -1) <==> Contains(s, p)
    ensures forall j :: 0 <= j && (r == -1 || j < r) ==> !OccursAt(s, p, j)
  {
    IndexOfFrom(s, p, 0)
  }

  /**
   * String.replace(target, replacement) for a non-empty target: every
   * non-overlapping occurrence of target, scanning left to right, is
   * replaced.
   */
  function Replace(s: string, target: string, replacement: string): string
    requires |target| > 0
    decreases |s|
  {
    if StartsWith(s, target) then replacement + Replace(s[|target|..], target, replacement)
    else if |s| == 0 then []
    else [s[0]] + Replace(s[1..], target, replacement)
  }

  /** Replace changes nothing in a string that does not contain the target. */
  lemma {:induction false} ReplaceAbsent(s: string, target: string, replacement: string)
    requires |target| > 0 && !Contains(s, target)
    ensures Replace(s, target, replacement) == s
    decreases |s|
  {
    if StartsWith(s, target) {
      assert OccursAt(s, target, 0);
    } else if |s| > 0 {
      forall j | 0 <= j <= |s[1..]| - |target|
        ensures !OccursAt(s[1..], target, j)
      {
        OccursInTail(s, target, j);
      }
      ReplaceAbsent(s[1..], target, replacement);
    }
  }

  /** A slice of a slice is a slice of the whole. */
  lemma SliceOfSlice(s: string, a: nat, b: nat, i: nat, j: nat)
    requires a <= b <= |s| && i <= j <= b - a
    ensures s[a..b][i..j] == s[a + i..a + j]
  {
    assert |s[a..b][i..j]| == |s[a + i..a + j]|;
    forall k | 0 <= k < j - i
      ensures s[a..b][i..j][k] == s[a + i..a + j][k]
    {
    }
  }

  /** Occurrences in s[1..] are the occurrences in s, shifted by one. */
  lemma OccursInTail(s: string, p: string, j: int)
    requires |s| > 0
    ensures OccursAt(s[1..], p, j) <==> (j >= 0 && OccursAt(s, p, j + 1))
  {
    if 0 <= j && j + |p| <= |s| - 1 {
      SliceOfSlice(s, 1, |s|, j, j + |p|);
    }
  }

  /**
   * Replace is "find the first occurrence, replace it, and continue after
   * it": the reference reading of a left-to-right, non-overlapping replace.
   */
  lemma {:induction false} ReplaceFirst(s: string, target: string, replacement: string, k: nat)
    requires |target| > 0 && OccursAt(s, target, k)
    requires forall j :: 0 <= j < k ==> !OccursAt(s, target, j)
    ensures Replace(s, target, replacement)
         == s[..k] + replacement + Replace(s[k + |target|..], target, replacement)
  {
    var b := s[k..];
    assert s == s[..k] + b;
    ReplaceAfterPlain(s[..k], b, target, replacement);
    assert b[..|target|] == s[k..k + |target|];
    assert b[|target|..] == s[k + |target|..];
  }

  /** Replace passes over a prefix in which no occurrence of the target starts. */
  lemma {:induction false} ReplaceAfterPlain(a: string, b: string, target: string, replacement: string)
    requires |target| > 0
    requires forall j :: 0 <= j < |a| ==> !OccursAt(a + b, target, j)
    ensures Replace(a + b, target, replacement) == a + Replace(b, target, replacement)
    decreases |a|
  {
    if |a| == 0 {
      assert a + b == b;
    } else {
      PlainTail(a, b, target);
      ReplaceSkips(a + b, target, replacement);
      ReplaceAfterPlain(a[1..], b, target, replacement);
      assert a == [a[0]] + a[1..];
    }
  }

  /** A prefix with no occurrence of the target still has none once its first character is dropped. */
  lemma PlainTail(a: string, b: string, target: string)
    requires |a| > 0 && |target| > 0
    requires forall j :: 0 <= j < |a| ==> !OccursAt(a + b, target, j)
    ensures !StartsWith(a + b, target) && (a + b)[1..] == a[1..] + b
    ensures forall j :: 0 <= j < |a| - 1 ==> !OccursAt(a[1..] + b, target, j)
  {
    var ab := a + b;
    assert !OccursAt(ab, target, 0);
    assert ab[1..] == a[1..] + b;
    forall j | 0 <= j < |a| - 1
      ensures !OccursAt(a[1..] + b, target, j)
    {
      OccursInTail(ab, target, j);
    }
  }

  /** Where the target does not start, Replace passes the first character over. */
  lemma ReplaceSkips(s: string, target: string, replacement: string)
    requires |target| > 0 && |s| > 0 && !StartsWith(s, target)
    ensures Replace(s, target, replacement) == [s[0]] + Replace(s[1..], target, replacement)
  {
  }


  /** Replacing by a text of the same length keeps the length. */
  lemma {:induction false} ReplaceKeepsLength(s: string, target: string, replacement: string)
    requires |target| == |replacement| > 0
    ensures |Replace(s, target, replacement)| == |s|
    decreases |s|
  {
    if StartsWith(s, target) {
      ReplaceKeepsLength(s[|target|..], target, replacement);
    } else if |s| > 0 {
      ReplaceKeepsLength(s[1..], target, replacement);
    }
  }

  /**
   * Replacing by a text at least as long as the target never shortens the
   * string, and lengthens it when the replacement is longer and the target
   * occurs.
   */
  lemma {:induction false} ReplaceGrows(s: string, target: string, replacement: string)
    requires 0 < |target| <= |replacement|
    ensures |Replace(s, target, replacement)| >= |s|
    ensures |target| < |replacement| && Contains(s, target) ==> |Replace(s, target, replacement)| > |s|
    decreases |s|
  {
    if StartsWith(s, target) {
      ReplaceGrows(s[|target|..], target, replacement);
    } else if |s| > 0 {
      ReplaceGrows(s[1..], target, replacement);
      if Contains(s, target) {
        var i :| 0 <= i <= |s| - |target| && OccursAt(s, target, i);
        assert i != 0;
        OccursInTail(s, target, i - 1);
        assert OccursAt(s[1..], target, i - 1);
      }
    }
  }

  /** A one-character string occurs exactly where that character stands. */
  lemma OccursAtChar(s: string, c: char, j: int)
    ensures OccursAt(s, [c], j) <==> 0 <= j < |s| && s[j] == c
  {
    if 0 <= j < |s| {
      assert s[j..j + 1] == [s[j]];
    }
  }

  /** An occurrence inside a slice is an occurrence in the whole string. */
  lemma ContainsOfSlice(s: string, a: nat, b: nat, p: string)
    requires a <= b <= |s| && Contains(s[a..b], p)
    ensures Contains(s, p)
  {
    var i :| 0 <= i <= |s[a..b]| - |p| && OccursAt(s[a..b], p, i);
    SliceOfSlice(s, a, b, i, i + |p|);
    assert OccursAt(s, p, a + i);
  }

  /** Containing a longer text means containing each of its parts. */
  lemma ContainsPart(s: string, pre: string, p: string, post: string)
    requires Contains(s, pre + p + post)
    ensures Contains(s, p)
  {
    var w := pre + p + post;
    var i :| 0 <= i <= |s| - |w| && OccursAt(s, w, i);
    assert w[|pre|..|pre| + |p|] == p;
    SliceOfSlice(s, i, i + |w|, |pre|, |pre| + |p|);
    assert OccursAt(s, p, i + |pre|);
  }

  /** indexOf(p, from) finds the first occurrence at or after from. */
  lemma IndexOfFromIs(s: string, p: string, from: int, k: int)
    requires 0 <= from <= k && OccursAt(s, p, k)
    requires forall j :: from <= j < k ==> !OccursAt(s, p, j)
    ensures IndexOfFrom(s, p, from) == k
  {
  }

  /** indexOf(p) finds the first occurrence. */
  lemma IndexOfIs(s: string, p: string, k: int)
    requires OccursAt(s, p, k)
    requires forall j :: 0 <= j < k ==> !OccursAt(s, p, j)
    ensures IndexOf(s, p) == k
  {
    IndexOfFromIs(s, p, 0, k);
  }

  /** Characters that String.trim removes from both ends. */
  predicate IsBlank(c: char) {
    c <= ' '
  }

  /** The first index at or after i that holds a non-blank character, or |s|. */
  function SkipBlanks(s: string, i: nat): (k: nat)
    requires i <= |s|
    decreases |s| - i
    ensures i <= k <= |s|
    ensures forall j :: i <= j < k ==> IsBlank(s[j])
    ensures k < |s| ==> !IsBlank(s[k])
  {
    if i == |s| || !IsBlank(s[i]) then i else SkipBlanks(s, i + 1)
  }

  /** The end of s[lo..hi] once trailing blanks are dropped. */
  function DropTrailingBlanks(s: string, lo: nat, hi: nat): (k: nat)
    requires lo <= hi <= |s|
    decreases hi
    ensures lo <= k <= hi
    ensures forall j :: k <= j < hi ==> IsBlank(s[j])
    ensures k > lo ==> !IsBlank(s[k - 1])
  {
    if hi == lo || !IsBlank(s[hi - 1]) then hi else DropTrailingBlanks(s, lo, hi - 1)
  }

  /**
   * String.trim: the longest slice of s that neither starts nor ends with a
   * character at or below ' ' (tabs, spaces and control characters).
   */
  function Trim(s: string): (r: string)
    ensures |r| <= |s|
    ensures r == [] || (!IsBlank(r[0]) && !IsBlank(r[|r| - 1]))
    ensures var a := SkipBlanks(s, 0);
            r == s[a..DropTrailingBlanks(s, a, |s|)]
    ensures r == [] ==> forall j :: 0 <= j < |s| ==> IsBlank(s[j])
  {
    var a := SkipBlanks(s, 0);
    s[a..DropTrailingBlanks(s, a, |s|)]
  }

  /** A string with a visible first and last character is its own trim. */
  lemma TrimUnpadded(s: string)
    requires s == [] || (!IsBlank(s[0]) && !IsBlank(s[|s| - 1]))
    ensures Trim(s) == s
  {
  }

  /** SkipBlanks stops at the first visible character after a run of blanks. */
  lemma {:induction false} SkipBlanksTo(s: string, i: nat, k: nat)
    requires i <= k < |s| && !IsBlank(s[k])
    requires forall j :: i <= j < k ==> IsBlank(s[j])
    ensures SkipBlanks(s, i) == k
    decreases k - i
  {
    if i < k {
      SkipBlanksTo(s, i + 1, k);
    }
  }

  /** Leading blanks (indentation) are what trim removes from an otherwise visible line. */
  lemma TrimIndented(pad: string, s: string)
    requires forall j :: 0 <= j < |pad| ==> IsBlank(pad[j])
    requires |s| > 0 && !IsBlank(s[0]) && !IsBlank(s[|s| - 1])
    ensures Trim(pad + s) == s
  {
    var t := pad + s;
    SkipBlanksTo(t, 0, |pad|);
    assert t[|pad|..|t|] == s;
  }

  /** The decimal digit for d */
  function Digit(d: nat): (c: char)
    requires d < 10
    ensures '0' <= c <= '9'
  {
    ['0', '1', '2', '3', '4', '5', '6', '7', '8', '9'][d]
  }

  /** Integer.toString for a non-negative value: its decimal digits. */
  function NatToString(n: nat): (r: string)
    ensures |r| > 0
    ensures forall i :: 0 <= i < |r| ==> '0' <= r[i] <= '9'
    ensures n < 10 ==> r == [Digit(n)]
    ensures r[0] == '0' <==> n == 0
  {
    if n < 10 then [Digit(n)] else NatToString(n / 10) + [Digit(n % 10)]
  }

  /** Integer.toString: a minus sign before the digits of a negative value. */
  function IntToString(n: int): (r: string)
    ensures |r| > 0
    ensures (r[0] == '-') <==> n < 0
  {
    if n < 0 then "-" + NatToString(-n) else NatToString(n)
  }

  /** The value of a decimal digit. */
  function DigitValue(c: char): (d: nat)
    requires '0' <= c <= '9'
    ensures d < 10
  {
    c as int - '0' as int
  }

  /** A string of decimal digits only. */
  predicate IsDigits(s: string) {
    forall i :: 0 <= i < |s| ==> '0' <= s[i] <= '9'
  }

  /** The value of a string of decimal digits, read most significant first. */
  function DecimalValue(s: string): nat
    requires IsDigits(s)
  {
    if s == [] then 0 else DecimalValue(s[..|s| - 1]) * 10 + DigitValue(s[|s| - 1])
  }

  /** Integer.parseInt of what Integer.toString writes: an optional minus sign and digits. */
  function DecimalIntValue(s: string): int
    requires |s| > 0
    requires s[0] == '-' ==> IsDigits(s[1..])
    requires s[0] != '-' ==> IsDigits(s)
  {
    if s[0] == '-' then -(DecimalValue(s[1..]) as int) else DecimalValue(s)
  }

  /** Every digit reads back as the value it was written for. */
  lemma DigitValueOfDigit(d: nat)
    requires d < 10
    ensures DigitValue(Digit(d)) == d
  {
    assert Digit(d) == ['0', '1', '2', '3', '4', '5', '6', '7', '8', '9'][d];
    if d < 5 {
      assert d == 0 || d == 1 || d == 2 || d == 3 || d == 4;
    } else {
      assert d == 5 || d == 6 || d == 7 || d == 8 || d == 9;
    }
  }

  /** The digits NatToString writes for n read back as n. */
  lemma {:induction false} NatToStringValue(n: nat)
    ensures DecimalValue(NatToString(n)) == n
  {
    var r := NatToString(n);
    if n < 10 {
      DigitValueOfDigit(n);
      assert r[..0] == [];
    } else {
      NatToStringValue(n / 10);
      DigitValueOfDigit(n % 10);
      assert r[..|r| - 1] == NatToString(n / 10);
    }
  }

  /** A minus sign before digits negates their value. */
  lemma SignedValue(d: string)
    requires |d| > 0 && IsDigits(d)
    ensures DecimalIntValue("-" + d) == -(DecimalValue(d) as int)
  {
    assert ("-" + d)[1..] == d;
  }

  /** IntToString writes every integer so that it reads back as itself. */
  lemma IntToStringValue(n: int)
    ensures DecimalIntValue(IntToString(n)) == n
  {
    if n < 0 {
      NatToStringValue(-n);
      SignedValue(NatToString(-n));
    } else {
      NatToStringValue(n);
    }
  }

  /** Distinct integers are written as distinct strings. */
  lemma IntToStringInjective(a: int, b: int)
    requires IntToString(a) == IntToString(b)
    ensures a == b
  {
    IntToStringValue(a);
    IntToStringValue(b);
  }
}
