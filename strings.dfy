/**
 * String helpers shared by the models: Java's startsWith/endsWith/indexOf/contains/trim,
 * String.compareTo ordering (the order of a TreeSet of names) and decimal formatting.
 */
module Strings {
  import opened Wrappers

  predicate StartsWith(s: string, prefix: string)
  {
    |prefix| <= |s| && s[..|prefix|] == prefix
  }

  predicate EndsWith(s: string, suffix: string)
  {
    |suffix| <= |s| && s[|s| - |suffix|..] == suffix
  }

  /** `t` occurs in `s` at position `i`. */
  predicate OccursAt(s: string, t: string, i: int)
  {
    0 <= i && i + |t| <= |s| && s[i..i + |t|] == t
  }

  /** Java's s.contains(t) / s.indexOf(t) != -1. */
  predicate Contains(s: string, t: string)
  {
    exists i :: 0 <= i <= |s| - |t| && OccursAt(s, t, i)
  }

  /** The first position from `i` on where `t` occurs in `s`. */
  function FindFrom(s: string, t: string, i: nat): (r: Option<nat>)
    ensures r.None? <==> forall j :: i <= j ==> !OccursAt(s, t, j)
    ensures r.Some? ==> i <= r.value && OccursAt(s, t, r.value) &&
                        forall j :: i <= j < r.value ==> !OccursAt(s, t, j)
    decreases |s| - i
  {
    if i + |t| > |s| then None
    else if s[i..i + |t|] == t then
      assert OccursAt(s, t, i);
      Some(i)
    else FindFrom(s, t, i + 1)
  }

  /** Java's indexOf(t): the first position where `t` occurs in `s`. */
  function IndexOfString(s: string, t: string): (r: Option<nat>)
    ensures r.None? <==> !Contains(s, t)
    ensures r.Some? ==> OccursAt(s, t, r.value) && forall j :: 0 <= j < r.value ==> !OccursAt(s, t, j)
  {
    var r := FindFrom(s, t, 0);
    if r.Some? then
      assert 0 <= r.value <= |s| - |t| && OccursAt(s, t, r.value);
      r
    else r
  }

  predicate ContainsChar(s: string, c: char)
  {
    exists i :: 0 <= i < |s| && s[i] == c
  }

  /** Java's indexOf(c): the first position holding `c`. */
  function IndexOf(s: string, c: char): (r: Option<nat>)
    ensures r.None? <==> !ContainsChar(s, c)
    ensures r.Some? ==> r.value < |s| && s[r.value] == c && !ContainsChar(s[..r.value], c)
  {
    if |s| == 0 then None
    else if s[0] == c then Some(0)
    else
      var rest := IndexOf(s[1..], c);
      if rest.None? then
        assert forall i :: 1 <= i < |s| ==> s[i] == s[1..][i - 1];
        None
      else
        Some(rest.value + 1)
  }

  /** A position holding `c` with no `c` before it is what indexOf finds. */
  lemma {:induction false} IndexOfIs(s: string, c: char, i: nat)
    requires i < |s| && s[i] == c
    requires forall j :: 0 <= j < i ==> s[j] != c
    ensures IndexOf(s, c) == Some(i)
  {
    if i > 0 {
      assert forall j :: 0 <= j < i - 1 ==> s[1..][j] == s[j + 1];
      IndexOfIs(s[1..], c, i - 1);
    }
  }

  /** Java's lastIndexOf(c): the last position holding `c`. */
  function LastIndexOf(s: string, c: char): (r: Option<nat>)
    ensures r.None? <==> !ContainsChar(s, c)
    ensures r.Some? ==> r.value < |s| && s[r.value] == c && !ContainsChar(s[r.value + 1..], c)
  {
    if |s| == 0 then None
    else if s[|s| - 1] == c then Some(|s| - 1)
    else
      var rest := LastIndexOf(s[..|s| - 1], c);
      if rest.None? then
        assert forall i :: 0 <= i < |s| - 1 ==> s[i] == s[..|s| - 1][i];
        None
      else
        rest
  }

  /** Whitespace as Java's String.trim() sees it: every character up to U+0020. */
  predicate IsJavaSpace(c: char)
  {
    c <= ' '
  }

  function TrimStart(s: string): (r: string)
    ensures |r| <= |s| && s[|s| - |r|..] == r
    ensures r == [] || !IsJavaSpace(r[0])
    ensures forall i :: 0 <= i < |s| - |r| ==> IsJavaSpace(s[i])
  {
    if |s| > 0 && IsJavaSpace(s[0]) then TrimStart(s[1..]) else s
  }

  function TrimEnd(s: string): (r: string)
    ensures |r| <= |s| && s[..|r|] == r
    ensures r == [] || !IsJavaSpace(r[|r| - 1])
    ensures forall i :: |r| <= i < |s| ==> IsJavaSpace(s[i])
  {
    if |s| > 0 && IsJavaSpace(s[|s| - 1]) then TrimEnd(s[..|s| - 1]) else s
  }

  /** Java's String.trim(): leading and trailing characters up to U+0020 removed. */
  function Trim(s: string): (r: string)
    ensures |r| <= |s|
    ensures r == [] || (!IsJavaSpace(r[0]) && !IsJavaSpace(r[|r| - 1]))
  {
    TrimEnd(TrimStart(s))
  }

  /** A string that Trim leaves alone: no space-like character at either end. */
  predicate IsTrimmed(s: string)
  {
    s == [] || (!IsJavaSpace(s[0]) && !IsJavaSpace(s[|s| - 1]))
  }

  lemma TrimOfTrimmed(s: string)
    requires IsTrimmed(s)
    ensures Trim(s) == s
  {
  }

  /** trim() leaves nothing exactly when every character is space-like. */
  lemma TrimEmptyIffAllSpace(s: string)
    ensures Trim(s) == [] <==> forall i :: 0 <= i < |s| ==> IsJavaSpace(s[i])
  {
    var t := TrimStart(s);
    if Trim(s) == [] {
      assert |t| == 0;
      assert forall i :: 0 <= i < |s| ==> IsJavaSpace(s[i]);
    } else {
      var r := Trim(s);
      assert t[..|r|] == r && s[|s| - |t|..] == t;
      assert s[|s| - |t|] == r[0];
    }
  }

  /** Every occurrence of `from` replaced by `to` (Java's String.replace(char, char)). */
  function ReplaceChar(s: string, from: char, to: char): (r: string)
    ensures |r| == |s|
    ensures forall i :: 0 <= i < |s| ==> r[i] == (if s[i] == from then to else s[i])
  {
    if |s| == 0 then [] else [if s[0] == from then to else s[0]] + ReplaceChar(s[1..], from, to)
  }

  /** One character's UTF-16 code units: the character itself below U+10000, otherwise its surrogate pair. */
  function CodeUnits(c: char): (u: seq<int>)
    ensures 1 <= |u| <= 2 && (|u| == 1 <==> (c as int) < 0x1_0000)
    ensures forall k :: 0 <= k < |u| ==> 0 <= u[k] < 0x1_0000
    ensures (0xD800 <= u[0] < 0xDC00) <==> |u| == 2
  {
    if (c as int) < 0x1_0000 then [c as int]
    else [0xD800 + (c as int - 0x1_0000) / 0x400, 0xDC00 + (c as int - 0x1_0000) % 0x400]
  }

  /** A string's UTF-16 code units, as a Java or JavaScript string holds them. */
  function Utf16(s: string): seq<int>
  {
    if |s| == 0 then [] else CodeUnits(s[0]) + Utf16(s[1..])
  }

  lemma {:induction false} Utf16Append(a: string, b: string)
    ensures Utf16(a + b) == Utf16(a) + Utf16(b)
  {
    if |a| > 0 {
      assert (a + b)[0] == a[0] && (a + b)[1..] == a[1..] + b;
      Utf16Append(a[1..], b);
    } else {
      assert a + b == b;
    }
  }

  /** Different strings have different code units: a surrogate pair never looks like a single character. */
  lemma {:induction false} Utf16Injective(a: string, b: string)
    requires Utf16(a) == Utf16(b)
    ensures a == b
  {
    if |a| > 0 && |b| > 0 {
      var ua, ub := CodeUnits(a[0]), CodeUnits(b[0]);
      assert ua[0] == Utf16(a)[0] && ub[0] == Utf16(b)[0];
      assert |ua| == |ub|;
      assert ua == Utf16(a)[..|ua|] && ub == Utf16(b)[..|ub|];
      assert a[0] == b[0];
      assert Utf16(a[1..]) == Utf16(a)[|ua|..] && Utf16(b[1..]) == Utf16(b)[|ub|..];
      Utf16Injective(a[1..], b[1..]);
      assert a == [a[0]] + a[1..] && b == [b[0]] + b[1..];
    }
  }

  /** Lexicographic order on code-unit sequences, a proper prefix first. */
  predicate UnitsLess(a: seq<int>, b: seq<int>)
  {
    if |a| == 0 then |b| > 0
    else if |b| == 0 then false
    else if a[0] == b[0] then UnitsLess(a[1..], b[1..])
    else a[0] < b[0]
  }

  /**
   * Java's s1.compareTo(s2) < 0, and JavaScript's s1 < s2: lexicographic on
   * UTF-16 code units, a proper prefix first.  A character above U+FFFF
   * therefore sorts below one in U+E000..U+FFFF.
   */
  predicate Less(a: string, b: string)
  {
    UnitsLess(Utf16(a), Utf16(b))
  }

  /** U+10000 is encoded D800 DC00 and sorts below U+E000, against code-point order. */
  lemma SupplementaryBelowPrivateUse()
    ensures Less("\U{10000}", "\U{E000}")
  {
    assert Utf16("\U{10000}") == [0xD800, 0xDC00];
    assert Utf16("\U{E000}") == [0xE000];
  }

  lemma {:induction false} UnitsLessIrreflexive(a: seq<int>)
    ensures !UnitsLess(a, a)
  {
    if |a| > 0 { UnitsLessIrreflexive(a[1..]); }
  }

  lemma {:induction false} UnitsLessTransitive(a: seq<int>, b: seq<int>, c: seq<int>)
    requires UnitsLess(a, b) && UnitsLess(b, c)
    ensures UnitsLess(a, c)
  {
    if |a| > 0 && |b| > 0 && |c| > 0 && a[0] == b[0] && b[0] == c[0] {
      UnitsLessTransitive(a[1..], b[1..], c[1..]);
    }
  }

  lemma {:induction false} UnitsLessTotal(a: seq<int>, b: seq<int>)
    ensures a == b || UnitsLess(a, b) || UnitsLess(b, a)
  {
    if |a| > 0 && |b| > 0 && a[0] == b[0] {
      UnitsLessTotal(a[1..], b[1..]);
      if a[1..] == b[1..] {
        assert a == [a[0]] + a[1..] && b == [b[0]] + b[1..];
      }
    }
  }

  /** A common start does not decide the order. */
  lemma {:induction false} UnitsLessDropPrefix(p: seq<int>, x: seq<int>, y: seq<int>)
    requires UnitsLess(p + x, p + y)
    ensures UnitsLess(x, y)
  {
    if |p| > 0 {
      assert (p + x)[1..] == p[1..] + x && (p + y)[1..] == p[1..] + y;
      UnitsLessDropPrefix(p[1..], x, y);
    } else {
      assert p + x == x && p + y == y;
    }
  }

  lemma LessIrreflexive(a: string)
    ensures !Less(a, a)
  {
    UnitsLessIrreflexive(Utf16(a));
  }

  lemma LessTransitive(a: string, b: string, c: string)
    requires Less(a, b) && Less(b, c)
    ensures Less(a, c)
  {
    UnitsLessTransitive(Utf16(a), Utf16(b), Utf16(c));
  }

  lemma LessTotal(a: string, b: string)
    ensures a == b || Less(a, b) || Less(b, a)
  {
    UnitsLessTotal(Utf16(a), Utf16(b));
    if Utf16(a) == Utf16(b) { Utf16Injective(a, b); }
  }

  /** Strings with a common start compare as their remainders do. */
  lemma LessDropPrefix(p: string, x: string, y: string)
    requires Less(p + x, p + y)
    ensures Less(x, y)
  {
    Utf16Append(p, x);
    Utf16Append(p, y);
    UnitsLessDropPrefix(Utf16(p), Utf16(x), Utf16(y));
  }

  /** `m` is the least element of `s` in the compareTo order (TreeSet.first()). */
  predicate IsLeast(m: string, s: set<string>)
  {
    m in s && forall x :: x in s ==> !Less(x, m)
  }

  lemma LeastIsUnique(m1: string, m2: string, s: set<string>)
    requires IsLeast(m1, s) && IsLeast(m2, s)
    ensures m1 == m2
  {
    LessTotal(m1, m2);
  }

  /** Finds the least name of a non-empty set, as TreeSet.first() does. */
  method Least(s: set<string>) returns (m: string)
    requires s != {}
    ensures IsLeast(m, s)
  {
    m :| m in s;
    var rest := s - {m};
    LessIrreflexive(m);
    while rest != {}
      invariant m in s && rest <= s
      invariant forall x :: x in s - rest ==> !Less(x, m)
      decreases |rest|
    {
      var x :| x in rest;
      if Less(x, m) {
        forall y | y in s - rest
          ensures !Less(y, x)
        {
          if Less(y, x) { LessTransitive(y, x, m); }
        }
        LessIrreflexive(x);
        m := x;
      }
      rest := rest - {x};
    }
  }

  /** `r` lists its elements in strictly increasing compareTo order. */
  predicate StrictlySorted(r: seq<string>)
  {
    forall i, j :: 0 <= i < j < |r| ==> Less(r[i], r[j])
  }

  /** The elements of a set in increasing order, as iterating a TreeSet yields them. */
  method SortedElements(s: set<string>) returns (r: seq<string>)
    ensures (set x | x in r) == s
    ensures |r| == |s|
    ensures StrictlySorted(r)
  {
    r := [];
    var rest := s;
    while rest != {}
      invariant SortedSoFar(s, r, rest)
      decreases |rest|
    {
      var m := Least(rest);
      SortedSoFarStep(s, r, rest, m);
      r := r + [m];
      rest := rest - {m};
    }
  }

  /** The selection sort's state: `r` holds the elements of `s` not in `rest`, in order, and
    * each of them is below everything left. */
  ghost predicate SortedSoFar(s: set<string>, r: seq<string>, rest: set<string>)
  {
    rest <= s && (set x | x in r) == s - rest && |r| + |rest| == |s| && StrictlySorted(r) &&
    forall i, y :: 0 <= i < |r| && y in rest ==> Less(r[i], y)
  }

  lemma SortedSoFarStep(s: set<string>, r: seq<string>, rest: set<string>, m: string)
    requires SortedSoFar(s, r, rest) && IsLeast(m, rest)
    ensures SortedSoFar(s, r + [m], rest - {m})
  {
    LeastBelowRest(m, rest);
    var r' := r + [m];
    forall i, j | 0 <= i < j < |r'|
      ensures Less(r'[i], r'[j])
    {
      if j == |r| {
        assert r'[i] == r[i] && r'[j] == m && m in rest;
      } else {
        assert r'[i] == r[i] && r'[j] == r[j];
      }
    }
    forall i, y | 0 <= i < |r'| && y in rest - {m}
      ensures Less(r'[i], y)
    {
      if i < |r| {
        assert r'[i] == r[i];
      }
    }
    assert (set x | x in r') == (set x | x in r) + {m};
  }

  lemma LeastBelowRest(m: string, rest: set<string>)
    requires IsLeast(m, rest)
    ensures forall y :: y in rest - {m} ==> Less(m, y)
  {
    forall y | y in rest - {m}
      ensures Less(m, y)
    {
      LessTotal(m, y);
    }
  }

  function DigitChar(d: nat): (c: char)
    requires d < 10
    ensures '0' <= c <= '9'
  {
    ['0', '1', '2', '3', '4', '5', '6', '7', '8', '9'][d]
  }

  /** Integer.toString for a non-negative int: decimal digits, no leading zeros. */
  function NatToString(n: nat): (r: string)
    ensures |r| >= 1
    ensures forall i :: 0 <= i < |r| ==> '0' <= r[i] <= '9'
    ensures n < 10 <==> |r| == 1
    decreases n
  {
    if n < 10 then [DigitChar(n)] else NatToString(n / 10) + [DigitChar(n % 10)]
  }

  /** Integer.toString: a minus sign before the digits of a negative number. */
  function IntToString(i: int): (r: string)
    ensures |r| >= 1
    ensures r[0] == '-' <==> i < 0
    ensures i < 0 ==> r[1..] == NatToString(-i)
    ensures i >= 0 ==> r == NatToString(i)
  {
    if i < 0 then "-" + NatToString(-i) else NatToString(i)
  }

  lemma IntToStringInjective(a: int, b: int)
    requires IntToString(a) == IntToString(b)
    ensures a == b
  {
    var s := IntToString(a);
    if a < 0 {
      assert b < 0 && NatToString(-a) == s[1..] == NatToString(-b);
      NatToStringInjective(-a, -b);
    } else {
      assert b >= 0 && NatToString(a) == s == NatToString(b);
      NatToStringInjective(a, b);
    }
  }

  lemma {:induction false} DigitCharInjective(a: nat, b: nat)
    requires a < 10 && b < 10 && DigitChar(a) == DigitChar(b)
    ensures a == b
  {
  }

  lemma {:induction false} NatToStringInjective(a: nat, b: nat)
    requires NatToString(a) == NatToString(b)
    ensures a == b
    decreases a
  {
    var sa, sb := NatToString(a), NatToString(b);
    if a < 10 && b < 10 {
      DigitCharInjective(a, b);
    } else if a >= 10 && b >= 10 {
      assert sa[|sa| - 1] == DigitChar(a % 10) && sb[|sb| - 1] == DigitChar(b % 10);
      DigitCharInjective(a % 10, b % 10);
      assert sa[..|sa| - 1] == NatToString(a / 10) && sb[..|sb| - 1] == NatToString(b / 10);
      NatToStringInjective(a / 10, b / 10);
    }
  }
}
