/** Searching and cutting strings as JavaScript does, and decimal numerals. */
module Text {

  lemma ConcatAssociates(a: string, b: string, c: string)
    ensures a + b + c == a + (b + c)
  {}

  // ---------------------------------------------------------------- searching

  predicate OccursAt(s: string, pat: string, i: int) {
    0 <= i && i + |pat| <= |s| && s[i..i + |pat|] == pat
  }

  ghost predicate Occurs(s: string, pat: string) {
    exists i :: OccursAt(s, pat, i)
  }

  /** `s.indexOf(pat)`: the first occurrence, or -1. */
  function IndexOf(s: string, pat: string): (r: int)
    ensures -1 <= r <= |s|
    ensures r >= 0 ==> OccursAt(s, pat, r)
    ensures forall i :: OccursAt(s, pat, i) ==> 0 <= r <= i
  {
    IndexFrom(s, pat, 0)
  }

  function IndexFrom(s: string, pat: string, from: nat): (r: int)
    requires from <= |s|
    ensures r == -1 || from <= r <= |s|
    ensures r >= 0 ==> OccursAt(s, pat, r)
    ensures forall i :: from <= i && OccursAt(s, pat, i) ==> 0 <= r <= i
    decreases |s| - from
  {
    if OccursAt(s, pat, from) then from
    else if from == |s| then -1
    else IndexFrom(s, pat, from + 1)
  }

  /** `s.lastIndexOf(pat)`: the last occurrence, or -1. */
  function LastIndexOf(s: string, pat: string): (r: int)
    ensures -1 <= r <= |s|
    ensures r >= 0 ==> OccursAt(s, pat, r)
    ensures forall i :: OccursAt(s, pat, i) ==> i <= r
  {
    LastIndexBefore(s, pat, |s|)
  }

  function LastIndexBefore(s: string, pat: string, from: nat): (r: int)
    requires from <= |s|
    ensures -1 <= r <= from
    ensures r >= 0 ==> OccursAt(s, pat, r)
    ensures forall i :: i <= from && OccursAt(s, pat, i) ==> i <= r
  {
    if OccursAt(s, pat, from) then from
    else if from == 0 then -1
    else LastIndexBefore(s, pat, from - 1)
  }

  /** The first occurrence is where one is known and none comes before. */
  lemma FirstOccurrence(s: string, pat: string, i: nat)
    requires OccursAt(s, pat, i) && forall j :: 0 <= j < i ==> !OccursAt(s, pat, j)
    ensures IndexOf(s, pat) == i
  {}

  lemma OccurrenceInSuffix(a: string, b: string, pat: string, i: nat)
    requires i >= |a|
    ensures OccursAt(a + b, pat, i) <==> OccursAt(b, pat, i - |a|)
  {
    if i + |pat| <= |a + b| {
      assert (a + b)[i..i + |pat|] == b[i - |a|..i - |a| + |pat|];
    }
  }

  lemma OccurrenceInPrefix(a: string, b: string, pat: string, i: nat)
    requires i + |pat| <= |a|
    ensures OccursAt(a + b, pat, i) <==> OccursAt(a, pat, i)
  {
    assert (a + b)[i..i + |pat|] == a[i..i + |pat|];
  }

  /** If `p` does not occur in `a`, its first occurrence in a + p + b is the one after `a`,
      given that another would have to run into the character that starts it. */
  lemma FirstOccurrenceAfter(a: string, p: string, b: string)
    requires p != "" && !Occurs(a, p) && forall i :: 0 < i < |p| ==> p[i] != p[0]
    ensures IndexOf(a + (p + b), p) == |a|
  {
    var s := a + (p + b);
    OccurrenceInSuffix(a, p + b, p, |a|);
    forall j: nat | j < |a|
      ensures !OccursAt(s, p, j)
    {
      NoneAcross(a, p, b, j);
    }
    FirstOccurrence(s, p, |a|);
  }

  lemma NoneAcross(a: string, p: string, b: string, j: nat)
    requires p != "" && !Occurs(a, p) && (forall i :: 0 < i < |p| ==> p[i] != p[0]) && j < |a|
    ensures !OccursAt(a + (p + b), p, j)
  {
    var s := a + (p + b);
    if j + |p| <= |a| {
      OccurrenceInPrefix(a, p + b, p, j);
    } else if j + |p| <= |s| {
      assert s[j..j + |p|][|a| - j] == s[|a|] == p[0];
      assert p[|a| - j] != p[0];
    }
  }

  /** Appending text does not move a first occurrence. */
  lemma FirstOccurrenceStays(a: string, b: string, pat: string)
    requires IndexOf(a, pat) >= 0
    ensures IndexOf(a + b, pat) == IndexOf(a, pat)
  {
    var n := IndexOf(a, pat);
    forall i: nat | i <= n
      ensures OccursAt(a + b, pat, i) <==> OccursAt(a, pat, i)
    {
      OccurrenceInPrefix(a, b, pat, i);
    }
    FirstOccurrence(a + b, pat, n);
  }

  /** `s.substring(a, b)`: bounds are clamped to the string and swapped if out of order. */
  function Substring(s: string, a: int, b: int): string {
    var lo := Clamp(a, |s|);
    var hi := Clamp(b, |s|);
    if lo <= hi then s[lo..hi] else s[hi..lo]
  }

  function Clamp(i: int, n: nat): (r: nat)
    ensures r <= n
  {
    if i < 0 then 0 else if i > n then n else i
  }

  // ---------------------------------------------------------------- numerals

  predicate IsDigit(c: char) {
    '0' <= c <= '9'
  }

  function Digit(d: nat): (c: char)
    requires d < 10
    ensures IsDigit(c)
  {
    '0' + d as char
  }

  /** The decimal numeral of a natural number, without leading zeros. */
  function Decimal(n: nat): (s: string)
    ensures |s| > 0 && forall i :: 0 <= i < |s| ==> IsDigit(s[i])
    ensures n < 10 <==> |s| == 1
  {
    if n < 10 then [Digit(n)] else Decimal(n / 10) + [Digit(n % 10)]
  }

  lemma DigitInjective(a: nat, b: nat)
    requires a < 10 && b < 10 && Digit(a) == Digit(b)
    ensures a == b
  {}

  lemma {:induction false} DecimalInjective(a: nat, b: nat)
    requires Decimal(a) == Decimal(b)
    ensures a == b
  {
    if a >= 10 && b >= 10 {
      var x, y := Decimal(a / 10), Decimal(b / 10);
      assert Decimal(a)[..|Decimal(a)| - 1] == x && Decimal(b)[..|Decimal(b)| - 1] == y;
      assert Decimal(a)[|Decimal(a)| - 1] == Digit(a % 10) && Decimal(b)[|Decimal(b)| - 1] == Digit(b % 10);
      DecimalInjective(a / 10, b / 10);
      DigitInjective(a % 10, b % 10);
    } else {
      DigitInjective(a, b);
    }
  }

  /** A numeral is never a prefix of a smaller number's. */
  lemma {:induction false} PrefixIsNotGreater(a: nat, b: nat)
    requires Decimal(a) <= Decimal(b)
    ensures a <= b
    decreases b
  {
    if |Decimal(a)| == |Decimal(b)| {
      assert Decimal(a) == Decimal(b);
      DecimalInjective(a, b);
    } else {
      assert b >= 10;
      assert Decimal(b)[..|Decimal(b)| - 1] == Decimal(b / 10);
      assert Decimal(a) <= Decimal(b / 10);
      PrefixIsNotGreater(a, b / 10);
    }
  }

  lemma GreaterIsNotPrefix(a: nat, b: nat)
    requires a > b
    ensures !(Decimal(a) <= Decimal(b))
  {
    if Decimal(a) <= Decimal(b) {
      PrefixIsNotGreater(a, b);
    }
  }

  function IntText(n: int): string {
    if n < 0 then "-" + Decimal(-n) else Decimal(n)
  }
}
