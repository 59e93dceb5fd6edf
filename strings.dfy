/** The behaviour of Python 2 `str` operations that the normaliser relies on,
    for ASCII text in the C locale. */
module Str {

  datatype Option<T> = None | Some(value: T)

  // ---------------------------------------------------------------------------
  // strip()

  /** The characters Python 2's `str.strip()` removes: space, \t, \n, \v, \f, \r. */
  predicate IsSpace(c: char) {
    c == ' ' || ('\t' <= c <= '\r')
  }

  /** `s.lstrip()`: drops the leading whitespace. */
  function StripLeft(s: string): (r: string)
    ensures |r| <= |s|
    decreases |s|
  {
    if |s| > 0 && IsSpace(s[0]) then StripLeft(s[1..]) else s
  }

  /** `lstrip()` keeps a suffix, drops only whitespace, and leaves no whitespace in front. */
  lemma {:induction false} StripLeftShape(s: string)
    ensures var r := StripLeft(s);
      && r == s[|s| - |r|..]
      && (forall k :: 0 <= k < |s| - |r| ==> IsSpace(s[k]))
      && (r == [] || !IsSpace(r[0]))
    decreases |s|
  {
    if |s| > 0 && IsSpace(s[0]) {
      StripLeftShape(s[1..]);
      var r := StripLeft(s);
      forall k | 1 <= k < |s| - |r|
        ensures IsSpace(s[k])
      {
        assert s[k] == s[1..][k - 1];
      }
    }
  }

  /** `s.rstrip()`: drops the trailing whitespace. */
  function StripRight(s: string): (r: string)
    ensures |r| <= |s|
    decreases |s|
  {
    if |s| > 0 && IsSpace(s[|s| - 1]) then StripRight(s[..|s| - 1]) else s
  }

  /** `rstrip()` keeps a prefix, drops only whitespace, and leaves no whitespace at the end. */
  lemma {:induction false} StripRightShape(s: string)
    ensures var r := StripRight(s);
      && r == s[..|r|]
      && (forall k :: |r| <= k < |s| ==> IsSpace(s[k]))
      && (r == [] || !IsSpace(r[|r| - 1]))
    decreases |s|
  {
    if |s| > 0 && IsSpace(s[|s| - 1]) {
      StripRightShape(s[..|s| - 1]);
      var r := StripRight(s);
      forall k | |r| <= k < |s| - 1
        ensures IsSpace(s[k])
      {
        assert s[k] == s[..|s| - 1][k];
      }
    }
  }

  /** `s.strip()`. */
  function Strip(s: string): string {
    StripRight(StripLeft(s))
  }

  /** What `strip()` returns: the text that starts after the leading whitespace, at
      index `|s| - |StripLeft(s)|`, and ends before the trailing whitespace, with no
      whitespace left at either end. */
  lemma StripShape(s: string)
    ensures var r, a := Strip(s), |s| - |StripLeft(s)|;
      && (r == [] || (!IsSpace(r[0]) && !IsSpace(r[|r| - 1])))
      && 0 <= a <= |s| - |r| && r == s[a..a + |r|]
      && (forall k :: 0 <= k < a ==> IsSpace(s[k]))
      && (forall k :: a + |r| <= k < |s| ==> IsSpace(s[k]))
  {
    var l := StripLeft(s);
    var r := StripRight(l);
    assert Strip(s) == r;
    StripLeftShape(s);
    StripRightShape(l);
    InnerSlice(s, l, r);
    if r != [] {
      assert r[0] == l[0] && !IsSpace(l[0]);
    }
  }

  /** A prefix `r` of a suffix `l` of `s` is a slice of `s`; what follows `r` in `l` follows it in `s`. */
  lemma InnerSlice(s: string, l: string, r: string)
    requires |l| <= |s| && l == s[|s| - |l|..]
    requires |r| <= |l| && r == l[..|r|]
    requires forall k :: |r| <= k < |l| ==> IsSpace(l[k])
    ensures var a := |s| - |l|;
      && r == s[a..a + |r|]
      && forall k :: a + |r| <= k < |s| ==> IsSpace(s[k])
  {
    var a := |s| - |l|;
    forall k | a + |r| <= k < |s|
      ensures IsSpace(s[k])
    {
      assert s[k] == l[k - a];
    }
  }

  /** Stripping twice is stripping once. */
  lemma StripIdempotent(s: string)
    ensures Strip(Strip(s)) == Strip(s)
  {
    var r := Strip(s);
    StripShape(s);
    assert StripLeft(r) == r;
    assert StripRight(r) == r;
  }

  // ---------------------------------------------------------------------------
  // lower() and upper()

  function LowerChar(c: char): char {
    if 'A' <= c <= 'Z' then (c as int + 32) as char else c
  }

  function UpperChar(c: char): char {
    if 'a' <= c <= 'z' then (c as int - 32) as char else c
  }

  /** `s.lower()`, character by character. */
  function Lower(s: string): (r: string)
    ensures |r| == |s|
  {
    seq(|s|, i requires 0 <= i < |s| => LowerChar(s[i]))
  }

  /** `s.upper()`, character by character. */
  function Upper(s: string): (r: string)
    ensures |r| == |s|
  {
    seq(|s|, i requires 0 <= i < |s| => UpperChar(s[i]))
  }

  /** Upper-casing leaves no lower-case ASCII letter and touches nothing but letters. */
  lemma UpperShape(s: string)
    ensures forall i :: 0 <= i < |s| ==> !('a' <= Upper(s)[i] <= 'z')
    ensures forall i :: 0 <= i < |s| && !('a' <= s[i] <= 'z') ==> Upper(s)[i] == s[i]
  {
  }

  /** Upper-casing is idempotent. */
  lemma UpperIdempotent(s: string)
    ensures Upper(Upper(s)) == Upper(s)
  {
    assert forall i :: 0 <= i < |s| ==> Upper(Upper(s))[i] == Upper(s)[i];
  }

  /** Upper-casing forgets the case of its input: `"jane doe"` and `"JANE DOE"` agree. */
  lemma UpperIgnoresCase(s: string, t: string)
    requires Lower(s) == Lower(t)
    ensures Upper(s) == Upper(t)
  {
    forall i | 0 <= i < |s|
      ensures Upper(s)[i] == Upper(t)[i]
    {
      assert Lower(s)[i] == Lower(t)[i];
    }
  }

  // ---------------------------------------------------------------------------
  // find(), split() and join()

  /** `s.find(c, start)`: an index at or after `start` holding `c`, or -1; `FindFirst`
      shows it is the first. (`s.index(c, start)` is the same search raising ValueError
      instead of returning -1.) */
  function Find(s: string, c: char, start: nat): (k: int)
    ensures k == -1 || (start <= k < |s| && s[k] == c)
    decreases |s| - start
  {
    if start >= |s| then -1
    else if s[start] == c then start
    else Find(s, c, start + 1)
  }

  /** No `c` lies between `start` and the index found, nor anywhere after `start` when
      the result is -1. */
  lemma {:induction false} FindFirst(s: string, c: char, start: nat)
    ensures forall j :: start <= j < |s| && (Find(s, c, start) == -1 || j < Find(s, c, start)) ==> s[j] != c
    decreases |s| - start
  {
    if start < |s| && s[start] != c {
      FindFirst(s, c, start + 1);
    }
  }

  /** The first occurrence determines the search result. */
  lemma FindIs(s: string, c: char, start: nat, k: int)
    requires k == -1 || (start <= k < |s| && s[k] == c)
    requires forall j :: start <= j < |s| && (k == -1 || j < k) ==> s[j] != c
    ensures Find(s, c, start) == k
  {
    FindFirst(s, c, start);
  }

  /** `s.split(sep)` with a one-character separator. */
  function Split(s: string, sep: char): (parts: seq<string>)
    ensures |parts| >= 1
    ensures forall k :: 0 <= k < |parts| ==> sep !in parts[k]
    decreases |s|
  {
    var k := Find(s, sep, 0);
    FindFirst(s, sep, 0);
    if k < 0 then [s] else [s[..k]] + Split(s[k + 1..], sep)
  }

  /** `sep.join(parts)` with a one-character separator. */
  function Join(parts: seq<string>, sep: char): string {
    if |parts| == 0 then ""
    else if |parts| == 1 then parts[0]
    else parts[0] + [sep] + Join(parts[1..], sep)
  }

  /** Joining a piece in front of at least one other puts a separator after it. */
  lemma JoinFront(part: string, rest: seq<string>, sep: char)
    requires |rest| > 0
    ensures Join([part] + rest, sep) == part + [sep] + Join(rest, sep)
  {
    assert ([part] + rest)[1..] == rest;
  }

  /** A slice of a slice is a slice of the whole. */
  lemma SliceOfSlice(s: string, a: nat, b: nat, c: nat, d: nat)
    requires a <= b <= |s| && c <= d <= b - a
    ensures s[a..b][c..d] == s[a + c..a + d]
  {
    assert forall j :: 0 <= j < d - c ==> s[a..b][c..d][j] == s[a + c + j];
  }

  /** A slice of the second part of a concatenation. */
  lemma AppendSlice(a: string, b: string, lo: nat, hi: nat)
    requires lo <= hi <= |b|
    ensures (a + b)[|a| + lo..|a| + hi] == b[lo..hi]
  {
    var s := (a + b)[|a| + lo..|a| + hi];
    assert forall j :: 0 <= j < |s| ==> s[j] == b[lo + j];
  }

  /** A string cut around its character at `b`. */
  lemma SliceAround(s: string, a: nat, b: nat)
    requires a <= b < |s|
    ensures s[a..] == s[a..b] + [s[b]] + s[b + 1..]
  {
    assert s[a..] == s[a..b] + s[b..];
    assert s[b..] == [s[b]] + s[b + 1..];
  }

  /** Joining the pieces of a split gives the string back. */
  lemma {:induction false} JoinSplit(s: string, sep: char)
    ensures Join(Split(s, sep), sep) == s
    decreases |s|
  {
    var k := Find(s, sep, 0);
    if k >= 0 {
      var rest := Split(s[k + 1..], sep);
      JoinSplit(s[k + 1..], sep);
      assert Split(s, sep) == [s[..k]] + rest;
      JoinFront(s[..k], rest, sep);
      SliceAround(s, 0, k);
      assert s[0..] == s && s[0..k] == s[..k];
    }
  }

  /** Splitting a join of separator-free pieces gives the pieces back. */
  lemma {:induction false} SplitJoin(parts: seq<string>, sep: char)
    requires |parts| >= 1
    requires forall k :: 0 <= k < |parts| ==> sep !in parts[k]
    ensures Split(Join(parts, sep), sep) == parts
    decreases |parts|
  {
    var s := Join(parts, sep);
    if |parts| == 1 {
      FindIs(s, sep, 0, -1);
    } else {
      var p := parts[0];
      var rest := Join(parts[1..], sep);
      assert s == p + [sep] + rest;
      FindIs(s, sep, 0, |p|);
      assert s[..|p|] == p;
      assert s[|p| + 1..] == rest;
      SplitJoin(parts[1..], sep);
      assert parts == [p] + parts[1..];
    }
  }

  /** `xs.index(x)` on a list: the first position of `x`, or None where it raises ValueError. */
  function IndexOf<T(==)>(xs: seq<T>, x: T): (r: Option<nat>)
    ensures r.None? <==> x !in xs
    ensures r.Some? ==> r.value < |xs| && xs[r.value] == x && x !in xs[..r.value]
  {
    if |xs| == 0 then None
    else if xs[0] == x then Some(0)
    else match IndexOf(xs[1..], x)
      case None => None
      case Some(k) => assert xs[..k + 1] == [xs[0]] + xs[1..][..k]; Some(k + 1)
  }

  // ---------------------------------------------------------------------------
  // zfill()

  function Zeros(n: nat): (r: string)
    ensures |r| == n && forall i :: 0 <= i < n ==> r[i] == '0'
  {
    seq(n, _ => '0')
  }

  predicate IsSign(c: char) {
    c == '+' || c == '-'
  }

  /** `s.zfill(width)`: pads on the left with '0' up to `width`; a leading sign
      stays in front of the padding; a string already `width` long is returned as is. */
  function ZFill(s: string, width: nat): (r: string)
    ensures |r| == if |s| >= width then |s| else width
  {
    if |s| >= width then s
    else if |s| > 0 && IsSign(s[0]) then [s[0]] + Zeros(width - |s|) + s[1..]
    else Zeros(width - |s|) + s
  }

  /** What zfill does: strings at least `width` long are untouched; shorter unsigned
      strings get exactly the missing zeros in front; shorter signed strings keep the sign first. */
  lemma ZFillShape(s: string, width: nat)
    ensures |s| >= width ==> ZFill(s, width) == s
    ensures |s| < width && (|s| == 0 || !IsSign(s[0])) ==>
      ZFill(s, width) == Zeros(width - |s|) + s
    ensures |s| < width && |s| > 0 && IsSign(s[0]) ==>
      && ZFill(s, width)[0] == s[0]
      && ZFill(s, width)[1..width - |s| + 1] == Zeros(width - |s|)
      && ZFill(s, width)[width - |s| + 1..] == s[1..]
  {
  }

  /** zfill is idempotent: its result is already `width` long. */
  lemma ZFillIdempotent(s: string, width: nat)
    ensures ZFill(ZFill(s, width), width) == ZFill(s, width)
  {
  }

  // ---------------------------------------------------------------------------
  // int() and float() on plain digit strings

  predicate IsDigit(c: char) {
    '0' <= c <= '9'
  }

  predicate IsDigits(s: string) {
    forall i :: 0 <= i < |s| ==> IsDigit(s[i])
  }

  /** The decimal value of a digit string ("" counts as 0). */
  function DigitsValue(s: string): nat
    requires IsDigits(s)
    decreases |s|
  {
    if |s| == 0 then 0 else DigitsValue(s[..|s| - 1]) * 10 + (s[|s| - 1] as int - '0' as int)
  }

  /** The value of the digits after a decimal point: `FracValue("25") == 0.25`. */
  function FracValue(s: string): (r: real)
    requires IsDigits(s)
    ensures 0.0 <= r < 1.0
  {
    if |s| == 0 then 0.0 else ((s[0] as int - '0' as int) as real + FracValue(s[1..])) / 10.0
  }

  /** Leading zeros do not change a digit string's value. */
  lemma {:induction false} LeadingZerosValue(n: nat, s: string)
    requires IsDigits(s)
    ensures IsDigits(Zeros(n) + s) && DigitsValue(Zeros(n) + s) == DigitsValue(s)
    decreases |s|
  {
    var z := Zeros(n);
    assert IsDigits(z + s);
    if |s| == 0 {
      assert z + s == z;
      ZerosValue(n);
    } else {
      var init := s[..|s| - 1];
      assert (z + s)[..|z + s| - 1] == z + init;
      LeadingZerosValue(n, init);
    }
  }

  lemma {:induction false} ZerosValue(n: nat)
    ensures IsDigits(Zeros(n)) && DigitsValue(Zeros(n)) == 0
  {
    if n > 0 {
      assert Zeros(n)[..n - 1] == Zeros(n - 1);
      ZerosValue(n - 1);
    }
  }

  /** zfill keeps a digit string a digit string of the same value (a zip code stays the
      same number). */
  lemma ZFillKeepsValue(s: string, width: nat)
    requires IsDigits(s)
    ensures IsDigits(ZFill(s, width)) && DigitsValue(ZFill(s, width)) == DigitsValue(s)
  {
    if |s| < width {
      LeadingZerosValue(width - |s|, s);
    }
  }

  /** `int(s)`, restricted to non-empty strings of decimal digits. */
  function ParseInt(s: string): Option<nat> {
    if |s| > 0 && IsDigits(s) then Some(DigitsValue(s)) else None
  }

  /** `float(s)`, restricted to digits with at most one '.', at least one digit in all;
      the value is exact. */
  function ParseFloat(s: string): Option<real> {
    var p := Find(s, '.', 0);
    if p < 0 then
      if |s| > 0 && IsDigits(s) then Some(DigitsValue(s) as real) else None
    else
      var whole := s[..p];
      var frac := s[p + 1..];
      if |whole| + |frac| > 0 && IsDigits(whole) && IsDigits(frac) then
        Some(DigitsValue(whole) as real + FracValue(frac))
      else None
  }
}
