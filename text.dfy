/** String helpers the form relies on: JavaScript's `String.prototype.trim`,
    and the decimal rendering of an array index inside a template literal. */
module Text {

  /** ECMAScript WhiteSpace and LineTerminator code points (ECMA-262,
      sections 12.2 and 12.3): the characters `trim` removes. */
  predicate IsWhitespace(c: char) {
    || c == '\t' || c == '\n' || c == '\U{000B}' || c == '\U{000C}' || c == '\r'
    || c == ' ' || c == '\U{00A0}' || c == '\U{1680}'
    || ('\U{2000}' <= c <= '\U{200A}')
    || c == '\U{2028}' || c == '\U{2029}' || c == '\U{202F}' || c == '\U{205F}'
    || c == '\U{3000}' || c == '\U{FEFF}'
  }

  /** Drops the leading whitespace of `s`. */
  function TrimStart(s: string): (r: string)
    ensures |r| <= |s| && r == s[|s| - |r|..]
    ensures forall i :: 0 <= i < |s| - |r| ==> IsWhitespace(s[i])
    ensures r != [] ==> !IsWhitespace(r[0])
  {
    if s != [] && IsWhitespace(s[0]) then TrimStart(s[1..]) else s
  }

  /** Drops the trailing whitespace of `s`. */
  function TrimEnd(s: string): (r: string)
    ensures |r| <= |s| && r == s[..|r|]
    ensures forall i :: |r| <= i < |s| ==> IsWhitespace(s[i])
    ensures r != [] ==> !IsWhitespace(r[|r| - 1])
  {
    if s != [] && IsWhitespace(s[|s| - 1]) then TrimEnd(s[..|s| - 1]) else s
  }

  /** `s.trim()`: what is left neither starts nor ends with whitespace. */
  function Trim(s: string): (r: string)
    ensures |r| <= |s|
    ensures r != [] ==> !IsWhitespace(r[0]) && !IsWhitespace(r[|r| - 1])
  {
    var t := TrimStart(s);
    var r := TrimEnd(t);
    assert r != [] ==> t[0] == r[0];
    r
  }

  /** Every character of `s` is whitespace. By `TrimEmptyIffBlank` this is
      `!s.trim()`: the trimmed string is empty, hence falsy. */
  predicate Blank(s: string) {
    forall i :: 0 <= i < |s| ==> IsWhitespace(s[i])
  }

  /** Trimming leaves nothing exactly when every character is whitespace. */
  lemma TrimEmptyIffBlank(s: string)
    ensures Trim(s) == "" <==> Blank(s)
  {
    var t := TrimStart(s);
    if Trim(s) != "" {
      var r := Trim(s);
      assert t[0] == r[0];
      assert s[|s| - |t|] == t[0];
    }
  }

  /** `TrimStart` cuts off a whitespace prefix. */
  lemma TrimStartSplit(s: string)
    ensures s == s[..|s| - |TrimStart(s)|] + TrimStart(s)
    ensures Blank(s[..|s| - |TrimStart(s)|])
  {
  }

  /** `TrimEnd` cuts off a whitespace suffix. */
  lemma TrimEndSplit(t: string)
    ensures t == TrimEnd(t) + t[|TrimEnd(t)|..]
    ensures Blank(t[|TrimEnd(t)|..])
  {
    var n := |TrimEnd(t)|;
    forall i | 0 <= i < |t| - n ensures IsWhitespace(t[n..][i]) {
      assert t[n..][i] == t[n + i];
    }
  }

  /** A string made of a whitespace prefix, a middle and a whitespace suffix
      holds the middle at some place, with only whitespace around it. */
  lemma PaddedInfix(s: string, prefix: string, middle: string, suffix: string)
    requires s == prefix + (middle + suffix)
    requires Blank(prefix) && Blank(suffix)
    ensures exists lo, hi :: 0 <= lo <= hi <= |s| && middle == s[lo..hi] && Blank(s[..lo]) && Blank(s[hi..])
  {
    var lo, hi := |prefix|, |prefix| + |middle|;
    assert s[..lo] == prefix;
    assert s[lo..hi] == middle;
    assert s[hi..] == suffix;
  }

  /** Trimming keeps a contiguous piece of `s` and removes only whitespace
      on either side of it. */
  lemma TrimIsInfix(s: string)
    ensures exists lo, hi :: 0 <= lo <= hi <= |s| && Trim(s) == s[lo..hi] && Blank(s[..lo]) && Blank(s[hi..])
  {
    var t := TrimStart(s);
    var r := TrimEnd(t);
    var prefix, suffix := s[..|s| - |t|], t[|r|..];
    TrimStartSplit(s);
    TrimEndSplit(t);
    assert Trim(s) == r;
    PaddedInfix(s, prefix, r, suffix);
  }

  predicate IsDigit(c: char) {
    '0' <= c <= '9'
  }

  predicate AllDigits(s: string) {
    forall i :: 0 <= i < |s| ==> IsDigit(s[i])
  }

  function DigitChar(d: nat): (c: char)
    requires d < 10
    ensures IsDigit(c)
  {
    '0' + d as char
  }

  function DigitValue(c: char): (d: nat)
    requires IsDigit(c)
    ensures d < 10 && DigitChar(d) == c
  {
    (c - '0') as nat
  }

  /** `${n}` for a non-negative integer index: its decimal digits, no leading zero. */
  function Decimal(n: nat): (r: string)
    ensures |r| >= 1 && AllDigits(r)
    ensures r[0] == '0' ==> n == 0
  {
    if n < 10 then [DigitChar(n)] else Decimal(n / 10) + [DigitChar(n % 10)]
  }

  /** Reads a string of decimal digits as a number. */
  function DecimalValue(s: string): nat
    requires AllDigits(s)
  {
    if s == [] then 0 else DecimalValue(s[..|s| - 1]) * 10 + DigitValue(s[|s| - 1])
  }

  /** Reading back the rendering of `n` gives `n`. */
  lemma {:induction false} DecimalRoundTrip(n: nat)
    ensures DecimalValue(Decimal(n)) == n
  {
    var r := Decimal(n);
    if n < 10 {
      assert r[..0] == [];
    } else {
      DecimalRoundTrip(n / 10);
      assert r[..|r| - 1] == Decimal(n / 10);
    }
  }

  /** Two different indexes never render to the same digits. */
  lemma DecimalInjective(m: nat, n: nat)
    requires Decimal(m) == Decimal(n)
    ensures m == n
  {
    DecimalRoundTrip(m);
    DecimalRoundTrip(n);
  }

  /** The digits of `d` are exactly the leading run of digits of `d + t`. */
  lemma DigitRun(d: string, t: string)
    requires AllDigits(d)
    requires t == [] || !IsDigit(t[0])
    ensures forall k :: 0 <= k < |d| ==> IsDigit((d + t)[k])
    ensures |d| < |d + t| ==> !IsDigit((d + t)[|d|])
  {
  }

  /** A string made of a run of digits followed by a tail that does not start
      with a digit splits at one place only. */
  lemma SplitAfterDigits(d1: string, t1: string, d2: string, t2: string)
    requires AllDigits(d1) && AllDigits(d2)
    requires t1 == [] || !IsDigit(t1[0])
    requires t2 == [] || !IsDigit(t2[0])
    requires d1 + t1 == d2 + t2
    ensures d1 == d2 && t1 == t2
  {
    var s := d1 + t1;
    DigitRun(d1, t1);
    DigitRun(d2, t2);
    if |d1| < |d2| {
      assert false;
    } else if |d2| < |d1| {
      assert false;
    }
    assert d1 == s[..|d1|] == d2;
    assert t1 == s[|d1|..] == t2;
  }
}
