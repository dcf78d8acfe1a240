/**
 * The few pieces of Python 2 string behaviour the stepper client relies on:
 * slices that clip at the end of the string, `endswith`, `int()` of a
 * string (with the whitespace it skips, written as `lstrip`/`rstrip`) and
 * the `'%010d'` format.
 */
module PyText {
  import opened Wrappers
  import opened Decimal

  /** `s[:n]` for n >= 0: the first n characters, or all of s when it is shorter. */
  function SliceTo(s: string, n: nat): (r: string)
    ensures |r| == if n <= |s| then n else |s|
    ensures r <= s
  {
    if n <= |s| then s[..n] else s
  }

  /** `s[n:]` for n >= 0: what follows the first n characters, or "" when s is shorter. */
  function SliceFrom(s: string, n: nat): (r: string)
    ensures SliceTo(s, n) + r == s
  {
    if n <= |s| then s[n..] else ""
  }

  /** `s.endswith(suffix)`. */
  predicate EndsWith(s: string, suffix: string) {
    |suffix| <= |s| && s[|s| - |suffix|..] == suffix
  }

  /** The characters Python 2's `str.strip()` removes. */
  predicate IsSpace(c: char) {
    c == ' ' || c == '\t' || c == '\n' || c == '\r' || c == 11 as char || c == 12 as char
  }

  predicate AllSpace(s: string) {
    forall i :: 0 <= i < |s| ==> IsSpace(s[i])
  }

  /** `s.lstrip()`: the suffix of s left once its leading whitespace is dropped. */
  function TrimLeft(s: string): (r: string)
    ensures |r| <= |s| && r == s[|s| - |r|..]
    ensures AllSpace(s[..|s| - |r|])
    ensures r == [] || !IsSpace(r[0])
    decreases |s|
  {
    if |s| > 0 && IsSpace(s[0]) then
      var r := TrimLeft(s[1..]);
      assert s[..|s| - |r|] == [s[0]] + s[1..][..|s| - 1 - |r|];
      r
    else s
  }

  /** `s.rstrip()`: the prefix of s left once its trailing whitespace is dropped. */
  function TrimRight(s: string): (r: string)
    ensures |r| <= |s| && r == s[..|r|]
    ensures AllSpace(s[|r|..])
    ensures r == [] || !IsSpace(r[|r| - 1])
    decreases |s|
  {
    if |s| > 0 && IsSpace(s[|s| - 1]) then
      var r := TrimRight(s[..|s| - 1]);
      assert s[|r|..] == s[..|s| - 1][|r|..] + [s[|s| - 1]];
      r
    else s
  }

  /** `s.strip()`. */
  function Strip(s: string): string {
    TrimRight(TrimLeft(s))
  }

  /** Leading whitespace in front of a string that starts with none is all that lstrip removes. */
  lemma {:induction false} TrimLeftSpaces(w: string, t: string)
    requires AllSpace(w)
    requires t == [] || !IsSpace(t[0])
    ensures TrimLeft(w + t) == t
    decreases |w|
  {
    if w != [] {
      assert (w + t)[1..] == w[1..] + t;
      TrimLeftSpaces(w[1..], t);
    } else {
      assert w + t == t;
    }
  }

  /** Trailing whitespace behind a string that ends with none is all that rstrip removes. */
  lemma {:induction false} TrimRightSpaces(t: string, w: string)
    requires AllSpace(w)
    requires t == [] || !IsSpace(t[|t| - 1])
    ensures TrimRight(t + w) == t
    decreases |w|
  {
    if w != [] {
      assert (t + w)[..|t + w| - 1] == t + w[..|w| - 1];
      TrimRightSpaces(t, w[..|w| - 1]);
    } else {
      assert t + w == t;
    }
  }

  /**
   * `int(s)` for a string, as Python 2 reads it in base 10: whitespace
   * around the text is skipped, then an optional sign, more whitespace
   * after the sign, and one or more decimal digits; anything else raises
   * ValueError, modelled as None.
   */
  function PyInt(s: string): (r: Option<int>)
    ensures r.Some? ==> Strip(s) != []
  {
    SignedDigits(Strip(s))
  }

  /** What `int()` accepts once the surrounding whitespace is gone. */
  function SignedDigits(t: string): (r: Option<int>)
    ensures r.Some? ==> t != []
  {
    if t == [] then None
    else if t[0] == '+' || t[0] == '-' then
      var u := TrimLeft(t[1..]);
      if u != [] && AllDigits(u) then Some(if t[0] == '-' then 0 - DigitsValue(u) as int else DigitsValue(u))
      else None
    else if AllDigits(t) then Some(DigitsValue(t))
    else None
  }

  /**
   * Whitespace between the sign and the digits is skipped: `int("- 5")` is
   * -5, and `int("+ 5")` is 5, as for any digits d.
   */
  lemma PyIntSpaceAfterSign(sign: char, w: string, d: string)
    requires sign == '+' || sign == '-'
    requires AllSpace(w) && d != [] && AllDigits(d)
    ensures PyInt([sign] + w + d) == Some(if sign == '-' then 0 - DigitsValue(d) as int else DigitsValue(d))
  {
    var t := [sign] + (w + d);
    assert [sign] + w + d == t;
    assert t[|t| - 1] == d[|d| - 1];
    StripAround("", t, "");
    assert "" + t + "" == t;
    SpacedSign(sign, w, d);
  }

  lemma SpacedSign(sign: char, w: string, d: string)
    requires sign == '+' || sign == '-'
    requires AllSpace(w) && d != [] && AllDigits(d)
    ensures SignedDigits([sign] + (w + d)) == Some(if sign == '-' then 0 - DigitsValue(d) as int else DigitsValue(d))
  {
    var t := [sign] + (w + d);
    assert t[1..] == w + d;
    assert IsDigit(d[0]);
    TrimLeftSpaces(w, d);
  }

  /** strip() removes exactly the whitespace around a text that neither starts nor ends with any. */
  lemma StripAround(w1: string, t: string, w2: string)
    requires AllSpace(w1) && AllSpace(w2)
    requires t != [] && !IsSpace(t[0]) && !IsSpace(t[|t| - 1])
    ensures Strip(w1 + t + w2) == t
  {
    assert w1 + t + w2 == w1 + (t + w2);
    TrimLeftSpaces(w1, t + w2);
    TrimRightSpaces(t, w2);
  }

  /** `int()` reads back what `str()` wrote, whatever whitespace surrounds it. */
  lemma PyIntOfStr(w1: string, n: int, w2: string)
    requires AllSpace(w1) && AllSpace(w2)
    ensures PyInt(w1 + IntToString(n) + w2) == Some(n)
  {
    var t := IntToString(n);
    NatToStringDigits(if n < 0 then -n else n);
    assert t[0] == '-' || IsDigit(t[0]);
    assert IsDigit(t[|t| - 1]);
    StripAround(w1, t, w2);
    SignedDigitsOfStr(n);
  }

  /** The text of an integer reads back once it is stripped. */
  lemma SignedDigitsOfStr(n: int)
    ensures SignedDigits(IntToString(n)) == Some(n)
  {
    if n < 0 {
      var d := NatToString(-n);
      NatToStringDigits(-n);
      assert IntToString(n) == ['-'] + ("" + d);
      SpacedSign('-', "", d);
    } else {
      UnsignedOfStr(n);
    }
  }

  lemma UnsignedOfStr(n: nat)
    ensures SignedDigits(NatToString(n)) == Some(n as int)
  {
    var d := NatToString(n);
    NatToStringDigits(n);
    assert IsDigit(d[0]);
  }

  /** n zero characters. */
  function ZeroFill(n: nat): (z: string)
    ensures |z| == n && AllDigits(z) && DigitsValue(z) == 0
  {
    if n == 0 then "" else ZeroFill(n - 1) + "0"
  }

  /** Left-pads a digit string with zeros to the given width. */
  function PadDigits(s: string, width: nat): (r: string)
    ensures |r| == if |s| < width then width else |s|
  {
    if |s| < width then ZeroFill(width - |s|) + s else s
  }

  /** `'%010d' % n`: at least ten characters, zero-filled after the sign of a negative number. */
  function Format010d(n: int): (r: string)
    ensures |r| >= 10
  {
    if n < 0 then "-" + PadDigits(NatToString(-n), 9) else PadDigits(NatToString(n), 10)
  }

  /** Leading zeros do not change the value of a digit string. */
  lemma {:induction false} LeadingZeros(z: string, s: string)
    requires AllDigits(z) && DigitsValue(z) == 0 && AllDigits(s)
    ensures AllDigits(z + s) && DigitsValue(z + s) == DigitsValue(s)
    decreases |s|
  {
    if s == [] {
      assert z + s == z;
    } else {
      var init := s[..|s| - 1];
      assert (z + s)[..|z + s| - 1] == z + init;
      LeadingZeros(z, init);
    }
  }

  /** Zero-padding keeps a digit string's value. */
  lemma PadDigitsValue(s: string, width: nat)
    requires AllDigits(s)
    ensures AllDigits(PadDigits(s, width)) && DigitsValue(PadDigits(s, width)) == DigitsValue(s)
  {
    if |s| < width {
      LeadingZeros(ZeroFill(width - |s|), s);
    }
  }

  /** The ten digits of `'%010d' % n` for 0 <= n < 10^10 read back as n. */
  lemma Format010dRoundTrip(n: int)
    requires 0 <= n < 10_000_000_000
    ensures |Format010d(n)| == 10
    ensures AllDigits(Format010d(n)) && DigitsValue(Format010d(n)) == n
  {
    NatToStringDigits(n);
    assert Pow10(10) == 10_000_000_000;
    NatToStringShort(n, 10);
    PadDigitsValue(NatToString(n), 10);
  }
}
