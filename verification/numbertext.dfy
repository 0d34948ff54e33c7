/**
 * JavaScript's rendering of non-negative integers as text:
 * `Number.prototype.toString(radix)` (used with radix 16, and with radix 10
 * by template-literal interpolation) and `String.prototype.padStart`, with
 * `ValueOf` reading digits back as their independent inverse.
 */
module NumberText {
  import opened Bits

  /** The digit for `d`: `0`..`9`, then lower-case `a`..`f`. */
  function DigitChar(d: nat): (c: char)
    requires d < 16
    ensures (c == '0') == (d == 0)
  {
    if d < 10 then ('0' as int + d) as char else ('a' as int + d - 10) as char
  }

  /** The value of one digit character; `radix` for a character that is none. */
  function DigitValue(c: char, radix: nat): (d: nat)
    ensures d <= radix
  {
    var d := if '0' <= c <= '9' then c as int - '0' as int
      else if 'a' <= c <= 'f' then c as int - 'a' as int + 10
      else 16;
    if d < radix then d else radix
  }

  predicate IsDigit(c: char, radix: nat)
  {
    DigitValue(c, radix) < radix
  }

  predicate AreDigits(s: string, radix: nat)
  {
    forall i :: 0 <= i < |s| ==> IsDigit(s[i], radix)
  }

  /** The number a string of digits denotes, most significant digit first. */
  function ValueOf(s: string, radix: nat): (v: nat)
  {
    if s == [] then 0
    else
      var high := ValueOf(s[..|s| - 1], radix);
      MulMonotone(high, 0, radix);
      high * radix + DigitValue(s[|s| - 1], radix)
  }

  lemma ValueOfAppend(s: string, c: char, radix: nat)
    ensures ValueOf(s + [c], radix) == ValueOf(s, radix) * radix + DigitValue(c, radix)
  {
    assert (s + [c])[..|s + [c]| - 1] == s;
  }

  lemma AppendLowDigit(v: nat, radix: nat, high: string)
    requires 2 <= radix <= 16
    requires AreDigits(high, radix) && ValueOf(high, radix) == v / radix
    ensures AreDigits(high + [DigitChar(v % radix)], radix)
    ensures ValueOf(high + [DigitChar(v % radix)], radix) == v
  {
    var d := v % radix;
    DigitRoundTrip(d, radix);
    ValueOfAppend(high, DigitChar(d), radix);
    DivRecombine(v, radix);
  }

  lemma DivRecombine(v: nat, radix: nat)
    requires radix > 0
    ensures (v / radix) * radix + v % radix == v
  {
  }

  lemma DigitRoundTrip(d: nat, radix: nat)
    requires d < radix <= 16
    ensures DigitValue(DigitChar(d), radix) == d
  {
  }

  function Power(b: nat, n: nat): (p: nat)
  {
    if n == 0 then 1 else b * Power(b, n - 1)
  }

  /**
   * `v.toString(radix)`: the shortest digit string for `v` (a single `0`
   * for zero), lower-case letters above 9.
   */
  function ToRadix(v: nat, radix: nat): (s: string)
    requires 2 <= radix <= 16
    ensures 1 <= |s|
    ensures v == 0 ==> s == "0"
    ensures (s[0] == '0') == (v == 0)
    decreases v
  {
    if v < radix then [DigitChar(v)]
    else
      DivShrinks(v, radix);
      ToRadix(v / radix, radix) + [DigitChar(v % radix)]
  }

  lemma DivShrinks(v: nat, radix: nat)
    requires radix >= 2 && v >= radix
    ensures 1 <= v / radix < v
  {
    var q := v / radix;
    assert v == radix * q + v % radix;
    MulMonotone(q, 2, radix);
  }

  /** Reading back the digits `toString` writes gives the number. */
  lemma {:induction false} ToRadixRoundTrip(v: nat, radix: nat)
    requires 2 <= radix <= 16
    ensures AreDigits(ToRadix(v, radix), radix)
    ensures ValueOf(ToRadix(v, radix), radix) == v
    decreases v
  {
    if v < radix {
      SingleDigit(v, radix);
    } else {
      DivShrinks(v, radix);
      ToRadixRoundTrip(v / radix, radix);
      assert ToRadix(v, radix) == ToRadix(v / radix, radix) + [DigitChar(v % radix)];
      AppendLowDigit(v, radix, ToRadix(v / radix, radix));
    }
  }

  lemma SingleDigit(v: nat, radix: nat)
    requires v < radix <= 16
    ensures AreDigits([DigitChar(v)], radix) && ValueOf([DigitChar(v)], radix) == v
  {
    DigitRoundTrip(v, radix);
    ValueOfAppend([], DigitChar(v), radix);
    assert [] + [DigitChar(v)] == [DigitChar(v)];
  }

  /** A number below `radix^n` takes at most `n` digits. */
  lemma {:induction false} ToRadixLength(v: nat, radix: nat, n: nat)
    requires 2 <= radix <= 16 && 1 <= n && v < Power(radix, n)
    ensures |ToRadix(v, radix)| <= n
    decreases n
  {
    if v >= radix {
      assert n > 1;
      assert radix * (v / radix) < radix * Power(radix, n - 1);
      MulCancel(radix, v / radix, Power(radix, n - 1));
      ToRadixLength(v / radix, radix, n - 1);
    }
  }

  lemma MulCancel(b: int, x: int, y: int)
    requires b > 0 && b * x < b * y
    ensures x < y
  {
  }

  /** `s.padStart(n, c)` */
  function PadStart(s: string, n: nat, c: char): (r: string)
    ensures |r| == if |s| >= n then |s| else n
    ensures r[|r| - |s|..] == s
    ensures forall i :: 0 <= i < |r| - |s| ==> r[i] == c
  {
    if |s| >= n then s else seq(n - |s|, _ => c) + s
  }

  /** Leading zero digits do not change the value. */
  lemma {:induction false} LeadingZeros(z: string, s: string, radix: nat)
    requires 2 <= radix && forall i :: 0 <= i < |z| ==> z[i] == '0'
    ensures ValueOf(z + s, radix) == ValueOf(s, radix)
    decreases |s|
  {
    if s == [] {
      assert z + s == z;
      AllZeros(z, radix);
    } else {
      assert (z + s)[..|z + s| - 1] == z + s[..|s| - 1];
      LeadingZeros(z, s[..|s| - 1], radix);
    }
  }

  lemma {:induction false} AllZeros(z: string, radix: nat)
    requires 2 <= radix && forall i :: 0 <= i < |z| ==> z[i] == '0'
    ensures ValueOf(z, radix) == 0
    decreases |z|
  {
    if z != [] {
      AllZeros(z[..|z| - 1], radix);
    }
  }

  /** The summed length of the strings. */
  function TotalLength(parts: seq<string>): (n: nat)
  {
    if parts == [] then 0 else |parts[0]| + TotalLength(parts[1..])
  }

  /**
   * Joins the strings with `sep` between neighbours, as `Array.prototype.join`:
   * the first part opens the result, the last closes it, and `|parts| - 1`
   * separators come between.
   */
  function Join(parts: seq<string>, sep: string): (r: string)
    ensures |parts| == 0 ==> r == ""
    ensures |parts| > 0 ==> |r| == TotalLength(parts) + (|parts| - 1) * |sep|
  {
    if |parts| == 0 then ""
    else if |parts| == 1 then parts[0]
    else
      parts[0] + sep + Join(parts[1..], sep)
  }

  /** A joined list opens with its first part and closes with its last. */
  lemma {:induction false} JoinEnds(parts: seq<string>, sep: string)
    requires |parts| > 0
    ensures var r := Join(parts, sep);
      && |parts[0]| <= |r| && r[..|parts[0]|] == parts[0]
      && |parts[|parts| - 1]| <= |r| && r[|r| - |parts[|parts| - 1]|..] == parts[|parts| - 1]
    decreases |parts|
  {
    if |parts| > 1 {
      var rest := Join(parts[1..], sep);
      var r := parts[0] + sep + rest;
      var last := parts[|parts| - 1];
      JoinEnds(parts[1..], sep);
      assert parts[1..][|parts| - 2] == last;
      assert r[..|parts[0]|] == parts[0];
      assert r[|r| - |last|..] == rest[|rest| - |last|..];
    }
  }
}
