/** The parts of `java.lang` the service relies on: 32-bit `int`, integer
    division, `String.trim()` and `String.format("%06X", int)`. */
module JavaLang {

  /** Java's `int`: a signed 32-bit integer. */
  newtype int32 = x: int | -0x8000_0000 <= x < 0x8000_0000

  /** Java's `h / 2` on an `int`: the quotient is truncated toward zero
      (Dafny's own `/` is Euclidean and rounds down for negative `h`). */
  function HalfTruncated(h: int32): (r: int32)
    ensures h >= 0 ==> 0 <= h as int - 2 * r as int <= 1
    ensures h < 0 ==> -1 <= h as int - 2 * r as int <= 0
  {
    if h >= 0 then (h as int / 2) as int32 else (-((-(h as int)) / 2)) as int32
  }

  // ---------------------------------------------------------------------------
  // String.trim()

  /** `String.trim()` treats every character up to U+0020 as blank. */
  predicate IsTrimmable(c: char) {
    c <= ' '
  }

  function TrimStart(s: string): string {
    if |s| > 0 && IsTrimmable(s[0]) then TrimStart(s[1..]) else s
  }

  function TrimEnd(s: string): string {
    if |s| > 0 && IsTrimmable(s[|s| - 1]) then TrimEnd(s[..|s| - 1]) else s
  }

  /** `TrimStart` cuts a prefix of blank characters and stops at the first other one. */
  lemma {:induction false} TrimStartCuts(s: string)
    ensures |TrimStart(s)| <= |s| && TrimStart(s) == s[|s| - |TrimStart(s)|..]
    ensures forall i :: 0 <= i < |s| - |TrimStart(s)| ==> IsTrimmable(s[i])
    ensures |TrimStart(s)| > 0 ==> !IsTrimmable(TrimStart(s)[0])
    decreases |s|
  {
    if |s| > 0 && IsTrimmable(s[0]) {
      TrimStartCuts(s[1..]);
    }
  }

  /** `TrimEnd` cuts a suffix of blank characters and stops at the last other one. */
  lemma {:induction false} TrimEndCuts(s: string)
    ensures |TrimEnd(s)| <= |s| && TrimEnd(s) == s[..|TrimEnd(s)|]
    ensures forall i :: |TrimEnd(s)| <= i < |s| ==> IsTrimmable(s[i])
    ensures |TrimEnd(s)| > 0 ==> !IsTrimmable(TrimEnd(s)[|TrimEnd(s)| - 1])
    decreases |s|
  {
    if |s| > 0 && IsTrimmable(s[|s| - 1]) {
      TrimEndCuts(s[..|s| - 1]);
    }
  }

  /** `String.trim()`: removes every character up to U+0020 from both ends. */
  function Trim(s: string): string {
    TrimEnd(TrimStart(s))
  }

  /** `s.trim().isEmpty()`, or equivalently `s.trim().length() == 0`. */
  predicate IsBlank(s: string) {
    |Trim(s)| == 0
  }

  /** The trimmed string is a slice of the original that neither starts nor ends
      with a blank character, and only blank characters were cut off. */
  lemma TrimIsSlice(s: string)
    ensures exists lo, hi ::
      && 0 <= lo <= hi <= |s| && Trim(s) == s[lo..hi]
      && (forall i :: 0 <= i < lo ==> IsTrimmable(s[i]))
      && (forall i :: hi <= i < |s| ==> IsTrimmable(s[i]))
    ensures |Trim(s)| > 0 ==> !IsTrimmable(Trim(s)[0]) && !IsTrimmable(Trim(s)[|Trim(s)| - 1])
  {
    var t := TrimStart(s);
    TrimStartCuts(s);
    TrimEndCuts(t);
    var lo := |s| - |t|;
    var hi := lo + |TrimEnd(t)|;
    assert Trim(s) == s[lo..hi];
    forall i | hi <= i < |s| ensures IsTrimmable(s[i]) {
      assert s[i] == t[i - lo];
    }
  }

  /** Every character of `s` is at most U+0020. */
  predicate AllTrimmable(s: string) {
    forall i :: 0 <= i < |s| ==> IsTrimmable(s[i])
  }

  /** A string is blank exactly when every character in it is at most U+0020. */
  lemma BlankIff(s: string)
    ensures IsBlank(s) <==> AllTrimmable(s)
  {
    TrimIsSlice(s);
    var lo, hi :| 0 <= lo <= hi <= |s| && Trim(s) == s[lo..hi]
      && (forall i :: 0 <= i < lo ==> IsTrimmable(s[i]))
      && (forall i :: hi <= i < |s| ==> IsTrimmable(s[i]));
    if !IsBlank(s) {
      assert s[lo] == Trim(s)[0];
    }
  }

  // ---------------------------------------------------------------------------
  // String.format("%06X", color)

  /** The value Java's `%X` conversion prints for an `int`: negative values are
      shown as their unsigned 32-bit two's complement. */
  function Unsigned32(c: int32): (u: nat)
    ensures u < 0x1_0000_0000
    ensures u % 0x1_0000_0000 == c as int % 0x1_0000_0000
  {
    if c < 0 then c as int + 0x1_0000_0000 else c as int
  }

  predicate IsUpperHexDigit(c: char) {
    '0' <= c <= '9' || 'A' <= c <= 'F'
  }

  function HexDigit(d: nat): (c: char)
    requires d < 16
    ensures IsUpperHexDigit(c)
  {
    if d < 10 then '0' + d as char else 'A' + (d - 10) as char
  }

  /** The numeric value of one upper-case hexadecimal digit. */
  function HexDigitValue(c: char): (d: nat)
    requires IsUpperHexDigit(c)
    ensures d < 16
  {
    if c <= '9' then (c - '0') as nat else (c - 'A') as nat + 10
  }

  /** The value of a string of upper-case hexadecimal digits, most significant first. */
  function HexValue(s: string): nat
    requires forall i :: 0 <= i < |s| ==> IsUpperHexDigit(s[i])
  {
    if s == [] then 0 else 16 * HexValue(s[..|s| - 1]) + HexDigitValue(s[|s| - 1])
  }

  /** The upper-case hexadecimal digits of `n` with no leading zero ("0" for zero). */
  function HexDigits(n: nat): (s: string)
    ensures |s| > 0
    ensures forall i :: 0 <= i < |s| ==> IsUpperHexDigit(s[i])
  {
    if n < 16 then [HexDigit(n)] else HexDigits(n / 16) + [HexDigit(n % 16)]
  }

  function Zeros(k: nat): (s: string)
    ensures |s| == k && forall i :: 0 <= i < k ==> s[i] == '0'
  {
    if k == 0 then "" else Zeros(k - 1) + "0"
  }

  /** `String.format("%06X", c)`: the unsigned upper-case hexadecimal digits of `c`,
      padded on the left with zeros to a width of at least six. */
  function FormatHex06(c: int32): (s: string)
    ensures forall i :: 0 <= i < |s| ==> IsUpperHexDigit(s[i])
  {
    var digits := HexDigits(Unsigned32(c));
    if |digits| >= 6 then digits else Zeros(6 - |digits|) + digits
  }

  lemma {:induction false} HexValueOfDigits(n: nat)
    ensures HexValue(HexDigits(n)) == n
    ensures |HexDigits(n)| == 1 || HexDigits(n)[0] != '0'
    decreases n
  {
    if n >= 16 {
      HexValueOfDigits(n / 16);
      var s := HexDigits(n);
      assert s[..|s| - 1] == HexDigits(n / 16);
      assert HexDigitValue(HexDigit(n % 16)) == n % 16;
    } else {
      assert HexDigitValue(HexDigit(n)) == n;
    }
  }

  function Pow16(k: nat): nat {
    if k == 0 then 1 else 16 * Pow16(k - 1)
  }

  lemma {:induction false} HexDigitsLength(n: nat, k: nat)
    requires 0 < k && n < Pow16(k)
    ensures |HexDigits(n)| <= k
  {
    if n >= 16 {
      HexDigitsLength(n / 16, k - 1);
    }
  }

  lemma {:induction false} HexValueOfZerosPrefix(k: nat, s: string)
    requires forall i :: 0 <= i < |s| ==> IsUpperHexDigit(s[i])
    ensures forall i :: 0 <= i < |Zeros(k) + s| ==> IsUpperHexDigit((Zeros(k) + s)[i])
    ensures HexValue(Zeros(k) + s) == HexValue(s)
    decreases |s|
  {
    var z := Zeros(k) + s;
    if s == [] {
      assert z == Zeros(k);
      ZerosValue(k);
    } else {
      HexValueOfZerosPrefix(k, s[..|s| - 1]);
      assert z[..|z| - 1] == Zeros(k) + s[..|s| - 1];
    }
  }

  lemma {:induction false} ZerosValue(k: nat)
    ensures HexValue(Zeros(k)) == 0
  {
    if k > 0 {
      ZerosValue(k - 1);
      assert Zeros(k)[..k - 1] == Zeros(k - 1);
    }
  }

  /** `%06X` loses nothing: reading the digits back gives the unsigned value of
      the colour, the text is six digits for any 24-bit value and never more
      than eight, and zeros are added only up to the width of six, so a longer
      text never starts with `0`. */
  lemma FormatHex06RoundTrip(c: int32)
    ensures HexValue(FormatHex06(c)) == Unsigned32(c)
    ensures 6 <= |FormatHex06(c)| <= 8
    ensures 0 <= c < 0x100_0000 ==> |FormatHex06(c)| == 6
    ensures |FormatHex06(c)| == 6 || FormatHex06(c)[0] != '0'
  {
    var digits := HexDigits(Unsigned32(c));
    HexValueOfDigits(Unsigned32(c));
    HexDigitsLength(Unsigned32(c), 8);
    if 0 <= c < 0x100_0000 {
      HexDigitsLength(Unsigned32(c), 6);
    }
    if |digits| < 6 {
      HexValueOfZerosPrefix(6 - |digits|, digits);
    }
  }

  /** A text of upper-case hexadecimal digits, padded to at least six and with
      no zero beyond that width: the shape every `%06X` text has. */
  predicate IsPadded06(s: string) {
    && 6 <= |s|
    && (forall i :: 0 <= i < |s| ==> IsUpperHexDigit(s[i]))
    && (|s| == 6 || s[0] != '0')
  }

  /** The contract of `FormatHex06RoundTrip` leaves no choice: the only text of
      that shape which reads back as the colour's unsigned value is the one
      `%06X` prints. */
  lemma FormatHex06Unique(c: int32, s: string)
    requires IsPadded06(s) && HexValue(s) == Unsigned32(c)
    ensures s == FormatHex06(c)
  {
    var f := FormatHex06(c);
    FormatHex06RoundTrip(c);
    PaddedLengthsAgree(s, f);
    HexValueInjective(s, f);
  }

  lemma {:induction false} HexValueBounds(s: string)
    requires forall i :: 0 <= i < |s| ==> IsUpperHexDigit(s[i])
    ensures HexValue(s) < Pow16(|s|)
    ensures |s| > 0 && s[0] != '0' ==> Pow16(|s| - 1) <= HexValue(s)
    decreases |s|
  {
    if s != [] {
      var s' := s[..|s| - 1];
      HexValueBounds(s');
      assert HexValue(s) == 16 * HexValue(s') + HexDigitValue(s[|s| - 1]);
      if |s| > 1 {
        assert s'[0] == s[0];
      }
    }
  }

  lemma {:induction false} Pow16Grows(a: nat, b: nat)
    requires a <= b
    ensures Pow16(a) <= Pow16(b)
    decreases b
  {
    if a < b {
      Pow16Grows(a, b - 1);
    }
  }

  /** Two padded texts with the same value have the same length. */
  lemma PaddedLengthsAgree(s: string, t: string)
    requires IsPadded06(s) && IsPadded06(t) && HexValue(s) == HexValue(t)
    ensures |s| == |t|
  {
    HexValueBounds(s);
    HexValueBounds(t);
    if |s| < |t| {
      Pow16Grows(|s|, |t| - 1);
    } else if |t| < |s| {
      Pow16Grows(|t|, |s| - 1);
    }
  }

  /** Digit strings of one length are told apart by their value. */
  lemma {:induction false} HexValueInjective(s: string, t: string)
    requires forall i :: 0 <= i < |s| ==> IsUpperHexDigit(s[i])
    requires forall i :: 0 <= i < |t| ==> IsUpperHexDigit(t[i])
    requires |s| == |t| && HexValue(s) == HexValue(t)
    ensures s == t
    decreases |s|
  {
    if s != [] {
      var s', t' := s[..|s| - 1], t[..|t| - 1];
      var ds, dt := HexDigitValue(s[|s| - 1]), HexDigitValue(t[|t| - 1]);
      assert 16 * HexValue(s') + ds == 16 * HexValue(t') + dt;
      assert ds == dt && HexValue(s') == HexValue(t');
      HexValueInjective(s', t');
      assert s == s' + [s[|s| - 1]] && t == t' + [t[|t| - 1]];
    }
  }

  /** Two colours get the same text exactly when they are the same `int`. */
  lemma FormatHex06Injective(c: int32, d: int32)
    ensures FormatHex06(c) == FormatHex06(d) <==> c == d
  {
    FormatHex06RoundTrip(c);
    FormatHex06RoundTrip(d);
  }
}
