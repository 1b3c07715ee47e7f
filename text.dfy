/** Character classes and string operations of the three runtimes: the Java
    regular-expression class `\s`, JavaScript's white space, Kotlin's
    `isWhitespace`, prefix tests, trimming, and decimal digits (rendering a
    natural number and Kotlin's `String.toIntOrNull`). */
module Text {
  import opened Wrappers

  /** `\s` in a `java.util.regex` pattern: `[ \t\n\x0B\f\r]`. */
  predicate JavaRegexSpace(c: char)
  {
    c == ' ' || c == '\t' || c == '\n' || c == '\U{000B}' || c == '\U{000C}' || c == '\r'
  }

  /** `\s` in a JavaScript pattern, which is also what `String.prototype.trim`
      removes: the WhiteSpace and LineTerminator characters of ECMAScript. */
  predicate JsSpace(c: char)
  {
    || JavaRegexSpace(c)
    || c == '\U{00A0}' || c == '\U{1680}' || ('\U{2000}' <= c <= '\U{200A}')
    || c == '\U{2028}' || c == '\U{2029}' || c == '\U{202F}' || c == '\U{205F}'
    || c == '\U{3000}' || c == '\U{FEFF}'
  }

  /** Kotlin's `Char.isWhitespace` on the JVM (`Character.isWhitespace` or
      `Character.isSpaceChar`), used by `isBlank` and `trim`. */
  predicate KotlinSpace(c: char)
  {
    (JsSpace(c) && c != '\U{FEFF}') || ('\U{001C}' <= c <= '\U{001F}')
  }

  /** Kotlin's `String.isBlank`. */
  predicate IsBlank(s: string)
  {
    forall i :: 0 <= i < |s| ==> KotlinSpace(s[i])
  }

  predicate StartsWith(s: string, prefix: string)
  {
    |prefix| <= |s| && s[..|prefix|] == prefix
  }

  /** Kotlin's `removePrefix`. */
  function RemovePrefix(s: string, prefix: string): (r: string)
    ensures StartsWith(s, prefix) ==> s == prefix + r
    ensures !StartsWith(s, prefix) ==> r == s
  {
    if StartsWith(s, prefix) then s[|prefix|..] else s
  }

  /** `s` without its leading characters of class `space`. */
  function TrimStart(s: string, space: char -> bool): (r: string)
    ensures |r| <= |s| && r == s[|s| - |r|..]
    ensures forall k :: 0 <= k < |s| - |r| ==> space(s[k])
    ensures |r| > 0 ==> !space(r[0])
    decreases |s|
  {
    if |s| > 0 && space(s[0]) then TrimStart(s[1..], space) else s
  }

  /** `s` without its trailing characters of class `space`. */
  function TrimEnd(s: string, space: char -> bool): (r: string)
    ensures |r| <= |s| && r == s[..|r|]
    ensures forall k :: |r| <= k < |s| ==> space(s[k])
    ensures |r| > 0 ==> !space(r[|r| - 1])
    decreases |s|
  {
    if |s| > 0 && space(s[|s| - 1]) then TrimEnd(s[..|s| - 1], space) else s
  }

  /** `trim`, for the class of white space of the runtime at hand: the result
      neither starts nor ends with such a character, and `TrimStart` and
      `TrimEnd` say that only such characters are removed, from either end. */
  function Trim(s: string, space: char -> bool): (r: string)
    ensures |r| <= |s|
    ensures |r| > 0 ==> !space(r[0]) && !space(r[|r| - 1])
  {
    TrimEnd(TrimStart(s, space), space)
  }

  predicate IsDigit(c: char)
  {
    '0' <= c <= '9'
  }

  predicate AllDigits(s: string)
  {
    forall k :: 0 <= k < |s| ==> IsDigit(s[k])
  }

  function DigitChar(d: nat): (c: char)
    requires d < 10
    ensures IsDigit(c)
  {
    (('0' as int) + d) as char
  }

  function DigitValue(c: char): (d: nat)
    requires IsDigit(c)
    ensures d < 10 && DigitChar(d) == c
  {
    (c as int) - ('0' as int)
  }

  /** The decimal numeral of `n`, as JavaScript's template literals and the JVM's
      `toString` print a non-negative integer. */
  function Decimal(n: nat): string
    decreases n
  {
    if n < 10 then [DigitChar(n)] else Decimal(n / 10) + [DigitChar(n % 10)]
  }

  /** The number a string of decimal digits denotes ("" denotes 0). */
  function DigitsValue(s: string): nat
    requires AllDigits(s)
    decreases |s|
  {
    if |s| == 0 then 0 else 10 * DigitsValue(s[..|s| - 1]) + DigitValue(s[|s| - 1])
  }

  /** Reading back a numeral gives the number it was printed from. */
  lemma {:induction false} DecimalRoundTrip(n: nat)
    ensures |Decimal(n)| >= 1 && AllDigits(Decimal(n)) && DigitsValue(Decimal(n)) == n
    decreases n
  {
    if n >= 10 {
      DecimalRoundTrip(n / 10);
      var d := Decimal(n);
      assert d[..|d| - 1] == Decimal(n / 10);
    }
  }

  /** Distinct numbers print as distinct numerals. */
  lemma DecimalInjective(a: nat, b: nat)
    ensures Decimal(a) == Decimal(b) ==> a == b
  {
    DecimalRoundTrip(a);
    DecimalRoundTrip(b);
  }

  const INT_MIN: int := -0x8000_0000
  const INT_MAX: int := 0x7FFF_FFFF

  function InInt(v: int): Option<int>
  {
    if INT_MIN <= v <= INT_MAX then Some(v) else None
  }

  /** The length of `s` as the JVM and JavaScript count it, in UTF-16 code
      units: one for a character of the Basic Multilingual Plane, two for any
      other. It equals the number of characters exactly when all of them lie
      in that plane. */
  function Utf16Length(s: string): (n: nat)
    ensures |s| <= n <= 2 * |s|
    ensures n == |s| <==> forall k :: 0 <= k < |s| ==> s[k] as int < 0x10000
    decreases |s|
  {
    if s == [] then 0
    else
      assert forall k :: 1 <= k < |s| ==> s[k] == s[1..][k - 1];
      (if s[0] as int < 0x10000 then 1 else 2) + Utf16Length(s[1..])
  }

  /** The code points of the digit zero of the blocks of ten decimal digits
      (Unicode general category Nd) in the Basic Multilingual Plane, as of
      Unicode 15.0, ASCII among them. These blocks hold the characters that
      the JVM's `Character.digit(c, 10)` reads as digits. A digit outside that
      plane is two UTF-16 units on the JVM, and neither of them is a digit. */
  predicate IsJvmDigitZero(z: int)
  {
       z == 0x0030 || z == 0x0660 || z == 0x06F0 || z == 0x07C0 || z == 0x0966 || z == 0x09E6
    || z == 0x0A66 || z == 0x0AE6 || z == 0x0B66 || z == 0x0BE6 || z == 0x0C66 || z == 0x0CE6
    || z == 0x0D66 || z == 0x0DE6 || z == 0x0E50 || z == 0x0ED0 || z == 0x0F20 || z == 0x1040
    || z == 0x1090 || z == 0x17E0 || z == 0x1810 || z == 0x1946 || z == 0x19D0 || z == 0x1A80
    || z == 0x1A90 || z == 0x1B50 || z == 0x1BB0 || z == 0x1C40 || z == 0x1C50 || z == 0xA620
    || z == 0xA8D0 || z == 0xA900 || z == 0xA9D0 || z == 0xA9F0 || z == 0xAA50 || z == 0xABF0
    || z == 0xFF10
  }

  /** `c` lies in the block of ten digits that starts at `z`. */
  predicate InBlock(c: char, z: int)
  {
    IsJvmDigitZero(z) && z <= c as int < z + 10
  }

  /** The zero of the block of ten digits that `x` lies in, if any. */
  function BlockZero(x: int): (z: Option<int>)
    ensures z.Some? ==> IsJvmDigitZero(z.value) && z.value <= x < z.value + 10 && z.value + 10 <= 0x10000
  {
    if 0x0030 <= x < 0x0030 + 10 then Some(0x0030)
    else if 0x0660 <= x < 0x0660 + 10 then Some(0x0660)
    else if 0x06F0 <= x < 0x06F0 + 10 then Some(0x06F0)
    else if 0x07C0 <= x < 0x07C0 + 10 then Some(0x07C0)
    else if 0x0966 <= x < 0x0966 + 10 then Some(0x0966)
    else if 0x09E6 <= x < 0x09E6 + 10 then Some(0x09E6)
    else if 0x0A66 <= x < 0x0A66 + 10 then Some(0x0A66)
    else if 0x0AE6 <= x < 0x0AE6 + 10 then Some(0x0AE6)
    else if 0x0B66 <= x < 0x0B66 + 10 then Some(0x0B66)
    else if 0x0BE6 <= x < 0x0BE6 + 10 then Some(0x0BE6)
    else if 0x0C66 <= x < 0x0C66 + 10 then Some(0x0C66)
    else if 0x0CE6 <= x < 0x0CE6 + 10 then Some(0x0CE6)
    else if 0x0D66 <= x < 0x0D66 + 10 then Some(0x0D66)
    else if 0x0DE6 <= x < 0x0DE6 + 10 then Some(0x0DE6)
    else if 0x0E50 <= x < 0x0E50 + 10 then Some(0x0E50)
    else if 0x0ED0 <= x < 0x0ED0 + 10 then Some(0x0ED0)
    else if 0x0F20 <= x < 0x0F20 + 10 then Some(0x0F20)
    else if 0x1040 <= x < 0x1040 + 10 then Some(0x1040)
    else if 0x1090 <= x < 0x1090 + 10 then Some(0x1090)
    else if 0x17E0 <= x < 0x17E0 + 10 then Some(0x17E0)
    else if 0x1810 <= x < 0x1810 + 10 then Some(0x1810)
    else if 0x1946 <= x < 0x1946 + 10 then Some(0x1946)
    else if 0x19D0 <= x < 0x19D0 + 10 then Some(0x19D0)
    else if 0x1A80 <= x < 0x1A80 + 10 then Some(0x1A80)
    else if 0x1A90 <= x < 0x1A90 + 10 then Some(0x1A90)
    else if 0x1B50 <= x < 0x1B50 + 10 then Some(0x1B50)
    else if 0x1BB0 <= x < 0x1BB0 + 10 then Some(0x1BB0)
    else if 0x1C40 <= x < 0x1C40 + 10 then Some(0x1C40)
    else if 0x1C50 <= x < 0x1C50 + 10 then Some(0x1C50)
    else if 0xA620 <= x < 0xA620 + 10 then Some(0xA620)
    else if 0xA8D0 <= x < 0xA8D0 + 10 then Some(0xA8D0)
    else if 0xA900 <= x < 0xA900 + 10 then Some(0xA900)
    else if 0xA9D0 <= x < 0xA9D0 + 10 then Some(0xA9D0)
    else if 0xA9F0 <= x < 0xA9F0 + 10 then Some(0xA9F0)
    else if 0xAA50 <= x < 0xAA50 + 10 then Some(0xAA50)
    else if 0xABF0 <= x < 0xABF0 + 10 then Some(0xABF0)
    else if 0xFF10 <= x < 0xFF10 + 10 then Some(0xFF10)
    else None
  }

  /** `Character.digit(c, 10)`: the value of a decimal digit of any script, that
      is the offset of `c` from the zero of its block, or nothing when `c` lies
      in no block. On ASCII it agrees with `DigitValue`, and no character
      outside the Basic Multilingual Plane is a digit. */
  function JvmDigit(c: char): (d: Option<nat>)
    ensures d.Some? ==> d.value < 10 && InBlock(c, c as int - d.value)
    ensures IsDigit(c) ==> d == Some(DigitValue(c))
    ensures d.Some? ==> c as int < 0x10000
  {
    match BlockZero(c as int)
    case None => None
    case Some(z) => Some(c as int - z)
  }

  /** Every character of a block is a digit, with its offset from the block's
      zero as value. */
  lemma JvmDigitReadsBlock(c: char, z: int)
    requires InBlock(c, z)
    ensures JvmDigit(c) == Some(c as int - z)
  {
  }

  predicate AllJvmDigits(s: string)
  {
    forall k :: 0 <= k < |s| ==> JvmDigit(s[k]).Some?
  }

  /** The number a string of digits of any script denotes ("" denotes 0). */
  function JvmDigitsValue(s: string): nat
    requires AllJvmDigits(s)
    decreases |s|
  {
    if |s| == 0 then 0 else 10 * JvmDigitsValue(s[..|s| - 1]) + JvmDigit(s[|s| - 1]).value
  }

  /** ASCII numerals are read the same way by the JVM. */
  lemma {:induction false} AsciiDigitsAreJvmDigits(s: string)
    requires AllDigits(s)
    ensures AllJvmDigits(s) && JvmDigitsValue(s) == DigitsValue(s)
    decreases |s|
  {
    if |s| > 0 {
      AsciiDigitsAreJvmDigits(s[..|s| - 1]);
    }
  }

  /** Kotlin's `String.toIntOrNull()` in radix 10 on the JVM: an optional `+`
      or `-`, then at least one decimal digit of any script, and a value that
      fits a 32-bit `Int`; otherwise null. */
  function ToIntOrNull(s: string): (r: Option<int>)
    ensures r.Some? ==> INT_MIN <= r.value <= INT_MAX
    ensures r.Some? ==> |s| > 0 && (AllJvmDigits(s) || (|s| > 1 && (s[0] == '-' || s[0] == '+') && AllJvmDigits(s[1..])))
  {
    if |s| == 0 then None
    else if s[0] == '-' || s[0] == '+' then
      if |s| == 1 || !AllJvmDigits(s[1..]) then None
      else if s[0] == '-' then InInt(-(JvmDigitsValue(s[1..]) as int))
      else InInt(JvmDigitsValue(s[1..]))
    else if AllJvmDigits(s) then InInt(JvmDigitsValue(s))
    else None
  }

  /** Digits of other scripts parse as the JVM reads them: Arabic-Indic "١٥"
      and fullwidth "１５" are 15, a sign may precede them, and a digit outside
      the Basic Multilingual Plane (here MATHEMATICAL BOLD DIGIT ONE) does not
      parse. */
  lemma ToIntOrNullReadsOtherScripts()
    ensures ToIntOrNull("\U{0661}\U{0665}") == Some(15)
    ensures ToIntOrNull("\U{FF11}\U{FF15}") == Some(15)
    ensures ToIntOrNull("-\U{0967}\U{0966}") == Some(-10)
    ensures ToIntOrNull("\U{1D7CF}").None?
  {
    TwoJvmDigits("\U{0661}\U{0665}");
    TwoJvmDigits("\U{FF11}\U{FF15}");
    TwoJvmDigits("\U{0967}\U{0966}");
    assert "-\U{0967}\U{0966}"[1..] == "\U{0967}\U{0966}";
    assert JvmDigit("\U{1D7CF}"[0]).None?;
  }

  /** A two-character numeral reads as ten times its first digit plus its second. */
  lemma TwoJvmDigits(s: string)
    requires |s| == 2 && JvmDigit(s[0]).Some? && JvmDigit(s[1]).Some?
    ensures AllJvmDigits(s) && JvmDigitsValue(s) == 10 * JvmDigit(s[0]).value + JvmDigit(s[1]).value
  {
    var p := s[..1];
    assert p[..0] == [] && p[0] == s[0] && s[..|s| - 1] == p;
    assert JvmDigitsValue(p) == JvmDigit(s[0]).value;
  }

  /** The decimal numeral of an integer, with a `-` when it is negative. */
  function IntToString(n: int): string
  {
    if n < 0 then "-" + Decimal(-n) else Decimal(n)
  }

  /** Every 32-bit integer parses back from its numeral, and nothing outside
      that range parses at all. */
  lemma ToIntOrNullRoundTrip(n: int)
    ensures ToIntOrNull(IntToString(n)) == if INT_MIN <= n <= INT_MAX then Some(n) else None
  {
    if n < 0 {
      DecimalRoundTrip(-n);
      AsciiDigitsAreJvmDigits(Decimal(-n));
      var s := IntToString(n);
      assert s[1..] == Decimal(-n);
    } else {
      DecimalRoundTrip(n);
      AsciiDigitsAreJvmDigits(Decimal(n));
    }
  }

  /** Distinct integers have distinct numerals. */
  lemma IntToStringInjective(a: int, b: int)
    ensures IntToString(a) == IntToString(b) ==> a == b
  {
    if a < 0 {
      assert IntToString(a)[1..] == Decimal(-a);
    } else {
      DecimalRoundTrip(a);
    }
    if b < 0 {
      assert IntToString(b)[1..] == Decimal(-b);
    } else {
      DecimalRoundTrip(b);
    }
    if a < 0 && b < 0 {
      DecimalInjective(-a, -b);
    } else if a >= 0 && b >= 0 {
      DecimalInjective(a, b);
    } else if a < 0 {
      assert IntToString(a)[0] == '-' && IsDigit(IntToString(b)[0]);
    } else {
      assert IntToString(b)[0] == '-' && IsDigit(IntToString(a)[0]);
    }
  }
}
