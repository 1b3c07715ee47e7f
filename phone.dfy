/** The Indian phone-number normalisation that both the backend's
    excluded-contact controller and the dashboard's returning-customer page
    apply before comparing numbers: drop white space and `-`, then a "+91"
    country code, or a bare "91" when the number is longer than ten UTF-16
    code units. The two copies differ only in what their `\s` pattern matches. */
module PhoneNumbers {
  import opened Seqs
  import opened Text

  /** `phone` without any `space` character and without any `-`, the rest in
      order (`CleanShape` states what it keeps). */
  function Clean(phone: string, space: char -> bool): string
  {
    Filter(phone, (c: char) => !space(c) && c != '-')
  }

  lemma CleanShape(phone: string, space: char -> bool)
    ensures var r := Clean(phone, space);
      && |r| <= |phone|
      && forall c :: c in r <==> c in phone && !space(c) && c != '-'
  {
  }

  /** The country-code rule applied to an already cleaned number; its length
      test counts UTF-16 code units, as Kotlin's and JavaScript's `length` do. */
  function StripCountryCode(c: string): string
  {
    if StartsWith(c, "+91") then c[3..]
    else if StartsWith(c, "91") && Utf16Length(c) > 10 then c[2..]
    else c
  }

  /** The length test counts code units, not characters: "91", seven digits
      and an emoji are ten characters but eleven code units, so the "91" goes. */
  lemma StripCountsCodeUnits()
    ensures |"911234567\U{1F600}"| == 10
    ensures StripCountryCode("911234567\U{1F600}") == "1234567\U{1F600}"
  {
    var c := "911234567\U{1F600}";
    assert c[..2] == "91";
    assert c[9] as int >= 0x10000;
  }

  /** What the country-code rule leaves is a suffix of its input. */
  lemma StripShape(c: string)
    ensures var r := StripCountryCode(c); |r| <= |c| && r == c[|c| - |r|..]
  {
  }

  /** The backend's `normalizePhone`: Java's `\s+` and `-` removed, then the
      country code (`NormalizePhoneShape` states what it yields). */
  function NormalizePhone(phone: string): string
  {
    StripCountryCode(Clean(phone, JavaRegexSpace))
  }

  /** The backend's result holds neither white space nor `-`, is never longer
      than the input, drops exactly the "+91" of a cleaned number that starts
      with it, and keeps a cleaned number of at most ten UTF-16 code units that
      starts with "91". */
  lemma NormalizePhoneShape(phone: string)
    ensures var r := NormalizePhone(phone);
      && |r| <= |phone|
      && (forall ch :: ch in r ==> !JavaRegexSpace(ch) && ch != '-')
      && var c := Clean(phone, JavaRegexSpace);
      && (StartsWith(c, "+91") ==> r == c[3..])
      && (StartsWith(c, "91") && Utf16Length(c) <= 10 ==> r == c)
  {
    var c := Clean(phone, JavaRegexSpace);
    var r := StripCountryCode(c);
    CleanShape(phone, JavaRegexSpace);
    StripShape(c);
    assert forall ch :: ch in r ==> ch in c;
    assert StartsWith(c, "91") ==> c[0] == '9' && !StartsWith(c, "+91");
  }

  /** The dashboard's `normalizePhone`: an empty string is returned as it is,
      otherwise JavaScript's `\s` and `-` are removed, then the country code. */
  function WebNormalizePhone(phone: string): string
  {
    if phone == [] then phone else StripCountryCode(Clean(phone, JsSpace))
  }

  /** The dashboard's result holds neither white space nor `-` and is never
      longer than the input. */
  lemma WebNormalizePhoneShape(phone: string)
    ensures var r := WebNormalizePhone(phone);
      && |r| <= |phone|
      && forall ch :: ch in r ==> !JsSpace(ch) && ch != '-'
  {
    if phone != [] {
      var c := Clean(phone, JsSpace);
      CleanShape(phone, JsSpace);
      StripShape(c);
      assert forall ch :: ch in StripCountryCode(c) ==> ch in c;
    }
  }

  /** Two classes of white space that agree on the characters of `phone` clean it alike. */
  lemma CleanAgrees(phone: string, s1: char -> bool, s2: char -> bool)
    requires forall k :: 0 <= k < |phone| ==> s1(phone[k]) == s2(phone[k])
    ensures Clean(phone, s1) == Clean(phone, s2)
  {
    FilterExt(phone, (c: char) => !s1(c) && c != '-', (c: char) => !s2(c) && c != '-');
  }

  /** Cleaning a concatenation cleans each part. */
  lemma CleanConcat(a: string, b: string, space: char -> bool)
    ensures Clean(a + b, space) == Clean(a, space) + Clean(b, space)
  {
    FilterConcat(a, b, (c: char) => !space(c) && c != '-');
  }

  /** On every input whose white space Java's `\s` also matches (in particular on
      the empty string and on every input without white space), the dashboard
      and the backend normalise alike. */
  lemma WebAgreesWithBackend(phone: string)
    requires forall k :: 0 <= k < |phone| ==> JsSpace(phone[k]) ==> JavaRegexSpace(phone[k])
    ensures WebNormalizePhone(phone) == NormalizePhone(phone)
  {
    if phone != [] {
      CleanAgrees(phone, JsSpace, JavaRegexSpace);
    }
  }

  /** The two copies are not the same function: a no-break space (U+00A0) is
      white space to JavaScript but not to Java's `\s`. */
  lemma WebAndBackendDifferOnNoBreakSpace()
    ensures WebNormalizePhone("\U{00A0}") == ""
    ensures NormalizePhone("\U{00A0}") == "\U{00A0}"
  {
    var s := "\U{00A0}";
    assert s == ['\U{00A0}'];
    CleanChar('\U{00A0}', JsSpace);
    CleanChar('\U{00A0}', JavaRegexSpace);
  }

  /** The cleaned form of a ten-digit number behind a prefix that cleans to `cp`. */
  lemma CleanVariant(prefix: string, d: string, space: char -> bool)
    requires forall k :: 0 <= k < |d| ==> !space(d[k]) && d[k] != '-'
    ensures Clean(prefix + d, space) == Clean(prefix, space) + d
  {
    CleanConcat(prefix, d, space);
    FilterAll(d, (c: char) => !space(c) && c != '-');
  }

  /** A ten-digit number alone, or behind a prefix that cleans to "+91" or to
      "91", loses exactly that prefix. */
  lemma StripVariant(cp: string, d: string)
    requires |d| == 10 && AllDigits(d)
    requires cp == "+91" || cp == "91" || cp == ""
    ensures StripCountryCode(cp + d) == d
  {
    var c := cp + d;
    assert IsDigit(d[0]);
    if cp == "+91" {
      assert c[..3] == "+91";
      assert c[3..] == d;
    } else if cp == "91" {
      assert c[0] == '9' && c[1] == '1';
      assert c[..2] == "91";
      assert c[2..] == d;
      forall k | 2 <= k < |c| ensures c[k] as int < 0x10000 {
        assert c[k] == d[k - 2] && IsDigit(d[k - 2]);
      }
      assert Utf16Length(c) == |c|;
    } else {
      assert c == d;
    }
  }

  /** Cleaning a one-character string. */
  lemma CleanChar(c: char, space: char -> bool)
    ensures Clean([c], space) == if !space(c) && c != '-' then [c] else []
  {
    assert [c][1..] == [];
  }

  /** The ways a ten-digit Indian number is written: alone, behind "+91" (with
      or without a blank or a `-` after the code) and behind a bare "91". */
  datatype Form = Bare | Plus | PlusBlank | PlusDash | NoPlus

  function Prefix(f: Form): string
  {
    match f
    case Bare => ""
    case Plus => "+91"
    case PlusBlank => "+91 "
    case PlusDash => "+91-"
    case NoPlus => "91"
  }

  /** What is left of the prefix once white space and `-` are gone. */
  function CountryCode(f: Form): string
  {
    match f
    case Bare => ""
    case NoPlus => "91"
    case _ => "+91"
  }

  /** For any class of white space that holds the blank but not the characters
      of "+91", every prefix cleans to its country code. */
  lemma PrefixClean(f: Form, space: char -> bool)
    requires space(' ') && !space('+') && !space('9') && !space('1')
    ensures Clean(Prefix(f), space) == CountryCode(f)
  {
    match f
    case Bare =>
    case NoPlus => CodeClean(space);
    case Plus => CodeClean(space);
    case PlusBlank =>
      CodeClean(space);
      CleanChar(' ', space);
      assert "+91 " == "+91" + [' '];
      CleanConcat("+91", [' '], space);
    case PlusDash =>
      CodeClean(space);
      CleanChar('-', space);
      assert "+91-" == "+91" + ['-'];
      CleanConcat("+91", ['-'], space);
  }

  /** The country code itself holds neither white space nor `-`. */
  lemma CodeClean(space: char -> bool)
    requires !space('+') && !space('9') && !space('1')
    ensures Clean("91", space) == "91" && Clean("+91", space) == "+91"
  {
    CleanChar('+', space);
    CleanChar('9', space);
    CleanChar('1', space);
    assert "91" == ['9'] + ['1'];
    CleanConcat(['9'], ['1'], space);
    assert "+91" == ['+'] + "91";
    CleanConcat(['+'], "91", space);
  }

  /** Digits are neither white space of any runtime nor `-`. */
  lemma DigitsPlain(d: string)
    requires AllDigits(d)
    ensures forall k :: 0 <= k < |d| ==> !JsSpace(d[k]) && !JavaRegexSpace(d[k]) && d[k] != '-'
  {
    forall k | 0 <= k < |d| ensures !JsSpace(d[k]) && !JavaRegexSpace(d[k]) && d[k] != '-' {
      assert IsDigit(d[k]);
    }
  }

  /** A ten-digit number behind `prefix`, which cleans to "+91", "91" or nothing,
      cleans and strips to the ten digits. */
  lemma VariantStrips(prefix: string, d: string, space: char -> bool)
    requires |d| == 10 && AllDigits(d)
    requires forall k :: 0 <= k < |d| ==> !space(d[k]) && d[k] != '-'
    requires Clean(prefix, space) == "+91" || Clean(prefix, space) == "91" || Clean(prefix, space) == ""
    ensures StripCountryCode(Clean(prefix + d, space)) == d
  {
    CleanVariant(prefix, d, space);
    StripVariant(Clean(prefix, space), d);
  }

  /** The backend and the dashboard both merge the written forms of a ten-digit
      number: each of them normalises to the ten digits, on both sides. */
  lemma IndianVariantsAgree(f: Form, d: string)
    requires |d| == 10 && AllDigits(d)
    ensures NormalizePhone(Prefix(f) + d) == d && WebNormalizePhone(Prefix(f) + d) == d
  {
    DigitsPlain(d);
    PrefixClean(f, JavaRegexSpace);
    PrefixClean(f, JsSpace);
    VariantStrips(Prefix(f), d, JavaRegexSpace);
    VariantStrips(Prefix(f), d, JsSpace);
  }
}
