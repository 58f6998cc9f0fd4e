/**
 * The `validate` predicates of the custom class-validator decorators. The
 * pattern checks are `matches(value, regex)`, which fails for anything that
 * is not a string; every pattern used is anchored at both ends and made of
 * one character class, so a match is a length condition plus a scan that
 * finds no character outside the class.
 */
module Validators {
  import opened Wrappers
  import opened Js
  import opened Strings
  import Crypto

  // Character classes

  /** `[a-fA-F0-9]` */
  predicate HexChar(c: char) {
    'a' <= c <= 'f' || 'A' <= c <= 'F' || '0' <= c <= '9'
  }

  /** `[A-Za-z0-9 #^&*_+\-=]`: the escaped `-` is a literal hyphen. */
  predicate NameChar(c: char) {
    || 'A' <= c <= 'Z' || 'a' <= c <= 'z' || '0' <= c <= '9'
    || c == ' ' || c == '#' || c == '^' || c == '&' || c == '*'
    || c == '_' || c == '+' || c == '-' || c == '='
  }

  /** `[A-Za-z0-9 .#^&*_+\-=]`: the name characters and the dot. */
  predicate FileNameChar(c: char) {
    NameChar(c) || c == '.'
  }

  /** `[^${}<>]`: inside a class `$` is a plain character. */
  predicate DescriptionChar(c: char) {
    c != '$' && c != '{' && c != '}' && c != '<' && c != '>'
  }

  /** `[0-9a-fA-F-]` */
  predicate OfferingIdChar(c: char) {
    HexChar(c) || c == '-'
  }

  /** The first index at or after `i` whose character is outside the class, or `|s|`. */
  function ScanClass(s: string, inClass: char -> bool, i: nat): (j: nat)
    requires i <= |s|
    ensures i <= j <= |s|
    ensures forall k :: i <= k < j ==> inClass(s[k])
    ensures j < |s| ==> !inClass(s[j])
    decreases |s| - i
  {
    if i < |s| && inClass(s[i]) then ScanClass(s, inClass, i + 1) else i
  }

  /** `^[class]*$` on a string: the scan reaches the end. */
  predicate AllInClass(s: string, inClass: char -> bool) {
    ScanClass(s, inClass, 0) == |s|
  }

  /** The scan reaches the end exactly when every character is in the class. */
  lemma AllInClassIff(s: string, inClass: char -> bool)
    ensures AllInClass(s, inClass) <==> forall k :: 0 <= k < |s| ==> inClass(s[k])
  {
  }

  // The validators

  /** `matches(value, /^0x[a-fA-F0-9]{40}$/)` */
  predicate IsEthAddress(value: JsValue)
    ensures IsEthAddress(value) <==>
      value.Str? && |value.s| == 42 && value.s[..2] == "0x" && forall k :: 2 <= k < 42 ==> HexChar(value.s[k])
  {
    value.Str? && |value.s| == 42 && value.s[..2] == "0x" && AllInClass(value.s[2..], HexChar)
  }

  /** `matches(value, /^[A-Za-z0-9 #^&*_+\-=]+$/)` */
  predicate NamePattern(value: JsValue)
    ensures NamePattern(value) <==>
      value.Str? && value.s != "" && forall k :: 0 <= k < |value.s| ==> NameChar(value.s[k])
  {
    value.Str? && value.s != "" && AllInClass(value.s, NameChar)
  }

  /** `IsName(isFullName)`: both branches test the same pattern, so the flag makes no difference. */
  predicate IsName(isFullName: bool, value: JsValue)
    ensures IsName(isFullName, value) == NamePattern(value)
  {
    if isFullName then NamePattern(value) else NamePattern(value)
  }

  /**
   * `matches(value, /^[^${}<>]*$/)`: any string, the empty one included,
   * without `$`, `{`, `}`, `<` or `>`.
   */
  predicate IsDescription(value: JsValue)
    ensures IsDescription(value) <==> value.Str? && forall k :: 0 <= k < |value.s| ==> value.s[k] !in "${}<>"
  {
    value.Str? && AllInClass(value.s, DescriptionChar)
  }

  /** `IsAddress` tests the same pattern as `IsDescription`. */
  predicate IsAddress(value: JsValue)
    ensures IsAddress(value) == IsDescription(value)
  {
    value.Str? && AllInClass(value.s, DescriptionChar)
  }

  /** `matches(value, /^[A-Za-z0-9 .#^&*_+\-=]+$/)` */
  predicate IsFileName(value: JsValue)
    ensures IsFileName(value) <==>
      value.Str? && value.s != "" && forall k :: 0 <= k < |value.s| ==> FileNameChar(value.s[k])
  {
    value.Str? && value.s != "" && AllInClass(value.s, FileNameChar)
  }

  /**
   * `matches(value, /^[0-9a-fA-F-]{36}$/)`: any 36 characters from the hex
   * digits and `-`; no UUID layout is imposed.
   */
  predicate IsOfferingId(value: JsValue)
    ensures IsOfferingId(value) <==>
      value.Str? && |value.s| == 36 && forall k :: 0 <= k < |value.s| ==> OfferingIdChar(value.s[k])
  {
    value.Str? && |value.s| == 36 && AllInClass(value.s, OfferingIdChar)
  }

  /**
   * `IsNotBlank`: a string must keep something after trimming, that is, have
   * a character that is not whitespace; any other value passes.
   */
  predicate IsNotBlank(value: JsValue)
    ensures IsNotBlank(value) <==> !value.Str? || !AllWhitespace(value.s)
  {
    if value.Str? then TrimEmptyIffAllWhitespace(value.s); |Trim(value.s)| > 0 else true
  }

  /** The pattern validators refuse every value that is not a string. */
  lemma NonStringsFailPatterns(value: JsValue, isFullName: bool)
    requires !value.Str?
    ensures !IsEthAddress(value) && !IsName(isFullName, value) && !IsDescription(value)
    ensures !IsAddress(value) && !IsFileName(value) && !IsOfferingId(value)
  {
  }

  /**
   * An Ethereum address is `0x` followed by the hex text of 20 bytes, in
   * either case: exactly the texts whose tail the hex decoder turns into 20
   * bytes.
   */
  lemma EthAddressIffHexOf20Bytes(s: string)
    ensures IsEthAddress(Str(s)) <==>
      |s| == 42 && s[..2] == "0x" && Crypto.HexDecode(s[2..]).Some? && |Crypto.HexDecode(s[2..]).value| == 20
  {
    if |s| == 42 {
      var tail := s[2..];
      AllInClassIff(tail, HexChar);
      if AllInClass(tail, HexChar) {
        forall k | 0 <= k < |tail|
          ensures Crypto.HexValue(tail[k]) >= 0
        {
          assert HexChar(tail[k]);
        }
        Crypto.HexDecodeDefined(tail);
      }
      if Crypto.HexDecode(tail).Some? {
        Crypto.HexDecodeOnlyDigits(tail);
        forall k | 0 <= k < |tail|
          ensures HexChar(tail[k])
        {
          assert Crypto.HexValue(tail[k]) >= 0;
        }
      }
    }
  }

  /** The lower-case hex text of any 20 bytes, after `0x`, is an Ethereum address. */
  lemma EthAddressOfBytes(bytes: seq<Crypto.byte>)
    requires |bytes| == 20
    ensures IsEthAddress(Str("0x" + Crypto.HexEncode(bytes)))
  {
    var s := "0x" + Crypto.HexEncode(bytes);
    assert s[2..] == Crypto.HexEncode(bytes);
    Crypto.HexRoundTrip(bytes);
    EthAddressIffHexOf20Bytes(s);
  }

  /** A name is a file name without a dot, and conversely. */
  lemma {:induction false} NameIffFileNameWithoutDot(s: string, isFullName: bool)
    ensures IsName(isFullName, Str(s)) <==> IsFileName(Str(s)) && '.' !in s
  {
    AllInClassIff(s, NameChar);
    AllInClassIff(s, FileNameChar);
    if IsFileName(Str(s)) && '.' !in s {
      forall k | 0 <= k < |s|
        ensures NameChar(s[k])
      {
        assert FileNameChar(s[k]) && s[k] != '.';
      }
    }
    if IsName(isFullName, Str(s)) {
      forall k | 0 <= k < |s|
        ensures FileNameChar(s[k]) && s[k] != '.'
      {
        assert NameChar(s[k]);
      }
    }
  }

  /** Every accepted name or file name is also an accepted description. */
  lemma {:induction false} FileNameIsDescription(s: string)
    requires IsFileName(Str(s))
    ensures IsDescription(Str(s)) && IsAddress(Str(s))
  {
    AllInClassIff(s, FileNameChar);
    AllInClassIff(s, DescriptionChar);
    forall k | 0 <= k < |s|
      ensures DescriptionChar(s[k])
    {
      assert FileNameChar(s[k]);
    }
  }

  /** Thirty-six hyphens pass as an offering id. */
  lemma {:induction false} AllDashesOfferingId()
    ensures IsOfferingId(Str(seq(36, _ => '-')))
  {
    var s := seq(36, _ => '-');
    assert forall k :: 0 <= k < |s| ==> OfferingIdChar(s[k]);
  }

  // Postal codes

  /**
   * What `IsPostalCodeOf` takes from class-validator: `isISO31661Alpha2` on
   * a string and `isPostalCode(value, locale)`.
   */
  datatype PostalChecks = PostalChecks(isAlpha2: string -> bool, isPostalCode: (JsValue, string) -> bool)

  /** `['AX']`: the country code the postal-code check does not support. */
  const UNSUPPORTED: string := "AX"

  /**
   * The locale handed to `isPostalCode`: the mapping sends exactly `AX` to
   * `FI`; a code still `AX` when upper-cased is unsupported and becomes
   * `any`; anything else is passed on.
   */
  function PostalLocale(countryCode: string): (locale: string)
    ensures countryCode == UNSUPPORTED ==> locale == "FI"
    ensures countryCode != UNSUPPORTED && Upper(countryCode) == UNSUPPORTED ==> locale == "any"
    ensures Upper(countryCode) != UNSUPPORTED ==> locale == countryCode
  {
    var iso := if countryCode == UNSUPPORTED then "FI" else countryCode;
    if Upper(iso) == UNSUPPORTED then "any" else iso
  }

  /**
   * `IsPostalCodeOf(property)`: the country code read from the object must
   * be a valid ISO 3166-1 alpha-2 string, and the value must be a postal
   * code of its locale.
   */
  predicate IsPostalCodeOf(checks: PostalChecks, value: JsValue, countryCode: JsValue)
    ensures IsPostalCodeOf(checks, value, countryCode) ==> countryCode.Str? && checks.isAlpha2(countryCode.s)
    ensures countryCode.Str? && Upper(countryCode.s) != UNSUPPORTED ==>
      (IsPostalCodeOf(checks, value, countryCode) <==>
         checks.isAlpha2(countryCode.s) && checks.isPostalCode(value, countryCode.s))
  {
    && countryCode.Str?
    && checks.isAlpha2(countryCode.s)
    && checks.isPostalCode(value, PostalLocale(countryCode.s))
  }

  /** An invalid or non-string country code fails whatever the value. */
  lemma InvalidCountryFails(checks: PostalChecks, value: JsValue, countryCode: JsValue)
    requires !countryCode.Str? || !checks.isAlpha2(countryCode.s)
    ensures !IsPostalCodeOf(checks, value, countryCode)
  {
  }

  /** The unsupported code never reaches the postal-code check, in any case. */
  lemma {:induction false} UnsupportedNeverPassedOn(countryCode: string)
    ensures Upper(PostalLocale(countryCode)) != UNSUPPORTED
  {
    var locale := PostalLocale(countryCode);
    if countryCode == UNSUPPORTED {
      assert locale == "FI";
      assert Upper("FI")[0] == 'F';
    } else if Upper(countryCode) == UNSUPPORTED {
      assert locale == "any";
      assert Upper("any")[0] == 'A' && Upper("any")[1] == 'N';
    }
  }

  /** Åland (`AX`) postal codes are checked as Finnish ones; `ax` is checked against any locale. */
  lemma AlandMapping(checks: PostalChecks, value: JsValue)
    requires checks.isAlpha2("AX") && checks.isAlpha2("ax")
    ensures IsPostalCodeOf(checks, value, Str("AX")) == checks.isPostalCode(value, "FI")
    ensures IsPostalCodeOf(checks, value, Str("ax")) == checks.isPostalCode(value, "any")
  {
    assert Upper("ax") == "AX";
  }

  // Date of birth

  const DEFAULT_MIN_AGE: int := 18

  /** `(y1, m1, d1)` is later than `(y2, m2, d2)` in calendar order. */
  predicate After(y1: int, m1: int, d1: int, y2: int, m2: int, d2: int) {
    y1 > y2 || (y1 == y2 && (m1 > m2 || (m1 == m2 && d1 > d2)))
  }

  /**
   * The age on `today` of someone born on `birth`: the difference of the
   * years, one less when this year's birthday is still to come.
   */
  function AgeOn(birth: JsValue, today: JsValue): (age: int)
    requires birth.Date? && today.Date?
    ensures today.year - birth.year - 1 <= age <= today.year - birth.year
    ensures age == today.year - birth.year <==>
      !After(today.year, birth.month, birth.day, today.year, today.month, today.day)
  {
    var age := today.year - birth.year;
    var m := today.month - birth.month;
    if m < 0 || (m == 0 && today.day < birth.day) then age - 1 else age
  }

  /**
   * `IsDateOfBirth(minAge)`: the value must be a Date, not after today, and
   * the age on today at least `minAge` (18 when not given).
   */
  predicate IsDateOfBirth(minAge: Option<int>, value: JsValue, today: JsValue)
    requires today.Date?
    ensures !value.Date? ==> !IsDateOfBirth(minAge, value, today)
    ensures value.Date? && After(value.year, value.month, value.day, today.year, today.month, today.day) ==>
      !IsDateOfBirth(minAge, value, today)
    ensures value.Date? && !After(value.year, value.month, value.day, today.year, today.month, today.day) ==>
      (IsDateOfBirth(minAge, value, today) <==> AgeOn(value, today) >= minAge.GetOr(DEFAULT_MIN_AGE))
  {
    && value.Date?
    && !After(value.year, value.month, value.day, today.year, today.month, today.day)
    && AgeOn(value, today) >= minAge.GetOr(DEFAULT_MIN_AGE)
  }

  /**
   * The age rule, stated without counting: someone is at least `n` years old
   * exactly when their `n`-th birthday, in calendar order, is not after today.
   */
  lemma AgeAtLeastIffBirthdayReached(birth: JsValue, today: JsValue, n: int)
    requires birth.Date? && today.Date?
    ensures AgeOn(birth, today) >= n <==>
      !After(birth.year + n, birth.month, birth.day, today.year, today.month, today.day)
  {
  }

  /**
   * With a minimum age of zero or more, a date of birth is accepted exactly
   * when it is a Date whose `minAge`-th anniversary is not after today; the
   * future-date check is then implied by the age check.
   */
  lemma DateOfBirthIffAnniversaryReached(minAge: Option<int>, value: JsValue, today: JsValue)
    requires today.Date? && minAge.GetOr(DEFAULT_MIN_AGE) >= 0
    ensures IsDateOfBirth(minAge, value, today) <==>
      value.Date? &&
      !After(value.year + minAge.GetOr(DEFAULT_MIN_AGE), value.month, value.day, today.year, today.month, today.day)
  {
    if value.Date? {
      AgeAtLeastIffBirthdayReached(value, today, minAge.GetOr(DEFAULT_MIN_AGE));
    }
  }

  /** The eighteenth birthday itself is accepted under the default; the day before it is not. */
  lemma EighteenthBirthday(year: int, month: int, day: int)
    ensures IsDateOfBirth(None, Date(year - 18, month, day), Date(year, month, day))
    ensures !IsDateOfBirth(None, Date(year - 18, month, day + 1), Date(year, month, day))
  {
  }

  /** A date after today is refused whatever the minimum age. */
  lemma FutureDateRefused(minAge: Option<int>, value: JsValue, today: JsValue)
    requires today.Date? && value.Date?
    requires After(value.year, value.month, value.day, today.year, today.month, today.day)
    ensures !IsDateOfBirth(minAge, value, today)
  {
  }

  /** Anything that is not a Date is refused. */
  lemma NonDateRefused(minAge: Option<int>, value: JsValue, today: JsValue)
    requires today.Date? && !value.Date?
    ensures !IsDateOfBirth(minAge, value, today)
  {
  }
}
