/** `strtol` with base 10 (ISO C11, section 7.22.1.4), as xdd uses it to read the
    value of `-c`, and the decimal rendering it inverts. */
module StrConv {
  import opened CType

  /** What `strtol(s, &endptr, 10)` yields: the converted value and the index
      `endptr - s` at which the conversion stopped. */
  datatype Conversion = Conversion(value: int, end: nat)

  predicate AllSpaces(s: string) {
    forall k :: 0 <= k < |s| ==> IsSpaceChar(s[k])
  }

  predicate AllDigits(s: string) {
    forall k :: 0 <= k < |s| ==> IsDigitChar(s[k])
  }

  /** The end of the run of white space that starts at `i`. */
  function SkipSpaces(s: string, i: nat): (j: nat)
    requires i <= |s|
    ensures i <= j <= |s|
    ensures AllSpaces(s[i..j])
    ensures j == |s| || !IsSpaceChar(s[j])
    decreases |s| - i
  {
    if i < |s| && IsSpaceChar(s[i]) then SkipSpaces(s, i + 1) else i
  }

  /** The end of the run of decimal digits that starts at `i`. */
  function SkipDigits(s: string, i: nat): (j: nat)
    requires i <= |s|
    ensures i <= j <= |s|
    ensures AllDigits(s[i..j])
    ensures j == |s| || !IsDigitChar(s[j])
    decreases |s| - i
  {
    if i < |s| && IsDigitChar(s[i]) then SkipDigits(s, i + 1) else i
  }

  /** The value of a string of decimal digits, most significant first. */
  function DigitsValue(d: string): nat
    requires AllDigits(d)
  {
    if d == [] then 0 else DigitsValue(d[..|d| - 1]) * 10 + DigitValue(d[|d| - 1])
  }

  /** The optional sign of a numeral. */
  datatype Sign = NoSign | Plus | Minus

  function SignText(sign: Sign): string {
    match sign
    case NoSign => ""
    case Plus => "+"
    case Minus => "-"
  }

  /** The value a sign gives the digits that follow it. */
  function Signed(sign: Sign, magnitude: nat): int {
    if sign == Minus then 0 - magnitude else magnitude
  }

  /** The sign character at `i`, if there is one. */
  function SignAt(s: string, i: nat): (sign: Sign)
    requires i <= |s|
    ensures i + |SignText(sign)| <= |s| && SignText(sign) == s[i..i + |SignText(sign)|]
    ensures sign == NoSign <==> !(i < |s| && (s[i] == '+' || s[i] == '-'))
  {
    if i < |s| && s[i] == '+' then Plus
    else if i < |s| && s[i] == '-' then Minus
    else NoSign
  }

  /** `strtol(s, &endptr, 10)`: skip white space, take an optional sign, then the
      longest run of digits. With no digits there is no conversion: the value is 0
      and `endptr` is `s` itself. */
  function StrToL(s: string): (r: Conversion)
    ensures r.end <= |s|
    ensures r.end == 0 ==> r.value == 0
    ensures r.end > 0 ==> IsDigitChar(s[r.end - 1]) && (r.end == |s| || !IsDigitChar(s[r.end]))
  {
    var start := SkipSpaces(s, 0);
    var sign := SignAt(s, start);
    var first := start + |SignText(sign)|;
    var end := SkipDigits(s, first);
    if end == first then Conversion(0, 0)
    else Conversion(Signed(sign, DigitsValue(s[first..end])), end)
  }

  /** The decimal rendering of a natural number, without leading zeros. */
  function Decimal(n: nat): (s: string)
    ensures |s| > 0 && AllDigits(s)
    ensures DigitsValue(s) == n
    ensures s[0] != '-'
  {
    if n < 10 then [DigitChar(n)]
    else
      var s := Decimal(n / 10) + [DigitChar(n % 10)];
      assert s[..|s| - 1] == Decimal(n / 10);
      s
  }

  lemma {:induction false} SkipSpacesExact(s: string, i: nat, j: nat)
    requires i <= j <= |s|
    requires AllSpaces(s[i..j])
    requires j == |s| || !IsSpaceChar(s[j])
    ensures SkipSpaces(s, i) == j
    decreases j - i
  {
    if i < j {
      assert IsSpaceChar(s[i..j][0]);
      assert s[i + 1..j] == s[i..j][1..];
      SkipSpacesExact(s, i + 1, j);
    }
  }

  lemma {:induction false} SkipDigitsExact(s: string, i: nat, j: nat)
    requires i <= j <= |s|
    requires AllDigits(s[i..j])
    requires j == |s| || !IsDigitChar(s[j])
    ensures SkipDigits(s, i) == j
    decreases j - i
  {
    if i < j {
      assert IsDigitChar(s[i..j][0]);
      assert s[i + 1..j] == s[i..j][1..];
      SkipDigitsExact(s, i + 1, j);
    }
  }

  /** A token made of white space, an optional sign and a non-empty run of digits
      converts to the signed value of those digits, and the conversion stops right
      after the last digit, whatever non-digit text `rest` follows. */
  lemma StrToLOfNumeral(spaces: string, sign: Sign, digits: string, rest: string)
    requires AllSpaces(spaces)
    requires |digits| > 0 && AllDigits(digits)
    requires rest == [] || !IsDigitChar(rest[0])
    ensures StrToL(spaces + SignText(sign) + digits + rest)
         == Conversion(Signed(sign, DigitsValue(digits)), |spaces| + |SignText(sign)| + |digits|)
  {
    SkipSpacesOver(spaces, sign, digits, rest);
    SignAtOver(spaces, sign, digits, rest);
    SkipDigitsOver(spaces + SignText(sign), digits, rest);
    StrToLOfParts(spaces + SignText(sign) + digits + rest, |spaces|, sign, |spaces| + |SignText(sign)| + |digits|);
  }

  lemma SkipSpacesOver(spaces: string, sign: Sign, digits: string, rest: string)
    requires AllSpaces(spaces)
    requires |digits| > 0 && AllDigits(digits)
    ensures SkipSpaces(spaces + SignText(sign) + digits + rest, 0) == |spaces|
  {
    var tail := SignText(sign) + digits + rest;
    var s := spaces + tail;
    assert s == spaces + SignText(sign) + digits + rest;
    assert s[0..|spaces|] == spaces;
    assert s[|spaces|] == tail[0];
    assert tail[0] == if sign == NoSign then digits[0] else SignText(sign)[0];
    SkipSpacesExact(s, 0, |spaces|);
  }

  lemma SignAtOver(spaces: string, sign: Sign, digits: string, rest: string)
    requires |digits| > 0 && AllDigits(digits)
    ensures SignAt(spaces + SignText(sign) + digits + rest, |spaces|) == sign
  {
    var tail := SignText(sign) + digits + rest;
    var s := spaces + tail;
    assert s == spaces + SignText(sign) + digits + rest;
    assert s[|spaces|] == tail[0];
    assert tail[0] == if sign == NoSign then digits[0] else SignText(sign)[0];
  }

  lemma SkipDigitsOver(head: string, digits: string, rest: string)
    requires AllDigits(digits)
    requires rest == [] || !IsDigitChar(rest[0])
    ensures SkipDigits(head + digits + rest, |head|) == |head| + |digits|
    ensures (head + digits + rest)[|head|..|head| + |digits|] == digits
  {
    var s := head + digits + rest;
    var end := |head| + |digits|;
    assert s[|head|..end] == digits;
    assert end < |s| ==> s[end] == rest[0];
    SkipDigitsExact(s, |head|, end);
  }

  /** `StrToL` once the white space, the sign and the digits of `s` are located. */
  lemma StrToLOfParts(s: string, start: nat, sign: Sign, end: nat)
    requires start <= |s| && SkipSpaces(s, 0) == start && SignAt(s, start) == sign
    requires start + |SignText(sign)| < end <= |s|
    requires SkipDigits(s, start + |SignText(sign)|) == end
    ensures StrToL(s) == Conversion(Signed(sign, DigitsValue(s[start + |SignText(sign)|..end])), end)
  {
  }

  /** A token without any digit is not converted at all. */
  lemma StrToLWithoutDigits(s: string)
    requires forall k :: 0 <= k < |s| ==> !IsDigitChar(s[k])
    ensures StrToL(s) == Conversion(0, 0)
  {
  }

  /** The converse of `StrToLOfNumeral`: a conversion takes place only when the
      token starts with white space, an optional sign and at least one digit, and
      then the value is that of those digits. So a token with a digit that does not
      begin such a numeral, like `a1` or `+-1`, is not converted. */
  lemma StrToLConverted(s: string)
    requires StrToL(s).end > 0
    ensures exists k, m :: 0 <= k <= m < StrToL(s).end
              && AllSpaces(s[..k]) && s[k..m] in {"", "+", "-"}
              && AllDigits(s[m..StrToL(s).end])
              && StrToL(s).value == Signed(SignAt(s, k), DigitsValue(s[m..StrToL(s).end]))
  {
    var k := SkipSpaces(s, 0);
    var m := k + |SignText(SignAt(s, k))|;
    assert s[..k] == s[0..k];
    assert s[k..m] == SignText(SignAt(s, k));
  }

  /** Reading back a rendered number gives the number, and consumes the whole token. */
  lemma StrToLOfDecimal(n: nat)
    ensures StrToL(Decimal(n)) == Conversion(n, |Decimal(n)|)
  {
    StrToLOfNumeral("", NoSign, Decimal(n), "");
    assert "" + SignText(NoSign) + Decimal(n) + "" == Decimal(n);
  }
}
