/** Numbers in text: std::to_string, std::stoi and std::stoll. */
module Numbers {
  import opened Text

  const INT64_MAX := 0x7FFF_FFFF_FFFF_FFFF

  /** The value of a digit; 16 for a character that is none. */
  function DigitValue(c: char): (d: nat)
    ensures d <= 16
  {
    if '0' <= c <= '9' then c as int - '0' as int
    else if 'a' <= c <= 'f' then c as int - 'a' as int + 10
    else if 'A' <= c <= 'F' then c as int - 'A' as int + 10
    else 16
  }

  predicate IsNumeral(s: string, base: nat) {
    s != "" && forall i :: 0 <= i < |s| ==> DigitValue(s[i]) < base
  }

  function Value(s: string, base: nat): nat {
    if s == "" then 0 else Value(s[..|s| - 1], base) * base + DigitValue(s[|s| - 1])
  }

  /** std::to_string. */
  function Decimal(n: nat): (s: string)
    ensures IsNumeral(s, 10)
  {
    var last := [('0' as int + n % 10) as char];
    if n < 10 then last else Decimal(n / 10) + last
  }

  /** A decimal numeral without leading zeros. */
  predicate Canonical(s: string) {
    IsNumeral(s, 10) && (|s| > 1 ==> s[0] != '0')
  }

  predicate IsSpace(c: char) {
    c == ' ' || '\t' <= c <= '\r'
  }

  /** How many characters at the front of `s` are digits. */
  function DigitRun(s: string, base: nat): (n: nat)
    ensures n <= |s|
    ensures forall i :: 0 <= i < n ==> DigitValue(s[i]) < base
    ensures n < |s| ==> DigitValue(s[n]) >= base
  {
    if s == "" || DigitValue(s[0]) >= base then 0 else 1 + DigitRun(s[1..], base)
  }

  function SkipSpace(s: string): string {
    if s != "" && IsSpace(s[0]) then SkipSpace(s[1..]) else s
  }

  /** In base 16 the digits may follow a 0x. */
  predicate HexPrefixed(s: string) {
    |s| >= 3 && s[0] == '0' && (s[1] == 'x' || s[1] == 'X') && DigitValue(s[2]) < 16
  }

  /** The value of as many digits as there are. */
  function Magnitude(s: string, base: nat): Option<nat> {
    var digits := if base == 16 && HexPrefixed(s) then s[2..] else s;
    var n := DigitRun(digits, base);
    if n == 0 then None else Some(Value(digits[..n], base))
  }

  function Signed(negative: bool, magnitude: Option<nat>): Result<int> {
    match magnitude
    case None => Thrown
    case Some(m) =>
      if negative then (if m <= INT64_MAX + 1 then Ok(0 - m) else Thrown)
      else if m <= INT64_MAX then Ok(m)
      else Thrown
  }

  /** std::stoll: white space, a sign and a number; Thrown when there is no digit or it does not fit. */
  function Stoll(text: string, base: nat): Result<int> {
    var s := SkipSpace(text);
    if s != "" && (s[0] == '-' || s[0] == '+') then Signed(s[0] == '-', Magnitude(s[1..], base))
    else Signed(false, Magnitude(s, base))
  }

  lemma {:induction false} DecimalValue(n: nat)
    ensures Value(Decimal(n), 10) == n && Canonical(Decimal(n))
    ensures n > 0 ==> Decimal(n)[0] != '0'
  {
    var s := Decimal(n);
    if n >= 10 {
      DecimalValue(n / 10);
      assert s[..|s| - 1] == Decimal(n / 10);
      assert s[0] == Decimal(n / 10)[0];
    } else {
      assert s[..0] == "";
    }
  }

  lemma {:induction false} DecimalDigits(n: nat)
    ensures n < 10 ==> |Decimal(n)| == 1
    ensures n < 100 ==> |Decimal(n)| <= 2
    ensures n < 1000 ==> |Decimal(n)| <= 3
  {
    if n >= 10 {
      DecimalDigits(n / 10);
    }
  }

  /** to_string undoes the reading of a numeral exactly when it has no leading zero. */
  lemma {:induction false} DecimalOfValueIff(s: string)
    requires IsNumeral(s, 10)
    ensures Decimal(Value(s, 10)) == s <==> Canonical(s)
  {
    DecimalValue(Value(s, 10));
    if Canonical(s) {
      DecimalOfCanonical(s);
    }
  }

  lemma {:induction false} DecimalOfCanonical(s: string)
    requires Canonical(s)
    ensures Decimal(Value(s, 10)) == s && (s[0] != '0' ==> Value(s, 10) > 0)
  {
    var init, last := s[..|s| - 1], s[|s| - 1];
    assert init + [last] == s;
    assert ('0' as int + DigitValue(last)) as char == last;
    if init == "" {
      assert Value(init, 10) == 0;
    } else {
      DecimalOfCanonical(init);
      assert Value(s, 10) == 10 * Value(init, 10) + DigitValue(last);
      LastDigit(Value(init, 10), DigitValue(last));
      hide Value;
    }
  }

  lemma LastDigit(high: nat, low: nat)
    requires low < 10
    ensures (10 * high + low) / 10 == high && (10 * high + low) % 10 == low
  {
  }

  lemma DigitRunOfNumeral(s: string, base: nat, rest: string)
    requires IsNumeral(s, base) && (rest != "" ==> DigitValue(rest[0]) >= base)
    ensures DigitRun(s + rest, base) == |s| && (s + rest)[..|s|] == s
  {
    var text := s + rest;
    assert forall i :: 0 <= i < |s| ==> text[i] == s[i];
    assert rest != "" ==> text[|s|] == rest[0];
  }

  lemma SpaceSkipped(c: char, text: string, base: nat)
    requires IsSpace(c)
    ensures Stoll([c] + text, base) == Stoll(text, base)
  {
    assert ([c] + text)[1..] == text;
    assert SkipSpace([c] + text) == SkipSpace(text);
    hide SkipSpace, Magnitude, Signed;
  }

  /** A plain numeral, whatever follows it, is read at its value. */
  lemma StollOfNumeral(s: string, base: nat, rest: string)
    requires (base == 10 || base == 16) && IsNumeral(s, base)
    requires rest != "" ==> DigitValue(rest[0]) >= base && rest[0] != 'x' && rest[0] != 'X'
    ensures Stoll(s + rest, base) ==
      if Value(s, base) <= 9_223_372_036_854_775_807 then Ok(Value(s, base)) else Thrown
  {
    var text := s + rest;
    assert DigitValue(text[0]) < base && text[0] == s[0];
    assert SkipSpace(text) == text;
    assert !HexPrefixed(text) by {
      assert |s| > 1 ==> DigitValue(s[1]) < base && text[1] == s[1];
      assert |s| == 1 && rest != "" ==> text[1] == rest[0];
    }
    DigitRunOfNumeral(s, base, rest);
  }

  /** A sign in front of a numeral, and white space in front of that. */
  lemma StollOfSigned(s: string, rest: string)
    requires IsNumeral(s, 10) && Value(s, 10) <= INT64_MAX && (rest != "" ==> DigitValue(rest[0]) >= 10)
    ensures Stoll(['-'] + (s + rest), 10) == Ok(0 - Value(s, 10)) && Stoll(['+'] + (s + rest), 10) == Ok(Value(s, 10))
  {
    hide Value, IsNumeral, Magnitude, Stoll;
    MagnitudeOfNumeral(s, rest);
    StollOfSign('-', s + rest);
    StollOfSign('+', s + rest);
  }

  lemma StollOfSign(c: char, text: string)
    requires c == '-' || c == '+'
    ensures Stoll([c] + text, 10) == Signed(c == '-', Magnitude(text, 10))
  {
    hide Magnitude, Signed;
    assert ([c] + text)[1..] == text;
  }

  lemma MagnitudeOfNumeral(s: string, rest: string)
    requires IsNumeral(s, 10) && (rest != "" ==> DigitValue(rest[0]) >= 10)
    ensures Magnitude(s + rest, 10) == Some(Value(s, 10))
  {
    DigitRunOfNumeral(s, 10, rest);
    hide Value;
  }

  lemma StollSkipsSpace(c: char, text: string, base: nat)
    ensures c in " \t\n\r" ==> Stoll([c] + text, base) == Stoll(text, base)
  {
    hide Magnitude, Signed;
    assert ([c] + text)[1..] == text;
  }
}
