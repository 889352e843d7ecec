/** Strings and numerals as the Go library functions used by the processors treat them. */
module Numerals {
  import opened Wrappers

  predicate HasPrefix(s: string, prefix: string) {
    prefix <= s
  }

  function TrimPrefix(s: string, prefix: string): string {
    if prefix <= s then s[|prefix|..] else s
  }

  /** ASCII case folding. */
  function LowerChar(c: char): char {
    if 'A' <= c <= 'Z' then (c as int + 32) as char else c
  }

  function ToLower(s: string): (r: string)
    ensures |r| == |s| && forall i | 0 <= i < |s| :: r[i] == LowerChar(s[i])
  {
    seq(|s|, i requires 0 <= i < |s| => LowerChar(s[i]))
  }

  /** The value of a digit in bases up to 16, in either case; 16 for any other character. */
  function DigitValue(c: char): nat {
    if '0' <= c <= '9' then c as int - '0' as int
    else if 'a' <= c <= 'f' then c as int - 'a' as int + 10
    else if 'A' <= c <= 'F' then c as int - 'A' as int + 10
    else 16
  }

  function DigitChar(d: nat): (c: char)
    requires d < 16
    ensures DigitValue(c) == d && LowerChar(c) == c
  {
    if d < 10 then ('0' as int + d) as char else ('a' as int + d - 10) as char
  }

  predicate IsLowerHex(c: char) {
    '0' <= c <= '9' || 'a' <= c <= 'f'
  }

  predicate AllLowerHex(s: string) {
    forall i | 0 <= i < |s| :: IsLowerHex(s[i])
  }

  predicate AllDigits(s: string, base: nat) {
    forall i | 0 <= i < |s| :: DigitValue(s[i]) < base
  }

  /** The natural number a digit string denotes. */
  function Value(s: string, base: nat): nat {
    if s == "" then 0 else Value(s[..|s| - 1], base) * base + DigitValue(s[|s| - 1])
  }

  /** The canonical digit string of a number: lower case, no leading zero. */
  function Digits(n: nat, base: nat): string
    requires base == 10 || base == 16
  {
    if n < base then [DigitChar(n)]
    else if base == 10 then Digits(n / 10, 10) + [DigitChar(n % 10)]
    else Digits(n / 16, 16) + [DigitChar(n % 16)]
  }

  lemma {:induction false} DigitsDenote(n: nat, base: nat)
    requires base == 10 || base == 16
    ensures Value(Digits(n, base), base) == n && Digits(n, base) != ""
  {
    hide Value;
    if n < base {
      ValueSnoc("", DigitChar(n), base);
      EmptyValue(base);
      assert "" + [DigitChar(n)] == [DigitChar(n)];
    } else if base == 10 {
      DigitsDenote(n / 10, 10);
      ValueSnoc(Digits(n / 10, 10), DigitChar(n % 10), 10);
    } else {
      DigitsDenote(n / 16, 16);
      ValueSnoc(Digits(n / 16, 16), DigitChar(n % 16), 16);
    }
  }

  lemma EmptyValue(base: nat)
    ensures Value("", base) == 0
  {
  }

  lemma ValueSnoc(s: string, c: char, base: nat)
    ensures Value(s + [c], base) == Value(s, base) * base + DigitValue(c)
  {
    assert (s + [c])[..|s|] == s;
  }

  lemma {:induction false} DigitsAreDigits(n: nat, base: nat)
    requires base == 10 || base == 16
    ensures AllDigits(Digits(n, base), base) && AllLowerHex(Digits(n, base))
  {
    if n < base {
    } else if base == 10 {
      DigitsAreDigits(n / 10, 10);
    } else {
      DigitsAreDigits(n / 16, 16);
    }
  }

  /** Only zero is printed with a leading zero. */
  lemma {:induction false} DigitsLead(n: nat, base: nat)
    requires base == 10 || base == 16
    ensures Digits(n, base) != "" && (Digits(n, base)[0] == '0' <==> n == 0)
  {
    if n >= base {
      if base == 10 { DigitsLead(n / 10, 10); } else { DigitsLead(n / 16, 16); }
    }
  }

  lemma {:induction false} LowerKeepsValue(s: string)
    ensures Value(ToLower(s), 16) == Value(s, 16)
    ensures AllLowerHex(ToLower(s)) <==> AllDigits(s, 16)
  {
    if s != "" {
      var t := ToLower(s);
      assert t[..|t| - 1] == ToLower(s[..|s| - 1]);
      LowerKeepsValue(s[..|s| - 1]);
      assert forall i | 0 <= i < |s| :: IsLowerHex(t[i]) <==> DigitValue(s[i]) < 16;
    }
  }

  /** Lower-case digit strings of one length denote the same number only if they are equal. */
  lemma {:induction false} ValueInjective(s: string, t: string)
    requires |s| == |t| && AllLowerHex(s) && AllLowerHex(t) && Value(s, 16) == Value(t, 16)
    ensures s == t
  {
    if s != "" {
      var a, b := s[..|s| - 1], t[..|t| - 1];
      var x, y := s[|s| - 1], t[|t| - 1];
      assert IsLowerHex(x) && IsLowerHex(y);
      assert Value(a, 16) == Value(b, 16) && DigitValue(x) == DigitValue(y);
      ValueInjective(a, b);
      assert x == y && s == a + [x] && t == b + [y];
    }
  }

  /** An optional sign and at least one digit, as big.Int.SetString with an explicit base reads it. */
  function ParseSigned(s: string, base: nat): Option<int> {
    var negative := HasPrefix(s, "-");
    var digits := if negative || HasPrefix(s, "+") then s[1..] else s;
    if digits == "" || !AllDigits(digits, base) then None
    else Some(if negative then -(Value(digits, base) as int) else Value(digits, base))
  }

  /** strconv.ParseInt with 64 bits. */
  function ParseInt64(s: string, base: nat): Option<int> {
    match ParseSigned(s, base)
    case Some(n) => if -0x8000_0000_0000_0000 <= n < 0x8000_0000_0000_0000 then Some(n) else None
    case None => None
  }

  /** strconv.ParseUint with 64 bits: no sign. */
  function ParseUint64(s: string, base: nat): Option<nat> {
    if s == "" || !AllDigits(s, base) || Value(s, base) >= 0x1_0000_0000_0000_0000 then None else Some(Value(s, base))
  }

  /** big.Int.String. */
  function DecimalString(n: int): string {
    if n < 0 then "-" + Digits(-n, 10) else Digits(n, 10)
  }

  /** Printing in decimal loses nothing. */
  lemma DecimalRoundTrip(n: int)
    ensures ParseSigned(DecimalString(n), 10) == Some(n)
  {
    var digits := Digits(if n < 0 then -n else n, 10);
    DigitsDenote(if n < 0 then -n else n, 10);
    DigitsAreDigits(if n < 0 then -n else n, 10);
    assert DigitValue(digits[0]) < 10;
    if n < 0 { assert ("-" + digits)[1..] == digits; }
  }
}
