/** The two standard-library parsers the cell classifier tries, `str::parse::<f64>` and
    `str::parse::<u64>`. Only which strings they accept is modelled for `f64` (not the
    float value); for `u64` the digit loop and its overflow checks are modelled too. */
module RustNumbers {
  import opened Wrappers
  import opened Strings

  /** Rust's `u64`. */
  newtype u64 = x: int | 0 <= x <= 0xFFFF_FFFF_FFFF_FFFF

  const U64_MAX: int := 0xFFFF_FFFF_FFFF_FFFF

  predicate IsDigit(c: char) { '0' <= c <= '9' }

  predicate AllDigits(s: string) { forall i :: 0 <= i < |s| ==> IsDigit(s[i]) }

  function DigitValue(c: char): (d: nat)
    requires IsDigit(c)
    ensures d < 10
  {
    c as int - '0' as int
  }

  function Pow10(n: nat): (p: nat)
    ensures p >= 1
  {
    if n == 0 then 1 else 10 * Pow10(n - 1)
  }

  /** The number a string of decimal digits denotes, most significant digit first. */
  function DecimalValue(ds: string): nat
    requires AllDigits(ds)
  {
    if ds == [] then 0 else DigitValue(ds[0]) * Pow10(|ds| - 1) + DecimalValue(ds[1..])
  }

  // ---------------------------------------------------------------- u64

  /** The digits of an unsigned literal: the text after an optional leading `+`. */
  function UnsignedDigits(s: string): string
  {
    if |s| > 0 && s[0] == '+' then s[1..] else s
  }

  /** An unsigned decimal literal: an optional `+`, then one or more ASCII digits. */
  predicate UnsignedSyntax(s: string)
  {
    |UnsignedDigits(s)| > 0 && AllDigits(UnsignedDigits(s))
  }

  /** The digit loop of `u64::from_str`: each step multiplies the running value by ten and
      adds the digit, failing on a non-digit or when the value would exceed `u64::MAX`. */
  function Accumulate(digits: string, acc: u64): (r: Option<u64>)
    ensures r.Some? ==> AllDigits(digits) && acc <= r.value
    decreases |digits|
  {
    if digits == [] then Some(acc)
    else if !IsDigit(digits[0]) then None
    else
      var next := acc as int * 10 + DigitValue(digits[0]);
      if next > U64_MAX then None else Accumulate(digits[1..], next as u64)
  }

  /** `<u64 as FromStr>::from_str`: empty input and a lone sign fail; a leading `+` is
      skipped; a leading `-` is an invalid digit for an unsigned type. */
  function ParseU64(s: string): (r: Option<u64>)
    ensures r.Some? ==> UnsignedSyntax(s) && r.value as int == DecimalValue(UnsignedDigits(s))
  {
    if |s| == 0 then None
    else if (s[0] == '+' || s[0] == '-') && |s| == 1 then None
    else
      var digits := if s[0] == '+' then s[1..] else s;
      AccumulateValue(digits, 0);
      Accumulate(digits, 0)
  }

  predicate ParsesU64(s: string) { ParseU64(s).Some? }

  lemma MulAtLeast(a: nat, b: nat)
    requires b >= 1
    ensures a * b >= a
  {
  }

  /** The digit loop computes `acc * 10^n + value(digits)`, and fails exactly when the digits
      are not all decimal or that number does not fit in a `u64`. */
  lemma {:induction false} AccumulateValue(digits: string, acc: u64)
    ensures Accumulate(digits, acc).Some? <==>
              AllDigits(digits) && acc as int * Pow10(|digits|) + DecimalValue(digits) <= U64_MAX
    ensures Accumulate(digits, acc).Some? ==>
              Accumulate(digits, acc).value as int == acc as int * Pow10(|digits|) + DecimalValue(digits)
    decreases |digits|
  {
    if digits != [] && IsDigit(digits[0]) {
      var n := |digits| - 1;
      var rest := digits[1..];
      var d := DigitValue(digits[0]);
      var next := acc as int * 10 + d;
      assert AllDigits(digits) <==> AllDigits(rest) by {
        assert forall i :: 0 <= i < |rest| ==> rest[i] == digits[i + 1];
      }
      assert Pow10(n + 1) == 10 * Pow10(n);
      assert acc as int * Pow10(n + 1) + d * Pow10(n) == next * Pow10(n);
      if next <= U64_MAX {
        AccumulateValue(rest, next as u64);
      } else if AllDigits(digits) {
        MulAtLeast(next, Pow10(n));
        assert acc as int * Pow10(|digits|) + DecimalValue(digits) == next * Pow10(n) + DecimalValue(rest);
      }
    }
  }

  /** `u64` parsing succeeds exactly on unsigned decimal literals whose value fits in 64 bits,
      and then yields that value. */
  lemma ParseU64Meaning(s: string)
    ensures ParsesU64(s) <==> UnsignedSyntax(s) && DecimalValue(UnsignedDigits(s)) <= U64_MAX
    ensures ParsesU64(s) ==> ParseU64(s).value as int == DecimalValue(UnsignedDigits(s))
  {
    if |s| > 0 && !((s[0] == '+' || s[0] == '-') && |s| == 1) {
      AccumulateValue(UnsignedDigits(s), 0);
    }
  }

  // ---------------------------------------------------------------- f64

  function LowerChar(c: char): char
  {
    if 'A' <= c <= 'Z' then (c as int + 32) as char else c
  }

  function AsciiLower(s: string): (t: string)
    ensures |t| == |s|
  {
    seq(|s|, i requires 0 <= i < |s| => LowerChar(s[i]))
  }

  /** The text after an optional leading `+` or `-`. */
  function StripSign(s: string): string
  {
    if |s| > 0 && (s[0] == '+' || s[0] == '-') then s[1..] else s
  }

  /** `Digit+ | Digit+ '.' Digit* | Digit* '.' Digit+`. */
  predicate MantissaSyntax(m: string)
  {
    var d := FindFirst(m, {'.'});
    if d == |m| then |m| > 0 && AllDigits(m)
    else |m| > 1 && AllDigits(m[..d]) && AllDigits(m[d + 1..])
  }

  /** The part of `Exp ::= 'e' Sign? Digit+` after the `e`. */
  predicate ExponentSyntax(x: string)
  {
    |StripSign(x)| > 0 && AllDigits(StripSign(x))
  }

  /** `Number ::= Mantissa Exp?` */
  predicate NumberSyntax(t: string)
  {
    var e := FindFirst(t, {'e', 'E'});
    MantissaSyntax(t[..e]) && (e == |t| || ExponentSyntax(t[e + 1..]))
  }

  /** Whether `<f64 as FromStr>::from_str` succeeds: the documented grammar
      `Sign? ('inf' | 'infinity' | 'nan' | Number)`, matched case-insensitively.
      Out-of-range numbers still parse (to infinity or zero), so there is no bound. */
  predicate ParsesF64(s: string)
    ensures ParsesF64(s) ==>
              AsciiLower(StripSign(s)) in {"inf", "infinity", "nan"} ||
              exists i :: 0 <= i < |s| && IsDigit(s[i])
  {
    var body := StripSign(s);
    NumberHasDigit(s);
    AsciiLower(body) in {"inf", "infinity", "nan"} || NumberSyntax(body)
  }

  /** A number literal holds at least one digit, before or after its `.`. */
  lemma NumberHasDigit(s: string)
    ensures NumberSyntax(StripSign(s)) ==> exists i :: 0 <= i < |s| && IsDigit(s[i])
  {
    var t := StripSign(s);
    var off := |s| - |t|;
    if NumberSyntax(t) {
      var m := t[..FindFirst(t, {'e', 'E'})];
      var d := FindFirst(m, {'.'});
      var j := if d > 0 then 0 else 1;
      assert IsDigit(m[j]);
      assert s[off + j] == t[j] == m[j];
    }
  }

  /** An unsigned decimal literal is also a float literal. */
  lemma UnsignedIsFloat(s: string)
    requires UnsignedSyntax(s)
    ensures ParsesF64(s)
  {
    var digits := UnsignedDigits(s);
    assert StripSign(s) == digits by {
      if s[0] != '+' { assert IsDigit(digits[0]); }
    }
    assert FindFirst(digits, {'e', 'E'}) == |digits|;
    assert digits[..|digits|] == digits;
    assert FindFirst(digits, {'.'}) == |digits|;
  }

  /** Whatever `u64` parsing accepts, `f64` parsing accepts too. */
  lemma U64ParseImpliesF64Parse(s: string)
    ensures ParsesU64(s) ==> ParsesF64(s)
  {
    ParseU64Meaning(s);
    if UnsignedSyntax(s) {
      UnsignedIsFloat(s);
    }
  }

  /** Sample literals: an explicit `+` is accepted by `u64`; a minus sign and the empty string are not. */
  lemma U64Examples()
    ensures ParseU64("+42") == Some(42)
    ensures ParseU64("-1") == None
    ensures ParseU64("") == None
  {
    assert "+42"[1..] == "42";
    assert "42"[1..] == "2";
    assert Accumulate("42", 0) == Accumulate("2", 4);
    assert Accumulate("2", 4) == Accumulate("", 42);
  }
}
