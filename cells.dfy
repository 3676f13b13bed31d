/** The content of one cell and the classifier `matcher` that types it. */
module Cells {
  import opened Wrappers
  import opened Strings
  import opened RustNumbers

  /** `OutType`: a cell is text, an unsigned integer or a float. The float's value is not
      modelled: `F64` carries the literal it was parsed from. */
  datatype OutType = Str(text: string) | U64(number: u64) | F64(literal: string)

  /** `OutType::default()`: the value an empty cell is classified as. */
  function Default(): (r: OutType)
    ensures r == Matcher("")
  {
    assert FindFirst("", {'.'}) == 0;
    Str("")
  }

  /** `matcher`: try `f64` first, then `u64`, and otherwise keep the text. Since whatever
      `u64` parsing accepts `f64` parsing accepts too, there are in effect two outcomes,
      and neither loses the cell's text. */
  function Matcher(element: string): (r: OutType)
    ensures r == if ParsesF64(element) then F64(element) else Str(element)
  {
    U64ParseImpliesF64Parse(element);
    if ParsesF64(element) then F64(element)
    else match ParseU64(element)
      case Some(n) => U64(n)
      case None => Str(element)
  }

  /** A float literal is classified as `F64` whatever else it might parse as. */
  lemma MatcherFloatFirst(element: string)
    ensures ParsesF64(element) <==> Matcher(element).F64?
    ensures Matcher(element).F64? ==> Matcher(element).literal == element
  {
  }

  /** `U64` would need `u64` parsing to succeed where `f64` parsing failed, which never
      happens: no cell is ever classified as `U64`. */
  lemma MatcherNeverU64(element: string)
    ensures Matcher(element).U64? ==> !ParsesF64(element) && ParsesU64(element)
    ensures !Matcher(element).U64?
  {
    U64ParseImpliesF64Parse(element);
  }

  /** What is neither number stays the same text. */
  lemma MatcherTextFallback(element: string)
    ensures Matcher(element).Str? <==> !ParsesF64(element) && !ParsesU64(element)
    ensures Matcher(element).Str? ==> Matcher(element).text == element
  {
  }

  /** An empty cell is empty text, the same value as `OutType::default()`. */
  lemma EmptyCellIsDefault()
    ensures Default() == Str("")
    ensures Matcher("") == Default()
  {
  }

  /** Integer literals, with or without a sign, are classified as floats. */
  lemma IntegersAreFloats(digits: string)
    requires |digits| > 0 && AllDigits(digits)
    ensures Matcher(digits) == F64(digits)
    ensures Matcher("+" + digits) == F64("+" + digits)
    ensures Matcher("-" + digits) == F64("-" + digits)
  {
    assert UnsignedDigits("+" + digits) == digits;
    UnsignedIsFloat(digits);
    UnsignedIsFloat("+" + digits);
    assert StripSign("-" + digits) == StripSign("+" + digits);
  }

  /** A cell that starts with a character no number can start with (anything but a digit,
      a sign, `.`, or the first letter of `inf` or `nan`) is text. */
  lemma WordsAreText(element: string)
    requires |element| > 0
    requires var c := element[0];
             !IsDigit(c) && c !in {'+', '-', '.', 'i', 'I', 'n', 'N'}
    ensures Matcher(element) == Str(element)
  {
    var c := element[0];
    assert StripSign(element) == element;
    assert AsciiLower(element)[0] == LowerChar(c);
    assert AsciiLower(element) !in {"inf", "infinity", "nan"} by {
      assert LowerChar(c) !in {'i', 'n'};
    }
    var e := FindFirst(element, {'e', 'E'});
    if e > 0 {
      var mantissa := element[..e];
      assert mantissa[0] == c;
      assert FindFirst(mantissa, {'.'}) > 0;
      assert !AllDigits(mantissa[..FindFirst(mantissa, {'.'})]) by {
        assert mantissa[..FindFirst(mantissa, {'.'})][0] == c;
      }
    }
    assert !ParsesF64(element);
    assert ParseU64(element) == None;
  }
}
