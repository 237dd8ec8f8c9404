/** The field checks the places router runs before the create and update
    handlers (`check(..).not().isEmpty()` and `check(..).isLength({min: 5})`).

    The model reads the checked fields from the request body only. A title,
    description or address missing from every request location reads as the
    empty string, as the validator library reads the fields it checks.
    `isLength` (validator.js 13) counts code points -- which is what `|s|`
    counts on a Dafny string of Unicode scalar values -- minus the variation
    selectors U+FE0E and U+FE0F, which it does not count at all.
 */
module Validators {

  const MIN_DESCRIPTION := 5

  datatype PlaceInput = PlaceInput(title: string, description: string, address: string)

  predicate NonEmpty(field: string) {
    |field| > 0
  }

  const TEXT_SELECTOR: char := '\U{FE0E}'
  const EMOJI_SELECTOR: char := '\U{FE0F}'

  predicate IsVariationSelector(c: char) {
    c == TEXT_SELECTOR || c == EMOJI_SELECTOR
  }

  /** The length `isLength` measures: every code point except a variation
      selector. */
  function CountedLength(s: string): (n: nat)
    ensures n <= |s|
    ensures (forall i :: 0 <= i < |s| ==> !IsVariationSelector(s[i])) ==> n == |s|
  {
    if s == [] then 0
    else (if IsVariationSelector(s[0]) then 0 else 1) + CountedLength(s[1..])
  }

  /** The measure against an independent count: the number of code points less
      the number of occurrences of each selector. */
  lemma {:induction false} CountedLengthBySelectors(s: string)
    ensures CountedLength(s) == |s| - multiset(s)[TEXT_SELECTOR] - multiset(s)[EMOJI_SELECTOR]
    decreases |s|
  {
    if s != [] {
      assert s == [s[0]] + s[1..];
      CountedLengthBySelectors(s[1..]);
    }
  }

  /** The measure adds up over concatenation, so a selector anywhere in a
      string shortens it by one. */
  lemma {:induction false} CountedLengthAppend(a: string, b: string)
    ensures CountedLength(a + b) == CountedLength(a) + CountedLength(b)
    decreases |a|
  {
    if a == [] {
      assert a + b == b;
    } else {
      assert (a + b)[0] == a[0];
      assert (a + b)[1..] == a[1..] + b;
      CountedLengthAppend(a[1..], b);
    }
  }

  predicate LongEnough(description: string) {
    CountedLength(description) >= MIN_DESCRIPTION
  }

  /** Checks of `POST /`: title, description and address. */
  predicate CreateInputValid(input: PlaceInput) {
    NonEmpty(input.title) && LongEnough(input.description) && NonEmpty(input.address)
  }

  /** Checks of `PATCH /:pid`: title and description only. */
  predicate UpdateInputValid(title: string, description: string) {
    NonEmpty(title) && LongEnough(description)
  }

  /** Creation checks exactly what an update checks, plus the address. */
  lemma CreateIsUpdatePlusAddress(input: PlaceInput)
    ensures CreateInputValid(input) <==>
              UpdateInputValid(input.title, input.description) && input.address != ""
  {
  }

  /** The boundaries of the checks: four code points of description are too
      few, five are enough, a variation selector does not count towards the
      five, and an update never looks at the address. */
  lemma CheckBoundaries()
    ensures !UpdateInputValid("t", "abcd")
    ensures UpdateInputValid("t", "abcde")
    ensures !UpdateInputValid("t", "abcd\U{FE0F}")
    ensures !UpdateInputValid("", "abcde")
    ensures UpdateInputValid("t", "abcde") && !CreateInputValid(PlaceInput("t", "abcde", ""))
  {
  }
}
