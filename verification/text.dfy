/**
 Kotlin's `String.isBlank`: a string is blank when every one of its
 characters is whitespace, which includes the empty string. Which characters
 count as whitespace is left abstract: every member takes the classifier as a
 parameter `isWhitespace`, so every property proved here holds for any
 classifier.
 */
module Text {

  /** The meaning of `isBlank`: no character of `s` is outside the whitespace class. */
  ghost predicate AllWhitespace(s: string, isWhitespace: char -> bool) {
    forall i :: 0 <= i < |s| ==> isWhitespace(s[i])
  }

  /** `isBlank`, computed by a scan from the front. */
  function IsBlank(s: string, isWhitespace: char -> bool): (b: bool)
    ensures b <==> AllWhitespace(s, isWhitespace)
    ensures |s| == 0 ==> b
    decreases |s|
  {
    if |s| == 0 then true
    else if !isWhitespace(s[0]) then false
    else
      var rest := IsBlank(s[1..], isWhitespace);
      assert forall k :: 0 <= k < |s| - 1 ==> s[1..][k] == s[k + 1];
      rest
  }

  /** One character outside the whitespace class anywhere in `s` makes it non-blank. */
  lemma NotBlankAt(s: string, isWhitespace: char -> bool, i: nat)
    requires i < |s| && !isWhitespace(s[i])
    ensures !IsBlank(s, isWhitespace)
  {
  }
}
