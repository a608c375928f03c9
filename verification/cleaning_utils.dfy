/** The Arabic "garbage" classifier applied to Whisper segment texts: a text
    is kept as speech only when it holds at least three characters from the
    Arabic Unicode blocks; interjections such as "اه" or "ممم" and stray
    letters of other scripts are dropped. */
module CleaningUtils {
  import opened Text
  import opened Seqs

  const MinArabicLetters: int := 3

  /** `is_arabic_letter`: the character lies in one of the blocks Arabic
      (U+0600..U+06FF), Arabic Supplement (U+0750..U+077F) or Arabic
      Extended-A (U+08A0..U+08FF). */
  predicate IsArabicLetter(c: char) {
    || ('\U{0600}' <= c <= '\U{06FF}')
    || ('\U{0750}' <= c <= '\U{077F}')
    || ('\U{08A0}' <= c <= '\U{08FF}')
  }

  /** No whitespace character is an Arabic letter, and no Latin or Cyrillic
      letter is either. */
  lemma OtherScriptsAreNotArabic(c: char)
    ensures IsSpace(c) ==> !IsArabicLetter(c)
    ensures c <= '\U{05FF}' ==> !IsArabicLetter(c)
    ensures '\U{0900}' <= c ==> !IsArabicLetter(c)
  {
  }

  /** The Arabic letters of a text, in order. */
  function ArabicLetters(t: string): (ls: string)
    ensures |ls| <= |t|
    ensures forall k :: 0 <= k < |ls| ==> IsArabicLetter(ls[k])
  {
    Filter(IsArabicLetter, t)
  }

  /** `is_garbage_arabic`: a blank text, or one with fewer than three Arabic
      letters once stripped. */
  predicate IsGarbageArabic(text: string) {
    var t := Strip(text);
    if t == [] then true else |ArabicLetters(t)| < MinArabicLetters
  }

  lemma NoArabicInBlank(s: string)
    requires Blank(s)
    ensures ArabicLetters(s) == []
  {
    forall k | 0 <= k < |s|
      ensures !IsArabicLetter(s[k])
    {
      OtherScriptsAreNotArabic(s[k]);
    }
    FilterNone(IsArabicLetter, s);
  }

  /** Stripping never removes an Arabic letter. */
  lemma StripKeepsArabic(text: string)
    ensures ArabicLetters(Strip(text)) == ArabicLetters(text)
  {
    if Blank(text) {
      NoArabicInBlank(text);
      FilterNone(IsArabicLetter, Strip(text));
    } else {
      var a := LeadingSpaces(text);
      var b := |text| - TrailingSpaces(text);
      assert text == text[..a] + text[a..b] + text[b..];
      FilterAppend(IsArabicLetter, text[..a] + text[a..b], text[b..]);
      FilterAppend(IsArabicLetter, text[..a], text[a..b]);
      NoArabicInBlank(text[..a]);
      NoArabicInBlank(text[b..]);
    }
  }

  /** Whether or not it is blank, a text is garbage exactly when it holds
      fewer than three Arabic letters in all. */
  lemma GarbageIffFewArabic(text: string)
    ensures IsGarbageArabic(text) <==> |ArabicLetters(text)| < MinArabicLetters
  {
    StripKeepsArabic(text);
  }
}
