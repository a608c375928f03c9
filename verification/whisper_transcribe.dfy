/** What the transcription step does to Whisper's segments once the speech
    recogniser has answered: blank the voice-less ones (voice-activity
    filter), blank the Arabic "garbage", cut the leading blank segments off
    and move the timeline so that it starts at the first voiced segment,
    rebuild the full text, and hand the result to the GPT cleaner. */
module WhisperTranscribe {
  import opened Results
  import opened Numeric
  import opened Text
  import opened Transcript
  import opened CleaningUtils
  import opened VadFilter
  import opened GptCleaner

  /** Segment text with something other than whitespace in it. */
  predicate Voiced(s: Seg) {
    !Blank(s.text)
  }

  /** The first voiced segment, if any. */
  function FirstVoiced(segs: seq<Seg>): (r: Option<nat>)
    ensures r.Some? ==> r.value < |segs| && Voiced(segs[r.value])
    ensures r.Some? ==> forall k :: 0 <= k < r.value ==> !Voiced(segs[k])
    ensures r.None? ==> forall k :: 0 <= k < |segs| ==> !Voiced(segs[k])
  {
    if segs == [] then None
    else if Voiced(segs[0]) then Some(0)
    else match FirstVoiced(segs[1..]) {
      case None => None
      case Some(i) => Some(i + 1)
    }
  }

  /** One segment moved `offset` seconds earlier, clamped so that it starts no
      earlier than zero and ends no earlier than it starts. */
  function ShiftBack(s: Seg, offset: real): (r: Seg)
    ensures r.id == s.id && r.text == s.text
    ensures r.start >= 0.0 && r.end >= r.start
    ensures s.start >= offset ==> r.start == s.start - offset
    ensures s.start >= offset && s.end >= s.start ==> r.end - r.start == s.end - s.start
  {
    var start := MaxReal(s.start - offset, 0.0);
    s.(start := start, end := MaxReal(s.end - offset, start))
  }

  /** `_align_segments_to_first_voice`: drop the leading blank segments and,
      when the first voiced one starts after zero, move every remaining
      segment back by its start. With no voiced segment at all the input is
      returned as it is. */
  function AlignToFirstVoice(segs: seq<Seg>): (r: seq<Seg>)
    ensures segs == [] ==> r == []
    ensures FirstVoiced(segs).None? ==> r == segs
    ensures FirstVoiced(segs).Some? ==>
              var i := FirstVoiced(segs).value;
              var offset := segs[i].start;
              && |r| == |segs| - i
              && Voiced(r[0])
              && (forall k :: 0 <= k < |r| ==> r[k].id == segs[i + k].id && r[k].text == segs[i + k].text)
              && (offset <= 0.0 ==> r == segs[i..])
              && (offset > 0.0 ==> r[0].start == 0.0 && forall k :: 0 <= k < |r| ==> r[k] == ShiftBack(segs[i + k], offset))
  {
    if segs == [] then []
    else match FirstVoiced(segs) {
      case None => segs
      case Some(i) =>
        var trimmed := segs[i..];
        var offset := trimmed[0].start;
        if offset <= 0.0 then trimmed
        else seq(|trimmed|, k requires 0 <= k < |trimmed| => ShiftBack(trimmed[k], offset))
    }
  }

  /** When the timeline is moved, no segment starts before zero and every
      segment ends no earlier than it starts, whatever the input times were. */
  lemma AlignedTimesOrdered(segs: seq<Seg>)
    requires FirstVoiced(segs).Some?
    requires var i := FirstVoiced(segs).value;
             segs[i].start > 0.0
    ensures var r := AlignToFirstVoice(segs);
            forall k :: 0 <= k < |r| ==> 0.0 <= r[k].start <= r[k].end
  {
  }

  /** The garbage pass: every segment kept, in order, its text emptied when
      it is Arabic garbage. */
  function BlankGarbage(segs: seq<Seg>): (r: seq<Seg>)
    ensures |r| == |segs|
    ensures forall k :: 0 <= k < |segs| ==>
              r[k].id == segs[k].id && r[k].start == segs[k].start && r[k].end == segs[k].end
    ensures forall k :: 0 <= k < |segs| ==> r[k].text == segs[k].text || r[k].text == ""
  {
    seq(|segs|, k requires 0 <= k < |segs| =>
      if IsGarbageArabic(segs[k].text) then segs[k].(text := "") else segs[k])
  }

  /** After the garbage pass, every text that is still there has at least
      three Arabic letters, and every text that had them is still there. */
  lemma BlankGarbageKeepsArabic(segs: seq<Seg>, k: int)
    requires 0 <= k < |segs|
    ensures var r := BlankGarbage(segs);
            && (r[k].text != "" ==> |ArabicLetters(r[k].text)| >= MinArabicLetters)
            && (|ArabicLetters(segs[k].text)| >= MinArabicLetters ==> r[k].text == segs[k].text)
  {
    GarbageIffFewArabic(segs[k].text);
    GarbageIffFewArabic("");
  }

  /** A second garbage pass changes nothing: what the first one kept has
      enough Arabic letters and what it blanked is blank. */
  lemma BlankGarbageIdempotent(segs: seq<Seg>)
    ensures BlankGarbage(BlankGarbage(segs)) == BlankGarbage(segs)
  {
  }

  /** Aligning an aligned transcript again changes nothing: it already starts
      with a voiced segment at or before zero. */
  lemma AlignIdempotent(segs: seq<Seg>)
    ensures AlignToFirstVoice(AlignToFirstVoice(segs)) == AlignToFirstVoice(segs)
  {
  }

  /** The post-processing of `whisper_transcribe`: voice-activity filter,
      garbage pass, realignment, rebuilt text, GPT cleaning. */
  method PostProcess<B>(v: Vad, segs: seq<Seg>, sliceOf: (int, int) -> seq<B>, isSpeech: seq<B> -> bool,
                        gpt: seq<Seg> -> Reply) returns (aligned: Doc, r: Result<Doc, CleanError>)
    requires Valid(v)
    ensures |aligned.segments| <= |segs|
    ensures forall k :: 0 <= k < |aligned.segments| ==>
              aligned.segments[k].text == "" || |ArabicLetters(aligned.segments[k].text)| >= MinArabicLetters
    ensures Split(aligned.text) == Words(Texts(aligned.segments))
    ensures aligned.segments == [] ==> r == Ok(aligned)
    ensures r.Ok? && aligned.segments != [] ==>
              && SameFrame(r.value.segments, aligned.segments)
              && Split(r.value.text) == Words(Texts(r.value.segments))
  {
    var heard := FilterSegments(v, segs, sliceOf, isSpeech);
    var cleaned := BlankGarbage(heard);
    forall k | 0 <= k < |cleaned|
      ensures cleaned[k].text == "" || |ArabicLetters(cleaned[k].text)| >= MinArabicLetters
    {
      BlankGarbageKeepsArabic(heard, k);
    }
    var segments := AlignToFirstVoice(cleaned);
    aligned := Doc(segments, RebuildText(segments));
    r := CleanSegmentsWithGpt(aligned, gpt);
  }
}
