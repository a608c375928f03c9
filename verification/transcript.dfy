/** The transcript segment shared by the Whisper post-processing steps (voice
    activity filter, garbage blanking, realignment, GPT cleaning, translation
    request), and the rebuilt full `text` that every step writes back. */
module Transcript {
  import opened Text
  import opened Seqs

  /** One Whisper segment: `{id, start, end, text}` with times in seconds. */
  datatype Seg = Seg(id: int, start: real, end: real, text: string)

  function Texts(segs: seq<Seg>): (ts: seq<string>)
    ensures |ts| == |segs|
    ensures forall k :: 0 <= k < |segs| ==> ts[k] == segs[k].text
  {
    Map((s: Seg) => s.text, segs)
  }

  predicate NonEmpty(s: string) {
    s != []
  }

  lemma {:induction false} WordsSkipEmpty(xs: seq<string>)
    ensures Words(Filter(NonEmpty, xs)) == Words(xs)
  {
    if xs != [] {
      WordsSkipEmpty(xs[1..]);
      if xs[0] != [] {
        assert Filter(NonEmpty, xs) == [xs[0]] + Filter(NonEmpty, xs[1..]);
        assert Words([xs[0]] + Filter(NonEmpty, xs[1..])) == Split(xs[0]) + Words(Filter(NonEmpty, xs[1..]));
      } else {
        assert Filter(NonEmpty, xs) == Filter(NonEmpty, xs[1..]);
        assert Split(xs[0]) == [];
      }
    }
  }

  lemma WordsSkipEmptyAndStrip(xs: seq<string>)
    ensures Words(StripAll(Filter(NonEmpty, xs))) == Words(xs)
  {
    WordsStripAll(Filter(NonEmpty, xs));
    WordsSkipEmpty(xs);
  }

  /** `" ".join(seg["text"].strip() for seg in segments if seg.get("text"))`:
      the full transcript text holds exactly the words of the segments, in order. */
  function RebuildText(segs: seq<Seg>): (text: string)
    ensures Split(text) == Words(Texts(segs))
  {
    var parts := StripAll(Filter(NonEmpty, Texts(segs)));
    SplitJoin(parts);
    WordsSkipEmptyAndStrip(Texts(segs));
    Join(" ", parts)
  }
}
