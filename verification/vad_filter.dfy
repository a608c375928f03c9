/** The voice-activity filter run over Whisper segments: the detector's
    parameter checks, the cutting of a segment's audio into whole frames, the
    three-rule "is there speech here" decision over the frames' speech flags,
    and the pass that blanks the text of segments judged silent.

    The WebRTC `is_speech` call is an oracle: the model takes, for every
    millisecond slice, the flags it would produce. */
module VadFilter {
  import opened Results
  import opened Numeric
  import opened Seqs
  import opened Transcript

  /** Why the detector refuses its parameters. */
  datatype VadError = BadAggressiveness | BadSampleRate | BadFrameMs

  /** The detector's settings after construction. */
  datatype Vad = Vad(
    sampleRate: int,
    frameMs: int,
    minVoicedRatio: real,
    minVoicedFrames: int,
    windowFrames: int,
    localizedRatio: real,
    trailingRatio: real,
    trailingStart: real)

  predicate ValidSampleRate(rate: int) {
    rate == 8000 || rate == 16000 || rate == 32000 || rate == 48000
  }

  predicate ValidFrameMs(ms: int) {
    ms == 10 || ms == 20 || ms == 30
  }

  /** `VoiceActivityDetector.__init__`: the three parameter checks in order,
      then the window clamped to at least one frame and the trailing start
      clamped into [0, 1]. */
  function NewVad(aggressiveness: int, sampleRate: int, frameMs: int,
                  minVoicedRatio: real, minVoicedFrames: int, windowFrames: int,
                  localizedRatio: real, trailingRatio: real, trailingStart: real): (r: Result<Vad, VadError>)
    ensures r.Ok? <==> 0 <= aggressiveness <= 3 && ValidSampleRate(sampleRate) && ValidFrameMs(frameMs)
    ensures !(0 <= aggressiveness <= 3) ==> r == Err(BadAggressiveness)
    ensures 0 <= aggressiveness <= 3 && !ValidSampleRate(sampleRate) ==> r == Err(BadSampleRate)
    ensures r.Ok? ==> && r.value.sampleRate == sampleRate && r.value.frameMs == frameMs
                      && r.value.minVoicedRatio == minVoicedRatio
                      && r.value.minVoicedFrames == minVoicedFrames
                      && r.value.localizedRatio == localizedRatio
                      && r.value.trailingRatio == trailingRatio
    ensures 0 <= aggressiveness <= 3 && ValidSampleRate(sampleRate) && !ValidFrameMs(frameMs) ==> r == Err(BadFrameMs)
    ensures r.Ok? ==> r.value.windowFrames >= 1 && r.value.windowFrames >= windowFrames
    ensures r.Ok? && windowFrames >= 1 ==> r.value.windowFrames == windowFrames
    ensures r.Ok? && windowFrames < 1 ==> r.value.windowFrames == 1
    ensures r.Ok? ==> 0.0 <= r.value.trailingStart <= 1.0
    ensures r.Ok? && 0.0 <= trailingStart <= 1.0 ==> r.value.trailingStart == trailingStart
    ensures r.Ok? && trailingStart < 0.0 ==> r.value.trailingStart == 0.0
    ensures r.Ok? && trailingStart > 1.0 ==> r.value.trailingStart == 1.0
  {
    if aggressiveness < 0 || aggressiveness > 3 then Err(BadAggressiveness)
    else if !ValidSampleRate(sampleRate) then Err(BadSampleRate)
    else if !ValidFrameMs(frameMs) then Err(BadFrameMs)
    else Ok(Vad(sampleRate, frameMs, minVoicedRatio, minVoicedFrames, MaxInt(windowFrames, 1),
                localizedRatio, trailingRatio, MinReal(MaxReal(trailingStart, 0.0), 1.0)))
  }

  /** The settings `filter_segments_by_vad` uses when called with no arguments. */
  function DefaultVad(): (r: Result<Vad, VadError>)
    ensures r.Ok? && r.value.windowFrames == 5 && r.value.trailingStart == 0.5
  {
    NewVad(2, 16000, 30, 0.2, 1, 5, 0.6, 0.7, 0.5)
  }

  /** A constructed detector: what `NewVad` guarantees about its settings. */
  predicate Valid(v: Vad) {
    && ValidSampleRate(v.sampleRate) && ValidFrameMs(v.frameMs)
    && v.windowFrames >= 1 && 0.0 <= v.trailingStart <= 1.0
  }

  lemma NewVadValid(aggressiveness: int, sampleRate: int, frameMs: int,
                    minVoicedRatio: real, minVoicedFrames: int, windowFrames: int,
                    localizedRatio: real, trailingRatio: real, trailingStart: real)
    ensures var r := NewVad(aggressiveness, sampleRate, frameMs, minVoicedRatio, minVoicedFrames,
                            windowFrames, localizedRatio, trailingRatio, trailingStart);
            r.Ok? ==> Valid(r.value)
  {
  }

  // ---------------------------------------------------------------------
  // Framing

  /** `bytes_per_frame`: samples per frame times bytes per sample (the
      product `rate * (ms / 1000)` is exact for every accepted rate and frame
      length, so the truncation takes nothing off). */
  function BytesPerFrame(v: Vad, sampleWidth: nat): (n: int)
    requires Valid(v)
    ensures sampleWidth >= 1 ==> n >= 80
    ensures n == v.sampleRate / 1000 * v.frameMs * sampleWidth
  {
    Trunc(v.sampleRate as real * (v.frameMs as real / 1000.0)) * sampleWidth
  }

  /** `_frame_generator`: consecutive non-overlapping frames of exactly `size`
      bytes from the start of `raw`; the count is `len(raw) // size`, so a
      partial trailing frame is dropped. */
  function Frames<T>(raw: seq<T>, size: nat): (fs: seq<seq<T>>)
    requires size >= 1
    ensures forall k :: 0 <= k < |fs| ==> |fs[k]| == size
    ensures |fs| * size <= |raw| < |fs| * size + size
    decreases |raw|
  {
    if |raw| < size then []
    else
      var tail := Frames(raw[size..], size);
      MulStep(|tail|, size);
      [raw[..size]] + tail
  }

  lemma MulStep(q: int, d: int)
    ensures (q + 1) * d == q * d + d
  {
  }

  /** Laid end to end, the frames are exactly the audio up to its last whole
      frame. */
  lemma {:induction false} FramesCover<T>(raw: seq<T>, size: nat)
    requires size >= 1
    ensures var fs := Frames(raw, size);
            Concat(fs) == raw[..|fs| * size]
    decreases |raw|
  {
    var fs := Frames(raw, size);
    if |raw| >= size {
      var tail := Frames(raw[size..], size);
      FramesCover(raw[size..], size);
      assert fs == [raw[..size]] + tail;
      assert Concat(fs) == raw[..size] + Concat(tail);
      MulStep(|tail|, size);
      assert raw[..size] + raw[size..][..|tail| * size] == raw[..|fs| * size];
    }
  }

  // ---------------------------------------------------------------------
  // The speech decision

  /** How many flags are set. */
  function Count(flags: seq<bool>): (n: nat)
    ensures n <= |flags|
  {
    if flags == [] then 0 else (if flags[0] then 1 else 0) + Count(flags[1..])
  }

  /** A part of the flags holds enough speech: at least `minVoicedFrames`
      set, and at least `ratio` of them set. */
  predicate Enough(v: Vad, part: seq<bool>, ratio: real) {
    part != [] && Count(part) >= v.minVoicedFrames && Count(part) as real / |part| as real >= ratio
  }

  function Window(v: Vad, flags: seq<bool>): (w: nat)
    requires Valid(v)
    ensures flags != [] ==> 1 <= w <= |flags|
  {
    MinInt(|flags|, v.windowFrames)
  }

  /** The localized rule at one window position. */
  predicate LocalAt(v: Vad, flags: seq<bool>, w: nat, start: int)
    requires 0 <= start && start + w <= |flags|
  {
    Enough(v, flags[start..start + w], v.localizedRatio)
  }

  /** The sliding-window search from window position `start` on. */
  function AnyWindow(v: Vad, flags: seq<bool>, w: nat, start: nat): (r: bool)
    requires 1 <= w <= |flags|
    ensures r <==> exists s :: start <= s <= |flags| - w && LocalAt(v, flags, w, s)
    decreases |flags| - start
  {
    if start > |flags| - w then false
    else if LocalAt(v, flags, w, start) then true
    else AnyWindow(v, flags, w, start + 1)
  }

  /** Where the trailing portion begins: `int(len(frames) * trailing_start)`. */
  function TrailingFrom(v: Vad, n: nat): (t: nat)
    requires Valid(v)
    ensures t <= n
  {
    var x := n as real * v.trailingStart;
    Scaled(n, v.trailingStart);
    TruncWithin(x, n);
    Trunc(x)
  }

  lemma Scaled(n: nat, f: real)
    requires 0.0 <= f <= 1.0
    ensures 0.0 <= n as real * f <= n as real
  {
  }

  /** `_has_voice_in_slice` over the speech flags of the slice's frames. */
  function HasVoice(v: Vad, flags: seq<bool>): bool
    requires Valid(v)
  {
    if flags == [] then false
    else if Enough(v, flags, v.minVoicedRatio) then true
    else if AnyWindow(v, flags, Window(v, flags), 0) then true
    else Enough(v, flags[TrailingFrom(v, |flags|)..], v.trailingRatio)
  }

  /** `more` marks speech at least wherever `flags` does, over as many frames. */
  predicate MoreSpeech(flags: seq<bool>, more: seq<bool>) {
    |flags| == |more| && forall k :: 0 <= k < |flags| && flags[k] ==> more[k]
  }

  lemma {:induction false} CountMore(flags: seq<bool>, more: seq<bool>)
    requires MoreSpeech(flags, more)
    ensures Count(flags) <= Count(more)
  {
    if flags != [] {
      assert forall k :: 0 <= k < |flags| - 1 ==> flags[1..][k] == flags[k + 1] && more[1..][k] == more[k + 1];
      CountMore(flags[1..], more[1..]);
    }
  }

  lemma MoreSpeechSlice(flags: seq<bool>, more: seq<bool>, i: int, j: int)
    requires MoreSpeech(flags, more) && 0 <= i <= j <= |flags|
    ensures MoreSpeech(flags[i..j], more[i..j])
  {
    assert forall k :: 0 <= k < j - i ==> flags[i..j][k] == flags[i + k] && more[i..j][k] == more[i + k];
  }

  lemma RatioMonotone(a: nat, b: nat, n: nat)
    requires a <= b && n > 0
    ensures a as real / n as real <= b as real / n as real
  {
  }

  /** A rule met by some flags is met by flags with more speech. */
  lemma EnoughMore(v: Vad, part: seq<bool>, more: seq<bool>, ratio: real)
    requires MoreSpeech(part, more) && Enough(v, part, ratio)
    ensures Enough(v, more, ratio)
  {
    CountMore(part, more);
    RatioMonotone(Count(part), Count(more), |part|);
  }

  /** The decision is monotone: hearing speech in more frames of a slice
      never turns a voiced verdict into a silent one, whichever of the three
      rules gave it. */
  lemma HasVoiceMonotone(v: Vad, flags: seq<bool>, more: seq<bool>)
    requires Valid(v) && MoreSpeech(flags, more) && HasVoice(v, flags)
    ensures HasVoice(v, more)
  {
    if Enough(v, flags, v.minVoicedRatio) {
      EnoughMore(v, flags, more, v.minVoicedRatio);
    } else if AnyWindow(v, flags, Window(v, flags), 0) {
      var w := Window(v, flags);
      var s :| 0 <= s <= |flags| - w && LocalAt(v, flags, w, s);
      MoreSpeechSlice(flags, more, s, s + w);
      EnoughMore(v, flags[s..s + w], more[s..s + w], v.localizedRatio);
      assert LocalAt(v, more, w, s);
    } else {
      var t := TrailingFrom(v, |flags|);
      MoreSpeechSlice(flags, more, t, |flags|);
      EnoughMore(v, flags[t..], more[t..], v.trailingRatio);
    }
  }

  lemma {:induction false} CountNone(flags: seq<bool>)
    requires forall k :: 0 <= k < |flags| ==> !flags[k]
    ensures Count(flags) == 0
  {
    if flags != [] {
      CountNone(flags[1..]);
    }
  }

  /** When at least one voiced frame is demanded, a slice whose frames are all
      unvoiced is never kept. */
  lemma SilentSliceHasNoVoice(v: Vad, flags: seq<bool>)
    requires Valid(v) && v.minVoicedFrames >= 1
    requires forall k :: 0 <= k < |flags| ==> !flags[k]
    ensures !HasVoice(v, flags)
  {
    CountNone(flags);
    if flags != [] {
      var w := Window(v, flags);
      forall s | 0 <= s <= |flags| - w
        ensures !LocalAt(v, flags, w, s)
      {
        CountNone(flags[s..s + w]);
      }
      CountNone(flags[TrailingFrom(v, |flags|)..]);
    }
  }

  lemma {:induction false} CountAll(flags: seq<bool>)
    requires forall k :: 0 <= k < |flags| ==> flags[k]
    ensures Count(flags) == |flags|
  {
    if flags != [] {
      CountAll(flags[1..]);
    }
  }

  /** A slice whose frames are all voiced is kept once it holds at least
      `min_voiced_frames` frames and the global ratio is at most one. */
  lemma FullSliceHasVoice(v: Vad, flags: seq<bool>)
    requires Valid(v) && flags != []
    requires forall k :: 0 <= k < |flags| ==> flags[k]
    requires v.minVoicedFrames <= |flags| && v.minVoicedRatio <= 1.0
    ensures HasVoice(v, flags)
  {
    CountAll(flags);
    SelfRatio(|flags|);
  }

  // ---------------------------------------------------------------------
  // Filtering segments

  function StartMs(s: Seg): int {
    Floor(s.start * 1000.0)
  }

  function EndMs(s: Seg): int {
    Ceil(s.end * 1000.0)
  }

  /** `_prepare_audio` converts the audio to 16-bit samples. */
  const SampleWidth: nat := 2

  /** pydub's `audio[a:b]` never holds more than the requested milliseconds
      of samples: it stops at the end of the audio and pads only up to the
      requested length. */
  ghost predicate SlicesWithin<B>(v: Vad, sliceOf: (int, int) -> seq<B>) {
    forall a, b :: 0 <= a < b ==> |sliceOf(a, b)| <= (b - a) * (v.sampleRate / 1000) * SampleWidth
  }

  /** The `is_speech` verdicts of the whole frames of a slice's bytes. */
  function SpeechFlags<B>(v: Vad, raw: seq<B>, isSpeech: seq<B> -> bool): (flags: seq<bool>)
    requires Valid(v)
    ensures |flags| == |Frames(raw, BytesPerFrame(v, SampleWidth))|
    ensures forall k :: 0 <= k < |flags| ==> flags[k] == isSpeech(Frames(raw, BytesPerFrame(v, SampleWidth))[k])
  {
    var fs := Frames(raw, BytesPerFrame(v, SampleWidth));
    seq(|fs|, k requires 0 <= k < |fs| => isSpeech(fs[k]))
  }

  /** A segment keeps its text when its millisecond slice is non-empty and
      the detector hears speech in the whole frames of that slice;
      `sliceOf(a, b)` is the audio from `a` ms to `b` ms and `isSpeech` the
      WebRTC verdict on one frame. */
  predicate Voiced<B>(v: Vad, sliceOf: (int, int) -> seq<B>, isSpeech: seq<B> -> bool, s: Seg)
    requires Valid(v)
  {
    EndMs(s) > StartMs(s) && HasVoice(v, SpeechFlags(v, sliceOf(StartMs(s), EndMs(s)), isSpeech))
  }

  lemma ShortSliceBytes(d: int, f: int, perMs: int)
    requires 0 < d < f && perMs >= 1
    ensures d * perMs * SampleWidth < f * perMs * SampleWidth
  {
  }

  /** A segment shorter than one frame is always blanked: its slice holds no
      whole frame, so the detector has nothing to hear. */
  lemma SubFrameSegmentIsSilent<B>(v: Vad, sliceOf: (int, int) -> seq<B>, isSpeech: seq<B> -> bool, s: Seg)
    requires Valid(v) && SlicesWithin(v, sliceOf)
    requires 0 <= StartMs(s) && EndMs(s) - StartMs(s) < v.frameMs
    ensures !Voiced(v, sliceOf, isSpeech, s)
  {
    if EndMs(s) > StartMs(s) {
      var raw := sliceOf(StartMs(s), EndMs(s));
      var size := BytesPerFrame(v, SampleWidth);
      ShortSliceBytes(EndMs(s) - StartMs(s), v.frameMs, v.sampleRate / 1000);
      assert |raw| < size;
      assert |SpeechFlags(v, raw, isSpeech)| == 0;
    }
  }

  /** `filter_segments`: every segment comes back, in order, with its id and
      times untouched; its text is kept when voiced and emptied otherwise. */
  method FilterSegments<B>(v: Vad, segs: seq<Seg>, sliceOf: (int, int) -> seq<B>, isSpeech: seq<B> -> bool)
    returns (r: seq<Seg>)
    requires Valid(v)
    ensures |r| == |segs|
    ensures forall k :: 0 <= k < |segs| ==>
              && r[k].id == segs[k].id && r[k].start == segs[k].start && r[k].end == segs[k].end
              && (Voiced(v, sliceOf, isSpeech, segs[k]) ==> r[k].text == segs[k].text)
              && (!Voiced(v, sliceOf, isSpeech, segs[k]) ==> r[k].text == "")
  {
    r := [];
    var i := 0;
    while i < |segs|
      invariant 0 <= i <= |segs| && |r| == i
      invariant forall k :: 0 <= k < i ==>
                  && r[k].id == segs[k].id && r[k].start == segs[k].start && r[k].end == segs[k].end
                  && (Voiced(v, sliceOf, isSpeech, segs[k]) ==> r[k].text == segs[k].text)
                  && (!Voiced(v, sliceOf, isSpeech, segs[k]) ==> r[k].text == "")
    {
      var seg := segs[i];
      var startMs := Floor(seg.start * 1000.0);
      var endMs := Ceil(seg.end * 1000.0);
      if endMs <= startMs {
        seg := seg.(text := "");
      } else if !HasVoice(v, SpeechFlags(v, sliceOf(startMs, endMs), isSpeech)) {
        seg := seg.(text := "");
      }
      r := r + [seg];
      i := i + 1;
    }
  }

  /** Filtering never removes or adds a segment and only ever empties text,
      and a segment whose slice is empty is always emptied. */
  lemma FilterOnlyBlanks<B>(v: Vad, segs: seq<Seg>, sliceOf: (int, int) -> seq<B>, isSpeech: seq<B> -> bool,
                            r: seq<Seg>, k: int)
    requires Valid(v)
    requires |r| == |segs|
    requires forall i :: 0 <= i < |segs| ==>
               && r[i].id == segs[i].id && r[i].start == segs[i].start && r[i].end == segs[i].end
               && (Voiced(v, sliceOf, isSpeech, segs[i]) ==> r[i].text == segs[i].text)
               && (!Voiced(v, sliceOf, isSpeech, segs[i]) ==> r[i].text == "")
    requires 0 <= k < |segs|
    ensures r[k].text == segs[k].text || r[k].text == ""
    ensures EndMs(segs[k]) <= StartMs(segs[k]) ==> r[k].text == ""
    ensures r[k] == segs[k] || r[k] == segs[k].(text := "")
  {
  }
}
