/** The voice-over track builder: loading translated segments, the tempo
    chain for ffmpeg's `atempo` filter, fitting a synthesized clip into its
    window, placing clips on the master timeline and the global-offset and
    minimum-duration arithmetic around it.

    Seconds are `real`s; audio lengths are whole milliseconds as pydub counts
    them. The synthesized clip and the length ffmpeg returns after a tempo
    change are inputs: speech synthesis and ffmpeg are not modelled. */
module VoiceOverTts {
  import opened Results
  import opened Numeric
  import opened Text
  import opened Seqs

  const TargetSampleRate: nat := 16000
  const SilenceTailMs: nat := 500
  /** Above this length ratio a clip is hard-trimmed instead of compressed. */
  const MaxCompression: real := 1.10
  /** At or below this ratio a clip is trimmed without any tempo change. */
  const NearlyExact: real := 1.01

  datatype VoiceOverError =
    | UnexpectedFormat      // translated.json is not a list
    | NoSegments            // no entry with text and a positive span
    | InvalidTempoRatio     // build_atempo_chain called with ratio <= 0
    | StretchFailed         // ffmpeg returned a non-zero exit code
    | UnknownDuration       // the original duration is not positive
    | DivisionByZero        // an uncaught ZeroDivisionError in the Python code
    | WavMissing
    | WavEmpty
    | WavTooShort(duration: real, minimum: real)

  datatype Segment = Segment(id: int, start: real, end: real, text: string)

  /** `Segment.duration_ms`: the rounded span in milliseconds, never negative. */
  function DurationMs(s: Segment): (ms: nat)
    ensures (s.end - s.start) * 1000.0 <= 0.0 ==> ms == 0
    ensures (s.end - s.start) * 1000.0 >= 0.0 ==>
              ms as real - 0.5 <= (s.end - s.start) * 1000.0 <= ms as real + 0.5
  {
    MaxInt(RoundHalfEven((s.end - s.start) * 1000.0), 0)
  }

  // ---------------------------------------------------------------------
  // Loading translated.json
  // ---------------------------------------------------------------------

  /** One entry of translated.json; any key may be absent. */
  datatype RawEntry = RawEntry(id: Option<int>, start: Option<real>, end: Option<real>, dst: Option<string>)

  function EntryText(e: RawEntry): string {
    Strip(e.dst.GetOr(""))
  }

  function EntryStart(e: RawEntry): real {
    e.start.GetOr(0.0)
  }

  function EntryEnd(e: RawEntry): real {
    e.end.GetOr(EntryStart(e))
  }

  /** An entry survives loading when its stripped `dst` is non-empty and `end > start`. */
  predicate Usable(e: RawEntry) {
    EntryText(e) != [] && EntryEnd(e) > EntryStart(e)
  }

  /** The segment built from the `k`-th surviving entry (`k` is the default id). */
  function ToSegment(e: RawEntry, k: int): Segment {
    Segment(e.id.GetOr(k), EntryStart(e), EntryEnd(e), EntryText(e))
  }

  /** The loop of `load_translated_segments`, with `acc` the segments kept so far. */
  function LoadLoop(data: seq<RawEntry>, acc: seq<Segment>): seq<Segment> {
    if data == [] then acc
    else
      var e := data[0];
      if EntryText(e) == [] then LoadLoop(data[1..], acc)
      else if EntryEnd(e) <= EntryStart(e) then LoadLoop(data[1..], acc)
      else LoadLoop(data[1..], acc + [ToSegment(e, |acc|)])
  }

  lemma LoadLoopKeepsUsable(data: seq<RawEntry>, acc: seq<Segment>)
    ensures var r := LoadLoop(data, acc);
            var kept := Filter(Usable, data);
            && |r| == |acc| + |kept|
            && r[..|acc|] == acc
            && forall k :: 0 <= k < |kept| ==> r[|acc| + k] == ToSegment(kept[k], |acc| + k)
  {
    LoadLoopIsKeepLoop(data, acc);
    KeepLoopIsFilter(Usable, ToSegment, data, acc);
  }

  /** The loop skips exactly the unusable entries. */
  lemma {:induction false} LoadLoopIsKeepLoop(data: seq<RawEntry>, acc: seq<Segment>)
    ensures LoadLoop(data, acc) == KeepLoop(Usable, ToSegment, data, acc)
    decreases |data|
  {
    if data != [] {
      if Usable(data[0]) {
        LoadLoopIsKeepLoop(data[1..], acc + [ToSegment(data[0], |acc|)]);
      } else {
        LoadLoopIsKeepLoop(data[1..], acc);
      }
    }
  }

  /** `load_translated_segments`: `data` is `None` when the JSON is not a list.
      Keeps, in order, exactly the usable entries; an empty result is an error. */
  function LoadTranslatedSegments(data: Option<seq<RawEntry>>): (r: Result<seq<Segment>, VoiceOverError>)
    ensures data.None? ==> r == Err(UnexpectedFormat)
    ensures data.Some? ==>
              (r.Err? <==> forall i :: 0 <= i < |data.value| ==> !Usable(data.value[i]))
    ensures r.Err? ==> r.error == UnexpectedFormat || r.error == NoSegments
    ensures r.Ok? ==>
              var kept := Filter(Usable, data.value);
              && |r.value| == |kept| > 0
              && forall k :: 0 <= k < |kept| ==> r.value[k] == ToSegment(kept[k], k)
    ensures r.Ok? ==>
              forall k :: 0 <= k < |r.value| ==>
                r.value[k].end > r.value[k].start && r.value[k].text != [] && IsStripped(r.value[k].text)
  {
    if data.None? then Err(UnexpectedFormat)
    else
      var segs := LoadLoop(data.value, []);
      LoadLoopKeepsUsable(data.value, []);
      FilterNone(Usable, data.value);
      if segs == [] then Err(NoSegments) else Ok(segs)
  }

  // ---------------------------------------------------------------------
  // Original duration, tempo chain, fitting
  // ---------------------------------------------------------------------

  /** The largest `end`, 0.0 for no segments. */
  function MaxEnd(segs: seq<Segment>): (m: real)
    ensures segs == [] ==> m == 0.0
    ensures forall k :: 0 <= k < |segs| ==> segs[k].end <= m
    ensures segs != [] ==> exists k :: 0 <= k < |segs| && segs[k].end == m
  {
    if segs == [] then 0.0
    else if |segs| == 1 then segs[0].end
    else
      var m := MaxReal(segs[0].end, MaxEnd(segs[1..]));
      assert forall k :: 1 <= k < |segs| ==> segs[k] == segs[1..][k - 1];
      m
  }

  /** `load_original_duration`: the transcript's positive `duration`, otherwise the largest end. */
  function LoadOriginalDuration(metaDuration: Option<real>, segs: seq<Segment>): (d: real)
    ensures metaDuration.Some? && metaDuration.value > 0.0 ==> d == metaDuration.value
    ensures !(metaDuration.Some? && metaDuration.value > 0.0) ==> d == MaxEnd(segs)
  {
    if metaDuration.Some? && metaDuration.value > 0.0 then metaDuration.value else MaxEnd(segs)
  }

  function Product(xs: seq<real>): real {
    if xs == [] then 1.0 else xs[0] * Product(xs[1..])
  }

  /** How many more halvings or doublings the tempo loop still needs (bounded above). */
  function ChainMeasure(t: real): nat
    requires t > 0.0
  {
    if t > 2.0 then t.Floor
    else if t < 0.5 then (1.0 / t).Floor
    else 0
  }

  lemma ChainMeasureDecreasesHalving(t: real)
    requires t > 2.0
    ensures ChainMeasure(t / 2.0) < ChainMeasure(t)
  {
    var u := t / 2.0;
    assert u > 1.0;
    if u > 2.0 {
      assert u <= t - 1.0;
      assert u.Floor <= (t - 1.0).Floor;
    }
  }

  lemma ChainMeasureDecreasesDoubling(t: real)
    requires 0.0 < t < 0.5
    ensures ChainMeasure(t / 0.5) < ChainMeasure(t)
  {
    var u := t / 0.5;
    assert u == 2.0 * t;
    assert u < 1.0;
    var inv := 1.0 / t;
    assert inv > 2.0 by {
      assert inv * t == 1.0;
    }
    if u < 0.5 {
      var inv2 := 1.0 / u;
      assert inv2 * 2.0 == inv by {
        assert inv2 * u == 1.0;
        assert inv * t == 1.0;
      }
      assert inv2 <= inv - 1.0;
      assert inv2.Floor <= (inv - 1.0).Floor;
    }
  }

  /** The stages of the `atempo` chain for a positive ratio. */
  function TempoStages(t: real): (st: seq<real>)
    requires t > 0.0
    ensures |st| >= 1
    ensures Product(st) == t
    ensures forall k :: 0 <= k < |st| - 1 ==> st[k] == 0.5 || st[k] == 2.0
    ensures 0.5 <= st[|st| - 1] <= 2.0
    decreases ChainMeasure(t)
  {
    if t < 0.5 then
      ChainMeasureDecreasesDoubling(t);
      [0.5] + TempoStages(t / 0.5)
    else if t > 2.0 then
      ChainMeasureDecreasesHalving(t);
      [2.0] + TempoStages(t / 2.0)
    else [t]
  }

  /** `build_atempo_chain`, before its stages are formatted as `atempo=...` filters. */
  function BuildAtempoChain(ratio: real): (r: Result<seq<real>, VoiceOverError>)
    ensures ratio <= 0.0 <==> r == Err(InvalidTempoRatio)
    ensures r.Ok? ==> |r.value| >= 1 && Product(r.value) == ratio
    ensures r.Ok? ==> forall k :: 0 <= k < |r.value| - 1 ==> r.value[k] == 0.5 || r.value[k] == 2.0
    ensures r.Ok? ==> 0.5 <= r.value[|r.value| - 1] <= 2.0
  {
    if ratio <= 0.0 then Err(InvalidTempoRatio) else Ok(TempoStages(ratio))
  }

  lemma {:induction false} InRangeTempoIsOneStage(ratio: real)
    requires 0.5 <= ratio <= 2.0
    ensures BuildAtempoChain(ratio) == Ok([ratio])
  {
  }

  /** What `fit_tts_into_segment` did to the clip. */
  datatype FitAction =
    | Padded(silenceMs: nat)
    | Trimmed
    | Stretched(tempo: real, stretchedMs: nat, silenceMs: nat)

  datatype Fitted = Fitted(action: FitAction, lengthMs: nat)

  /** `fit_tts_into_segment` for a clip of `currentMs` and a window of `targetMs`.
      `stretchedMs` is the length of ffmpeg's output at the chosen tempo, `None`
      when ffmpeg fails. */
  function FitTtsIntoSegment(currentMs: nat, targetMs: nat, stretchedMs: Option<nat>): (r: Result<Fitted, VoiceOverError>)
    ensures currentMs < targetMs ==> r == Ok(Fitted(Padded(targetMs - currentMs), targetMs))
    ensures targetMs == 0 ==> r == Err(DivisionByZero)
    ensures targetMs > 0 && currentMs >= targetMs ==>
              var ratio := currentMs as real / targetMs as real;
              && (ratio > MaxCompression || ratio <= NearlyExact ==> r == Ok(Fitted(Trimmed, targetMs)))
              && (NearlyExact < ratio <= MaxCompression ==>
                    && (stretchedMs.None? ==> r == Err(StretchFailed))
                    && (stretchedMs.Some? ==>
                          && r.Ok? && r.value.action.Stretched?
                          && r.value.action.tempo * ratio == 1.0
                          && r.value.lengthMs == MaxInt(stretchedMs.value, targetMs)))
    ensures r.Ok? ==> r.value.lengthMs >= targetMs
    ensures r.Ok? && !r.value.action.Stretched? ==> r.value.lengthMs == targetMs
  {
    if currentMs < targetMs then Ok(Fitted(Padded(targetMs - currentMs), targetMs))
    else if targetMs == 0 then Err(DivisionByZero)
    else
      var ratio := currentMs as real / targetMs as real;
      if ratio > MaxCompression then Ok(Fitted(Trimmed, targetMs))
      else if ratio > NearlyExact then
        var tempo := 1.0 / ratio;
        match stretchedMs
        case None => Err(StretchFailed)
        case Some(len) =>
          if len < targetMs then Ok(Fitted(Stretched(tempo, len, targetMs - len), targetMs))
          else Ok(Fitted(Stretched(tempo, len, 0), len))
      else Ok(Fitted(Trimmed, targetMs))
  }

  /** The tempo chosen by the fitting step always fits one `atempo` stage. */
  lemma FitTempoIsOneStage(currentMs: nat, targetMs: nat, stretchedMs: Option<nat>)
    requires FitTtsIntoSegment(currentMs, targetMs, stretchedMs).Ok?
    requires FitTtsIntoSegment(currentMs, targetMs, stretchedMs).value.action.Stretched?
    ensures var t := FitTtsIntoSegment(currentMs, targetMs, stretchedMs).value.action.tempo;
            0.5 <= t <= 2.0 && BuildAtempoChain(t) == Ok([t])
  {
    var ratio := currentMs as real / targetMs as real;
    var t := 1.0 / ratio;
    assert t * ratio == 1.0;
    assert 1.01 < ratio <= 1.10;
    InRangeTempoIsOneStage(t);
  }

  /** A clip already exactly as long as its window comes back unchanged in length. */
  lemma FitExactClipIsKept(targetMs: nat, stretchedMs: Option<nat>)
    requires targetMs > 0
    ensures FitTtsIntoSegment(targetMs, targetMs, stretchedMs) == Ok(Fitted(Trimmed, targetMs))
  {
    assert targetMs as real / targetMs as real == 1.0;
  }

  /** A 12 s clip in a 10 s window is over the 10% bound, so it is hard-trimmed, not stretched. */
  lemma FitTwelveIntoTenTrims(stretchedMs: Option<nat>)
    ensures FitTtsIntoSegment(12000, 10000, stretchedMs) == Ok(Fitted(Trimmed, 10000))
  {
    assert 12000 as real / 10000 as real == 1.2;
  }

  // ---------------------------------------------------------------------
  // Timeline placement and the global offset
  // ---------------------------------------------------------------------

  datatype Placement = Placement(id: int, atMs: int, text: string)

  /** The silent base track and the clips overlaid on it. */
  datatype Timeline = Timeline(lengthMs: int, placements: seq<Placement>)

  predicate Audible(s: Segment) {
    DurationMs(s) > 0
  }

  function PlaceAt(s: Segment): Placement {
    Placement(s.id, Trunc(s.start * 1000.0), s.text)
  }

  function PlaceLoop(segs: seq<Segment>): seq<Placement> {
    if segs == [] then []
    else if DurationMs(segs[0]) <= 0 then PlaceLoop(segs[1..])
    else [PlaceAt(segs[0])] + PlaceLoop(segs[1..])
  }

  lemma {:induction false} PlaceLoopPlacesAudible(segs: seq<Segment>)
    ensures |PlaceLoop(segs)| == |Filter(Audible, segs)|
    ensures forall k :: 0 <= k < |PlaceLoop(segs)| ==> PlaceLoop(segs)[k] == PlaceAt(Filter(Audible, segs)[k])
  {
    if segs != [] {
      PlaceLoopPlacesAudible(segs[1..]);
    }
  }

  /** `place_segments_on_timeline`: a base of `ceil(total*1000) + 500` ms, and one
      clip per segment with a positive duration, in order, at `int(start*1000)`. */
  function PlaceSegmentsOnTimeline(segs: seq<Segment>, totalDuration: real): (t: Timeline)
    ensures totalDuration * 1000.0 + SilenceTailMs as real <= t.lengthMs as real
    ensures t.lengthMs as real < totalDuration * 1000.0 + SilenceTailMs as real + 1.0
    ensures |t.placements| == |Filter(Audible, segs)|
    ensures forall k :: 0 <= k < |t.placements| ==>
              var s := Filter(Audible, segs)[k];
              t.placements[k] == Placement(s.id, Trunc(s.start * 1000.0), s.text)
  {
    PlaceLoopPlacesAudible(segs);
    Timeline(Ceil(totalDuration * 1000.0) + SilenceTailMs, PlaceLoop(segs))
  }

  function Shift(segs: seq<Segment>, offset: real): (r: seq<Segment>)
    ensures |r| == |segs|
    ensures forall k :: 0 <= k < |r| ==>
              r[k] == segs[k].(start := segs[k].start + offset, end := segs[k].end + offset)
  {
    seq(|segs|, k requires 0 <= k < |segs| => segs[k].(start := segs[k].start + offset, end := segs[k].end + offset))
  }

  datatype VoicePlan = VoicePlan(
    offset: real,
    segments: seq<Segment>,
    timelineDuration: real,
    minDuration: real,
    timeline: Timeline)

  /** The timing part of `generate_voice_over_track` once the segments are
      loaded and the original duration `total` is known: shift every segment by
      `realStart - segs[0].start`, stretch the timeline to cover both the
      shifted original duration and the last shifted end, and require the
      rendered WAV to last at least `max(0.5, timeline - 0.5)` seconds. */
  function PlanTimeline(segs: seq<Segment>, total: real, realStart: real): (p: VoicePlan)
    requires segs != []
    ensures p.offset == realStart - segs[0].start
    ensures |p.segments| == |segs| && p.segments[0].start == realStart
    ensures forall k :: 0 <= k < |segs| ==>
              && p.segments[k].id == segs[k].id
              && p.segments[k].text == segs[k].text
              && p.segments[k].start == segs[k].start + p.offset
              && p.segments[k].end == segs[k].end + p.offset
              && DurationMs(p.segments[k]) == DurationMs(segs[k])
    ensures p.timelineDuration >= total + p.offset
    ensures forall k :: 0 <= k < |segs| ==> p.segments[k].end <= p.timelineDuration
    ensures p.timelineDuration == total + p.offset ||
            exists k :: 0 <= k < |segs| && p.segments[k].end == p.timelineDuration
    ensures p.minDuration == MaxReal(0.5, p.timelineDuration - 0.5)
    ensures p.timeline == PlaceSegmentsOnTimeline(p.segments, p.timelineDuration)
  {
    var offset := realStart - segs[0].start;
    var shifted := Shift(segs, offset);
    var timelineDuration := MaxReal(total + offset, MaxEnd(shifted));
    VoicePlan(
      offset,
      shifted,
      timelineDuration,
      MaxReal(0.5, timelineDuration - 0.5),
      PlaceSegmentsOnTimeline(shifted, timelineDuration))
  }

  /** `generate_voice_over_track` up to the export: `realStart` is the detected
      speech onset and `metaDuration` the transcript's `duration` field. Fails
      when loading fails or the original duration is not positive. */
  function GenerateVoiceOverTrack(data: Option<seq<RawEntry>>, metaDuration: Option<real>, realStart: real): (r: Result<VoicePlan, VoiceOverError>)
    ensures LoadTranslatedSegments(data).Err? ==> r == Err(LoadTranslatedSegments(data).error)
    ensures LoadTranslatedSegments(data).Ok? ==>
              var segs := LoadTranslatedSegments(data).value;
              var total := LoadOriginalDuration(metaDuration, segs);
              && (total <= 0.0 ==> r == Err(UnknownDuration))
              && (total > 0.0 ==> r == Ok(PlanTimeline(segs, total, realStart)))
  {
    var segs :- LoadTranslatedSegments(data);
    var total := LoadOriginalDuration(metaDuration, segs);
    if total <= 0.0 then Err(UnknownDuration) else Ok(PlanTimeline(segs, total, realStart))
  }

  /** `sanity_check_wav` over the header of the exported file. */
  function SanityCheckWav(exists_: bool, sizeBytes: nat, frames: nat, rate: nat, minDuration: real): (r: Result<real, VoiceOverError>)
    ensures !exists_ ==> r == Err(WavMissing)
    ensures exists_ && sizeBytes == 0 ==> r == Err(WavEmpty)
    ensures r.Ok? <==> exists_ && sizeBytes > 0 && rate > 0 && frames as real / rate as real >= minDuration
    ensures r.Ok? ==> r.value == frames as real / rate as real
  {
    if !exists_ then Err(WavMissing)
    else if sizeBytes == 0 then Err(WavEmpty)
    else if rate == 0 then Err(DivisionByZero)
    else
      var duration := frames as real / rate as real;
      if duration < minDuration then Err(WavTooShort(duration, minDuration)) else Ok(duration)
  }

  /** The track `place_segments_on_timeline` renders is always long enough for
      the sanity check, as long as the detected onset is not negative: the
      exported file holds 16 frames per millisecond of the timeline at 16 kHz. */
  lemma RenderedTrackPassesSanityCheck(data: Option<seq<RawEntry>>, metaDuration: Option<real>, realStart: real, sizeBytes: nat)
    requires realStart >= 0.0 && sizeBytes > 0
    requires GenerateVoiceOverTrack(data, metaDuration, realStart).Ok?
    ensures var p := GenerateVoiceOverTrack(data, metaDuration, realStart).value;
            p.timeline.lengthMs > 0 &&
            SanityCheckWav(true, sizeBytes, p.timeline.lengthMs * 16, TargetSampleRate, p.minDuration).Ok?
  {
    var p := GenerateVoiceOverTrack(data, metaDuration, realStart).value;
    var segs := LoadTranslatedSegments(data).value;
    assert segs[0].end > segs[0].start;
    assert p.segments[0].end > p.segments[0].start >= 0.0;
    assert p.timelineDuration > 0.0;
    var len := p.timeline.lengthMs;
    assert len as real >= p.timelineDuration * 1000.0 + 500.0;
    var frames := len * 16;
    assert frames as real / 16000.0 == len as real / 1000.0;
  }
}
