/** The speech-onset detector: where, in a 16 kHz mono recording, speech
    first sets in for good. The recording is cut into half-overlapping
    analysis windows; the speech-band energy of each window (an FFT
    computation) and the 60th-percentile noise estimate are given as inputs.
    What the model keeps is the sizing arithmetic, the threshold rule and the
    search for the first energy peak that is held for long enough. */
module SpeechOnset {
  import opened Results
  import opened Numeric

  const SampleRate: int := 16000

  /** `frame_len = int(16000 * frame_ms / 1000)`: samples per analysis window. */
  function FrameLen(frameMs: int): (n: int)
    ensures n == 16 * frameMs
  {
    Trunc((SampleRate * frameMs) as real / 1000.0)
  }

  /** `step_len = max(frame_len // 2, 1)`: half a window, and at least one sample. */
  function StepLen(frameLen: int): (s: int)
    ensures s >= 1
    ensures frameLen >= 2 ==> s + s <= frameLen < s + s + 2
    ensures frameLen < 2 ==> s == 1
  {
    MaxInt(frameLen / 2, 1)
  }

  /** The analysis windows: they start every `step` samples and end strictly
      before the last sample (`range(0, len(samples) - frame_len, step)`). */
  function AnalysisStarts(sampleCount: int, frameLen: int, step: int): (r: seq<int>)
    requires step >= 1
    ensures forall k :: 0 <= k < |r| ==> 0 <= r[k] && r[k] + frameLen < sampleCount
    ensures r != [] <==> frameLen < sampleCount
    ensures r != [] ==> r[0] == 0 && r[|r| - 1] + step + frameLen >= sampleCount
    ensures forall k :: 0 <= k < |r| - 1 ==> StepApart(r, k, step)
  {
    Range(0, sampleCount - frameLen, step)
  }

  /** `baseline_frames`: how many steps fit in half a second (the quotient
      `0.5 * 1000 / (step * 1000 / 16000)` is `8000 / step`), and at least five. */
  function BaselineFrames(step: int): (b: int)
    requires step >= 1
    ensures b >= 5
    ensures b > 5 ==> b as real <= 8000.0 / step as real < b as real + 1.0
  {
    MaxInt(Trunc(8000.0 / step as real), 5)
  }

  /** `hold_frames`: how many steps cover `hold_ms` (`hold_ms / (step * 1000 /
      16000)` is `16 * hold_ms / step`), rounded up, and at least two. */
  function HoldFrames(holdMs: int, step: int): (h: int)
    requires step >= 1
    ensures h >= 2
    ensures h > 2 ==> h as real - 1.0 < (16 * holdMs) as real / step as real <= h as real
  {
    MaxInt(Ceil((16 * holdMs) as real / step as real), 2)
  }

  /** `max(noise * 4, noise + 1e-6)`: always strictly above the noise. */
  function Threshold(noise: real): (t: real)
    ensures t > noise
    ensures t >= noise * 4.0
    ensures t == noise * 4.0 || t == noise + 0.000001
  {
    MaxReal(noise * 4.0, noise + 0.000001)
  }

  /** The noise estimate: the given percentile of the first `baseline` energies. */
  function NoiseLevel(energies: seq<real>, step: int, percentile: seq<real> -> real): real
    requires step >= 1
  {
    percentile(energies[..MinInt(BaselineFrames(step), |energies|)])
  }

  function Sum(xs: seq<real>): real {
    if xs == [] then 0.0 else xs[0] + Sum(xs[1..])
  }

  function Mean(xs: seq<real>): real
    requires xs != []
  {
    Sum(xs) / |xs| as real
  }

  /** Window position `idx` marks the onset: its energy is above the
      threshold and so is the mean over the `hold` windows starting there. */
  predicate Qualifies(energies: seq<real>, threshold: real, hold: int, idx: int) {
    && 0 <= idx < |energies| && hold >= 1 && idx + hold <= |energies|
    && energies[idx] > threshold
    && Mean(energies[idx..idx + hold]) > threshold
  }

  /** `idx` is the first position that qualifies. */
  predicate FirstQualifying(energies: seq<real>, threshold: real, hold: int, idx: int) {
    && Qualifies(energies, threshold, hold, idx)
    && forall j :: 0 <= j < idx ==> !Qualifies(energies, threshold, hold, j)
  }

  /** The search loop: the first qualifying position, if any. The loop gives
      up at the first peak whose hold window runs past the end; every later
      position would run past it too, so that changes nothing. */
  method FindOnset(energies: seq<real>, threshold: real, hold: int) returns (found: Option<nat>)
    requires hold >= 1
    ensures found.Some? ==> Qualifies(energies, threshold, hold, found.value)
    ensures found.Some? ==> forall j :: 0 <= j < found.value ==> !Qualifies(energies, threshold, hold, j)
    ensures found.None? ==> forall j :: 0 <= j < |energies| ==> !Qualifies(energies, threshold, hold, j)
  {
    var idx := 0;
    while idx < |energies|
      invariant 0 <= idx <= |energies|
      invariant forall j :: 0 <= j < idx ==> !Qualifies(energies, threshold, hold, j)
    {
      if energies[idx] > threshold {
        if idx + hold > |energies| {
          return None;
        }
        if Mean(energies[idx..idx + hold]) > threshold {
          return Some(idx);
        }
      }
      idx := idx + 1;
    }
    return None;
  }

  /** Why `detect_speech_onset` raises: with smoothing on (`smooth > 1`),
      `np.convolve` is handed the empty energy list of a recording exactly one
      window long and raises `ValueError` before the emptiness check runs. */
  datatype OnsetError = EmptyConvolution

  /** `detect_speech_onset` once the window energies are known: 0.0 for a
      recording shorter than one window; the convolution error for a
      recording of exactly one window when smoothing is on; 0.0 when there
      are no energies; otherwise the start, in seconds, of the first
      qualifying position, and 0.0 when there is none. */
  method DetectSpeechOnset(sampleCount: nat, frameMs: int, holdMs: int, smooth: int,
                           energies: seq<real>, percentile: seq<real> -> real)
    returns (r: Result<real, OnsetError>)
    ensures r.Err? <==> FrameLen(frameMs) > 0 && sampleCount == FrameLen(frameMs) && smooth > 1
    ensures r.Ok? ==> r.value >= 0.0
    ensures FrameLen(frameMs) <= 0 || sampleCount < FrameLen(frameMs) ==> r == Ok(0.0)
    ensures r.Ok? && energies == [] ==> r.value == 0.0
    ensures var step := StepLen(FrameLen(frameMs));
            var threshold := Threshold(NoiseLevel(energies, step, percentile));
            var hold := HoldFrames(holdMs, step);
            && r.Ok? && (forall j :: 0 <= j < |energies| ==> !Qualifies(energies, threshold, hold, j)) ==> r.value == 0.0
    ensures var step := StepLen(FrameLen(frameMs));
            var threshold := Threshold(NoiseLevel(energies, step, percentile));
            var hold := HoldFrames(holdMs, step);
            forall idx :: r.Ok? && FrameLen(frameMs) > 0 && sampleCount >= FrameLen(frameMs)
                          && FirstQualifying(energies, threshold, hold, idx)
                          ==> r.value == StartTime(idx, step)
  {
    var frameLen := FrameLen(frameMs);
    var step := StepLen(frameLen);
    var threshold := Threshold(NoiseLevel(energies, step, percentile));
    var hold := HoldFrames(holdMs, step);
    if frameLen <= 0 || sampleCount < frameLen {
      r := Ok(0.0);
    } else if AnalysisStarts(sampleCount, frameLen, step) == [] && smooth > 1 {
      r := Err(EmptyConvolution);
    } else if |energies| == 0 {
      r := Ok(0.0);
    } else {
      var t := OnsetTime(energies, threshold, hold, step);
      r := Ok(t);
    }
  }

  /** The onset in seconds once the guards have passed: the first
      qualifying position times the hop length, or 0.0 when none qualifies. */
  method OnsetTime(energies: seq<real>, threshold: real, hold: int, step: int) returns (t: real)
    requires hold >= 1 && step >= 1
    ensures t >= 0.0
    ensures (forall j :: 0 <= j < |energies| ==> !Qualifies(energies, threshold, hold, j)) ==> t == 0.0
    ensures forall idx :: FirstQualifying(energies, threshold, hold, idx) ==> t == StartTime(idx, step)
  {
    var found := FindOnset(energies, threshold, hold);
    if found.Some? {
      var i := found.value;
      t := StartTime(i, step);
      assert FirstQualifying(energies, threshold, hold, i);
      forall idx | FirstQualifying(energies, threshold, hold, idx)
        ensures idx == i
      {
        FirstIsUnique(energies, threshold, hold, idx, i);
      }
    } else {
      t := 0.0;
    }
  }

  /** The start, in seconds, of analysis window `idx` when windows start
      every `step` samples. */
  function StartTime(idx: nat, step: int): (s: real)
    requires step >= 1
    ensures s >= 0.0
  {
    var hop := step as real / SampleRate as real;
    NonNegativeTime(idx, hop);
    idx as real * hop
  }

  lemma NonNegativeTime(i: nat, hop: real)
    requires hop > 0.0
    ensures i as real * hop >= 0.0
  {
  }

  /** Two positions that each qualify with no qualifying position before
      them are the same position. */
  lemma FirstIsUnique(energies: seq<real>, threshold: real, hold: int, a: int, b: int)
    requires FirstQualifying(energies, threshold, hold, a) && FirstQualifying(energies, threshold, hold, b)
    ensures a == b
  {
  }
}
