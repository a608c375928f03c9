/** The guard on the merged voice track: the WAV must have the expected rate
    and channel count, last at least half a second and never come near int16
    overflow; a track that is mostly near-silent is only warned about. */
module MergeChecks {
  import opened Results
  import opened Numeric

  const DefaultRate: int := 16000
  const DefaultChannels: int := 1
  const MinSeconds: real := 0.5
  /** Peak magnitude above which the track counts as clipped. */
  const ClipPeak: int := 30000
  /** Magnitude below which a sample counts as near-silent. */
  const QuietLevel: int := 50
  /** Share of near-silent samples above which the guard warns. */
  const SilenceShare: real := 0.25

  /** The WAV as read: its int16 samples (all channels interleaved), the
      header's rate and channel count, and its frame count. */
  datatype PcmWav = PcmWav(samples: seq<int>, rate: int, channels: int, frames: int)

  datatype PcmFile = PcmMissing | PcmUnreadable | PcmRead(wav: PcmWav)

  datatype MergeError =
    | FileNotFound
    | CannotRead
    | WrongSampleRate(rate: int)
    | WrongChannels(channels: int)
    | DivisionByZero      // `frames / rate` with rate 0, not wrapped
    | TooShort
    | NoSamples           // `np.max` of an empty array, not wrapped
    | Clipping(peak: int)

  /** What the guard reports about a track it accepts. */
  datatype MergeReport = MergeReport(duration: real, peak: int, tooMuchSilence: bool)

  function Abs(x: int): nat {
    if x < 0 then -x else x
  }

  /** The largest sample magnitude. */
  function Peak(s: seq<int>): (p: nat)
    requires s != []
    ensures forall k :: 0 <= k < |s| ==> Abs(s[k]) <= p
    ensures exists k :: 0 <= k < |s| && Abs(s[k]) == p
  {
    if |s| == 1 then Abs(s[0])
    else
      var rest := Peak(s[1..]);
      assert forall k :: 1 <= k < |s| ==> s[k] == s[1..][k - 1];
      if Abs(s[0]) >= rest then Abs(s[0]) else rest
  }

  /** How many samples are near-silent. */
  function QuietCount(s: seq<int>): (n: nat)
    ensures n <= |s|
    ensures n == 0 <==> forall k :: 0 <= k < |s| ==> Abs(s[k]) >= QuietLevel
  {
    if s == [] then 0
    else
      assert forall k :: 1 <= k < |s| ==> s[k] == s[1..][k - 1];
      (if Abs(s[0]) < QuietLevel then 1 else 0) + QuietCount(s[1..])
  }

  /** `assert_valid_final_audio` of the merge guard. The checks run in the
      order rate, channels, duration, clipping; the silence share is only
      reported. */
  function ValidateMergedAudio(file: PcmFile, expectedRate: int, expectedChannels: int): (r: Result<MergeReport, MergeError>)
    ensures file.PcmMissing? ==> r == Err(FileNotFound)
    ensures file.PcmUnreadable? ==> r == Err(CannotRead)
    ensures file.PcmRead? && file.wav.rate != expectedRate ==> r == Err(WrongSampleRate(file.wav.rate))
    ensures file.PcmRead? && file.wav.rate == expectedRate && file.wav.channels != expectedChannels ==>
              r == Err(WrongChannels(file.wav.channels))
    ensures r.Ok? <==> && file.PcmRead? && file.wav.rate == expectedRate && file.wav.channels == expectedChannels
                       && file.wav.rate != 0 && file.wav.frames as real / file.wav.rate as real >= MinSeconds
                       && file.wav.samples != []
                       && forall k :: 0 <= k < |file.wav.samples| ==> Abs(file.wav.samples[k]) <= ClipPeak
    ensures r.Ok? ==> && r.value.duration == file.wav.frames as real / file.wav.rate as real
                      && (r.value.tooMuchSilence <==>
                            QuietCount(file.wav.samples) as real / |file.wav.samples| as real > SilenceShare)
    ensures r.Err? && r.error.Clipping? ==> exists k :: 0 <= k < |file.wav.samples| && Abs(file.wav.samples[k]) == r.error.peak > ClipPeak
  {
    match file {
      case PcmMissing => Err(FileNotFound)
      case PcmUnreadable => Err(CannotRead)
      case PcmRead(w) =>
        if w.rate != expectedRate then Err(WrongSampleRate(w.rate))
        else if w.channels != expectedChannels then Err(WrongChannels(w.channels))
        else if w.rate == 0 then Err(DivisionByZero)
        else
          var duration := w.frames as real / w.rate as real;
          if duration < MinSeconds then Err(TooShort)
          else if w.samples == [] then Err(NoSamples)
          else
            var peak := Peak(w.samples);
            if peak > ClipPeak then Err(Clipping(peak))
            else Ok(MergeReport(duration, peak, QuietCount(w.samples) as real / |w.samples| as real > SilenceShare))
    }
  }

  /** The silence warning never decides the verdict: a track of the right
      format and length whose every sample is near-silent is accepted, and
      flagged. */
  lemma SilentTrackOnlyWarns(w: PcmWav)
    requires w.rate == DefaultRate && w.channels == DefaultChannels
    requires w.frames as real / w.rate as real >= MinSeconds
    requires w.samples != [] && forall k :: 0 <= k < |w.samples| ==> Abs(w.samples[k]) < QuietLevel
    ensures var r := ValidateMergedAudio(PcmRead(w), DefaultRate, DefaultChannels);
            r.Ok? && r.value.tooMuchSilence
  {
    QuietAll(w.samples);
    SelfRatio(|w.samples|);
  }

  lemma {:induction false} QuietAll(s: seq<int>)
    requires forall k :: 0 <= k < |s| ==> Abs(s[k]) < QuietLevel
    ensures QuietCount(s) == |s|
  {
    if s != [] {
      assert forall k :: 0 <= k < |s[1..]| ==> s[1..][k] == s[k + 1];
      QuietAll(s[1..]);
    }
  }

  /** The most negative int16 sample, which has no positive counterpart. */
  const MinInt16: int := -32768

  /** numpy's `abs` on an int16 array: every sample keeps its magnitude
      except the most negative one, which wraps back onto itself. */
  function WrappedAbs(x: int): (m: int)
    ensures x != MinInt16 ==> m == Abs(x)
    ensures x == MinInt16 ==> m == x && m < 0
  {
    if x == MinInt16 then x else Abs(x)
  }

  /** `np.max(np.abs(samples))` as numpy computes it on int16 samples. */
  function WrappedPeak(s: seq<int>): (p: int)
    requires s != []
    ensures forall k :: 0 <= k < |s| ==> WrappedAbs(s[k]) <= p
    ensures exists k :: 0 <= k < |s| && WrappedAbs(s[k]) == p
  {
    if |s| == 1 then WrappedAbs(s[0])
    else
      var rest := WrappedPeak(s[1..]);
      assert forall k :: 1 <= k < |s| ==> s[k] == s[1..][k - 1];
      if WrappedAbs(s[0]) >= rest then WrappedAbs(s[0]) else rest
  }

  /** The clipping test of the merge guard as written: the reported peak
      when it exceeds the limit. A sample at the most negative int16 value
      contributes a negative magnitude, so it is never the reason. */
  function ClipAsWritten(s: seq<int>): (r: Option<int>)
    requires s != []
    ensures r.Some? ==> exists k :: 0 <= k < |s| && s[k] != MinInt16 && Abs(s[k]) == r.value > ClipPeak
    ensures r.None? <==> forall k :: 0 <= k < |s| ==> WrappedAbs(s[k]) <= ClipPeak
  {
    var p := WrappedPeak(s);
    if p > ClipPeak then Some(p) else None
  }

  /** Half a second of mono audio at the full negative scale, -32768 in
      every sample, passes the clipping test as written, while the guard with
      a true magnitude rejects it. */
  lemma FullScaleNegativeEscapesClipCheck()
    ensures ClipAsWritten(seq(8000, _ => MinInt16)).None?
    ensures ValidateMergedAudio(PcmRead(PcmWav(seq(8000, _ => MinInt16), DefaultRate, DefaultChannels, 8000)),
                                DefaultRate, DefaultChannels)
            == Err(Clipping(32768))
  {
    var s: seq<int> := seq(8000, _ => MinInt16);
    assert 8000 as real / DefaultRate as real == 0.5;
    assert Abs(s[0]) == 32768;
  }
}
