/** The older stretch step: for each synthesised chunk, paired by position
    with the chunk file that holds its Whisper timing, decide how ffmpeg
    changes its tempo and how much silence follows it. A clip that is much
    too short is only stretched by 30% and the rest of the slot is silence;
    any other clip is scaled to fill its slot exactly. */
module StretchAudio {
  import opened Results
  import opened Numeric

  /** Below this share of its slot, a clip is "too short". */
  const MinShare: real := 0.70
  /** The most a too-short clip is stretched. */
  const MaxStretch: real := 1.3
  /** Sample rate of the silence files. */
  const SilenceRate: int := 16000

  datatype StretchPlan =
    /** Stretched by 30% at `tempo`, followed by `silence` seconds
        (`silenceFrames` samples at 16 kHz) when that is positive. */
    | Limited(tempo: real, stretchedTarget: real, silence: real, silenceFrames: Option<int>)
    /** Scaled at `tempo` to fill the slot. */
    | Scaled(tempo: real)

  datatype StretchError =
    | MissingChunk(index: nat)    // `chunks[idx]` past the end of the chunk list
    | ZeroDivision(index: nat)    // a zero duration reached a division

  /** The plan for one chunk, from the slot length and the clip length in
      seconds; `None` where Python divides by zero. */
  function PlanChunk(originalDur: real, ttsDur: real): (r: Option<StretchPlan>)
    ensures ttsDur < MinShare * originalDur ==> (r.Some? <==> ttsDur != 0.0)
    ensures ttsDur >= MinShare * originalDur ==> (r.Some? <==> ttsDur != 0.0 && originalDur != 0.0)
    ensures r.Some? && r.value.Limited? ==>
              && ttsDur < MinShare * originalDur
              && r.value.stretchedTarget == MaxStretch * ttsDur
              && r.value.stretchedTarget + r.value.silence == originalDur
              && r.value.tempo * MaxStretch == 1.0
              && (r.value.silenceFrames.Some? <==> r.value.silence > 0.0)
    ensures r.Some? && r.value.Scaled? ==>
              ttsDur >= MinShare * originalDur && ttsDur == r.value.tempo * originalDur
  {
    if ttsDur < MinShare * originalDur then
      if ttsDur == 0.0 then None
      else
        var stretchedTarget := ttsDur * MaxStretch;
        LimitedTempo(ttsDur);
        var silence := originalDur - stretchedTarget;
        var frames := if silence > 0.0 then Some(Trunc(SilenceRate as real * silence)) else None;
        Some(Limited(ttsDur / stretchedTarget, stretchedTarget, silence, frames))
    else if ttsDur == 0.0 || originalDur == 0.0 then None
    else
      var stretchFactor := originalDur / ttsDur;
      ScaledTempo(originalDur, ttsDur);
      Some(Scaled(1.0 / stretchFactor))
  }

  lemma LimitedTempo(ttsDur: real)
    requires ttsDur != 0.0
    ensures ttsDur * MaxStretch != 0.0
    ensures ttsDur / (ttsDur * MaxStretch) * MaxStretch == 1.0
  {
    assert ttsDur / (ttsDur * MaxStretch) == 1.0 / MaxStretch;
  }

  lemma ScaledTempo(originalDur: real, ttsDur: real)
    requires originalDur != 0.0 && ttsDur != 0.0
    ensures originalDur / ttsDur != 0.0
    ensures ttsDur == 1.0 / (originalDur / ttsDur) * originalDur
  {
    assert 1.0 / (originalDur / ttsDur) == ttsDur / originalDur;
  }

  /** A clip of positive length that is too short always leaves silence to
      fill (30% more of less than 70% stays below the slot), and the silence
      file holds the whole number of samples that fit in it. */
  lemma LimitedStretchLeavesSilence(originalDur: real, ttsDur: real)
    requires ttsDur > 0.0 && ttsDur < MinShare * originalDur
    ensures var r := PlanChunk(originalDur, ttsDur);
            && r.Some? && r.value.Limited?
            && r.value.silence > 0.0
            && r.value.silenceFrames.Some?
            && r.value.silenceFrames.value as real <= SilenceRate as real * r.value.silence
               < r.value.silenceFrames.value as real + 1.0
  {
    var r := PlanChunk(originalDur, ttsDur);
    assert MaxStretch * ttsDur < MaxStretch * MinShare * originalDur;
    assert r.value.silence > 0.0;
  }

  /** A scaled clip lasts exactly its slot once played at the planned tempo. */
  lemma ScaledClipFillsSlot(originalDur: real, ttsDur: real)
    requires PlanChunk(originalDur, ttsDur).Some? && PlanChunk(originalDur, ttsDur).value.Scaled?
    ensures var p := PlanChunk(originalDur, ttsDur).value;
            p.tempo != 0.0 && ttsDur / p.tempo == originalDur
  {
    var p := PlanChunk(originalDur, ttsDur).value;
    assert ttsDur == p.tempo * originalDur;
  }

  /** `stretch_audio` over the clips in name order: the `i`-th clip is
      paired with the `i`-th chunk's slot length. The first clip without a
      chunk, or with a zero duration where Python divides, stops the step. */
  function StretchAll(slots: seq<real>, clips: seq<real>): (r: Result<seq<StretchPlan>, StretchError>)
    ensures r.Ok? ==> |clips| <= |slots| && |r.value| == |clips|
    ensures r.Ok? ==> forall k :: 0 <= k < |clips| ==> Some(r.value[k]) == PlanChunk(slots[k], clips[k])
    ensures r.Ok? <==> |clips| <= |slots| && forall k :: 0 <= k < |clips| ==> PlanChunk(slots[k], clips[k]).Some?
    ensures r.Err? ==> && r.error.index < |clips|
                       && (r.error.MissingChunk? <==> r.error.index >= |slots|)
                       && (r.error.ZeroDivision? ==> PlanChunk(slots[r.error.index], clips[r.error.index]).None?)
                       && forall j :: 0 <= j < r.error.index ==> j < |slots| && PlanChunk(slots[j], clips[j]).Some?
    decreases |clips|
  {
    if clips == [] then Ok([])
    else if slots == [] then Err(MissingChunk(0))
    else match PlanChunk(slots[0], clips[0]) {
      case None => Err(ZeroDivision(0))
      case Some(p) =>
        match StretchAll(slots[1..], clips[1..]) {
          case Ok(ps) => Ok([p] + ps)
          case Err(MissingChunk(i)) => Err(MissingChunk(i + 1))
          case Err(ZeroDivision(i)) => Err(ZeroDivision(i + 1))
        }
    }
  }
}
