/** The light-weight speech-start detector: the normalised samples of a WAV
    file are cut into consecutive frames (the last one may be short), each
    frame gets an energy (its RMS, a given function here), and the answer is
    the start of the first frame above the threshold that stays at or above
    it for `min_speech_ms`. */
module DetectSpeechStart {
  import opened Results
  import opened Numeric
  import opened Seqs

  const DefaultFrameMs: int := 20
  const DefaultThreshold: real := 0.015
  const DefaultMinSpeechMs: int := 120

  /** What makes the Python function raise instead of answering. */
  datatype StartError =
    | ZeroFrameMs     // `min_speech_ms / frame_ms` divides by zero
    | ZeroFrameSize   // `range(0, len(data), 0)`

  /** `frame_size = int(rate * frame_ms / 1000)`: samples per frame. */
  function FrameSize(rate: int, frameMs: int): int {
    Trunc((rate * frameMs) as real / 1000.0)
  }

  /** `min_speech_frames = int(min_speech_ms / frame_ms)`. */
  function MinSpeechFrames(minSpeechMs: int, frameMs: int): int
    requires frameMs != 0
  {
    Trunc(minSpeechMs as real / frameMs as real)
  }

  /** The frames from sample `i` on: `data[i:i + size]` for `i` in
      `range(0, len(data), size)`. */
  function FramesFrom(data: seq<real>, i: nat, size: int): (fs: seq<seq<real>>)
    requires size >= 1
    ensures forall k :: 0 <= k < |fs| ==> 1 <= |fs[k]| <= size
    ensures forall k :: 0 <= k < |fs| - 1 ==> |fs[k]| == size
    decreases |data| - i
  {
    if i >= |data| then []
    else if i + size >= |data| then [data[i..]]
    else [data[i..i + size]] + FramesFrom(data, i + size, size)
  }

  /** The frames cover every sample once, in order, the partial last frame
      included. */
  lemma {:induction false} FramesFromCover(data: seq<real>, i: nat, size: int)
    requires size >= 1 && i <= |data|
    ensures Concat(FramesFrom(data, i, size)) == data[i..]
    decreases |data| - i
  {
    if i < |data| && i + size < |data| {
      FramesFromCover(data, i + size, size);
      assert data[i..] == data[i..i + size] + data[i + size..];
    }
  }

  /** One energy per frame. */
  function Energies(frames: seq<seq<real>>, rms: seq<real> -> real): (es: seq<real>)
    ensures |es| == |frames|
    ensures forall k :: 0 <= k < |frames| ==> es[k] == rms(frames[k])
  {
    seq(|frames|, k requires 0 <= k < |frames| => rms(frames[k]))
  }

  /** The frame `j` after frame `i` exists and is not below the threshold. */
  predicate Continues(energies: seq<real>, threshold: real, i: int, j: int) {
    0 <= i + j < |energies| && energies[i + j] >= threshold
  }

  /** Frame `i` starts real speech: it is above the threshold and each of the
      next `minFrames - 1` frames continues it. */
  predicate Sustained(energies: seq<real>, threshold: real, minFrames: int, i: int) {
    && 0 <= i < |energies| && energies[i] > threshold
    && forall j :: 1 <= j < minFrames ==> Continues(energies, threshold, i, j)
  }

  /** The search loop with its inner check, as written: the first sustained frame. */
  method FindStart(energies: seq<real>, threshold: real, minFrames: int) returns (found: Option<nat>)
    ensures found.Some? ==> Sustained(energies, threshold, minFrames, found.value)
    ensures found.Some? ==> forall k :: 0 <= k < found.value ==> !Sustained(energies, threshold, minFrames, k)
    ensures found.None? ==> forall k :: 0 <= k < |energies| ==> !Sustained(energies, threshold, minFrames, k)
  {
    var i := 0;
    while i < |energies|
      invariant 0 <= i <= |energies|
      invariant forall k :: 0 <= k < i ==> !Sustained(energies, threshold, minFrames, k)
    {
      if energies[i] > threshold {
        var ok := true;
        var j := 1;
        while j < minFrames
          invariant 1 <= j
          invariant ok
          invariant forall jj :: 1 <= jj < j ==> Continues(energies, threshold, i, jj)
        {
          if i + j >= |energies| || energies[i + j] < threshold {
            assert !Continues(energies, threshold, i, j);
            ok := false;
            break;
          }
          j := j + 1;
        }
        if ok {
          return Some(i);
        }
      }
      i := i + 1;
    }
    return None;
  }

  /** With `min_speech_frames <= 1` the inner check is empty: the first
      frame above the threshold is the start. */
  lemma ShortRunIsFirstPeak(energies: seq<real>, threshold: real, minFrames: int, i: int)
    requires minFrames <= 1
    ensures Sustained(energies, threshold, minFrames, i) <==> 0 <= i < |energies| && energies[i] > threshold
  {
  }

  /** `detect_speech_start` once the samples are read: an error where Python
      raises; otherwise the start in seconds of the first sustained frame, or
      0.0 when there is none. A negative frame size yields no frames. */
  method DetectStart(rate: int, data: seq<real>, rms: seq<real> -> real,
                     frameMs: int, threshold: real, minSpeechMs: int) returns (r: Result<real, StartError>)
    ensures frameMs == 0 <==> r == Err(ZeroFrameMs)
    ensures frameMs != 0 && FrameSize(rate, frameMs) == 0 <==> r == Err(ZeroFrameSize)
    ensures frameMs != 0 && FrameSize(rate, frameMs) < 0 ==> r == Ok(0.0)
    ensures frameMs != 0 && FrameSize(rate, frameMs) >= 1 ==>
              var es := Energies(FramesFrom(data, 0, FrameSize(rate, frameMs)), rms);
              var m := MinSpeechFrames(minSpeechMs, frameMs);
              && r.Ok?
              && ((forall k :: 0 <= k < |es| ==> !Sustained(es, threshold, m, k)) ==> r.value == 0.0)
              && (forall i :: Sustained(es, threshold, m, i)
                             && (forall k :: 0 <= k < i ==> !Sustained(es, threshold, m, k))
                             ==> r.value == (i * frameMs) as real / 1000.0)
  {
    if frameMs == 0 {
      return Err(ZeroFrameMs);
    }
    var frameSize := FrameSize(rate, frameMs);
    var minFrames := MinSpeechFrames(minSpeechMs, frameMs);
    if frameSize == 0 {
      return Err(ZeroFrameSize);
    }
    if frameSize < 0 {
      return Ok(0.0);
    }
    var energies := Energies(FramesFrom(data, 0, frameSize), rms);
    var found := FindStart(energies, threshold, minFrames);
    if found.Some? {
      r := Ok((found.value * frameMs) as real / 1000.0);
    } else {
      r := Ok(0.0);
    }
    assert energies == Energies(FramesFrom(data, 0, FrameSize(rate, frameMs)), rms);
  }
}
