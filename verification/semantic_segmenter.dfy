/** The semantic segmenter: finds pauses in a frame-energy curve, cuts the
    transcript into sentences, merges short ones, splits long ones, and lays
    the sentences onto the windows between pauses. The energy curve (mean
    absolute amplitude per frame, smoothed) and its noise floor are inputs. */
module SemanticSegmenter {
  import opened Numeric
  import opened Text
  import opened Seqs
  import opened Transcript

  /** `frame_ms` and `pause_min_ms` as `semantic_segment` uses them (their
      defaults; no caller passes others). */
  const FrameMs: int := 20
  const PauseMinMs: int := 300
  const MinWords: int := 5
  const MaxWords: int := 22

  function SpeechThreshold(noise: real): real { noise * 2.2 }
  function SilenceThreshold(noise: real): real { noise * 1.4 }

  // ---------------------------------------------------------------------
  // Pause detection

  /** The number of consecutive quiet frames that makes a pause: the least
      count whose duration reaches `PauseMinMs`. */
  const QuietFramesNeeded: int := 15

  lemma QuietFramesNeededIsLeast()
    ensures QuietFramesNeeded * FrameMs >= PauseMinMs
    ensures (QuietFramesNeeded - 1) * FrameMs < PauseMinMs
  {
  }

  /** Why a pause was reported at frame `idx`: the quiet run that ends at
      `idx` is long enough, and some frame after the previous pause (`prev`)
      and before that run rose above the speech threshold. */
  predicate PauseEvidence(energies: seq<real>, noise: real, prev: int, idx: int) {
    QuietRun(energies, noise, idx) && SpokeBetween(energies, noise, prev, idx - QuietFramesNeeded)
  }

  /** The `QuietFramesNeeded` frames ending at `idx` are all below the silence threshold. */
  predicate QuietRun(energies: seq<real>, noise: real, idx: int) {
    && 0 <= idx - QuietFramesNeeded + 1 && idx < |energies|
    && (forall j :: idx - QuietFramesNeeded < j <= idx ==> energies[j] < SilenceThreshold(noise))
  }

  /** Some frame in `(lo, hi]` rose above the speech threshold. */
  predicate SpokeBetween(energies: seq<real>, noise: real, lo: int, hi: int) {
    exists s :: 0 <= s < |energies| && lo < s <= hi && energies[s] > SpeechThreshold(noise)
  }

  /** Every reported pause frame has its evidence, each measured from the
      pause before it. */
  predicate AllEvidence(energies: seq<real>, noise: real, idxs: seq<int>) {
    forall k {:trigger PauseEvidence(energies, noise, Prev(idxs, k), idxs[k])} ::
      0 <= k < |idxs| ==> PauseEvidence(energies, noise, Prev(idxs, k), idxs[k])
  }

  /** The frame of the pause before pause `k`, or -1 for the first. */
  function Prev(idxs: seq<int>, k: int): int
    requires 0 <= k < |idxs|
  {
    if k == 0 then -1 else idxs[k - 1]
  }

  lemma {:induction false} EvidenceStep(energies: seq<real>, noise: real, idxs: seq<int>, i: int, onset: int)
    requires AllEvidence(energies, noise, idxs)
    requires i < |energies| && 0 <= onset <= i - QuietFramesNeeded && energies[onset] > SpeechThreshold(noise)
    requires idxs != [] ==> idxs[|idxs| - 1] < onset
    requires forall j :: i - QuietFramesNeeded < j <= i ==> energies[j] < SilenceThreshold(noise)
    ensures AllEvidence(energies, noise, idxs + [i])
  {
    var n := idxs + [i];
    var prev := if idxs == [] then -1 else idxs[|idxs| - 1];
    assert SpokeBetween(energies, noise, prev, i - QuietFramesNeeded) by {
      assert 0 <= onset < |energies| && prev < onset <= i - QuietFramesNeeded && energies[onset] > SpeechThreshold(noise);
    }
    assert QuietRun(energies, noise, i);
    forall k | 0 <= k < |idxs|
      ensures PauseEvidence(energies, noise, Prev(n, k), n[k])
    {
      assert n[k] == idxs[k] && Prev(n, k) == Prev(idxs, k);
    }
    assert Prev(n, |idxs|) == prev && n[|idxs|] == i;
    assert PauseEvidence(energies, noise, Prev(n, |idxs|), n[|idxs|]);
    forall k | 0 <= k < |n|
      ensures PauseEvidence(energies, noise, Prev(n, k), n[k])
    {
      if k == |idxs| {
      }
    }
  }

  /** `idx * FrameMs` for every frame index. */
  function Scale(idxs: seq<int>): (ms: seq<int>)
    ensures |ms| == |idxs|
    ensures forall k :: 0 <= k < |idxs| ==> ms[k] == idxs[k] * FrameMs
  {
    seq(|idxs|, k requires 0 <= k < |idxs| => idxs[k] * FrameMs)
  }

  /** Frame indices in strictly increasing order, all before frame `i`. */
  predicate FramesBefore(idxs: seq<int>, i: int) {
    && (forall j, k :: 0 <= j < k < |idxs| ==> idxs[j] < idxs[k])
    && (forall k :: 0 <= k < |idxs| ==> 0 <= idxs[k] < i)
  }

  /** While in speech: fewer than `QuietFramesNeeded` quiet frames so far, all
      of them just before frame `i`, after a loud frame `onset` that follows
      the last pause. */
  predicate InSpeech(energies: seq<real>, noise: real, i: int, quiet: int, onset: int, idxs: seq<int>) {
    && 0 <= quiet < QuietFramesNeeded && 0 <= onset < i - quiet && onset < |energies|
    && energies[onset] > SpeechThreshold(noise)
    && (idxs != [] ==> idxs[|idxs| - 1] < onset)
    && (forall j :: i - quiet <= j < i ==> 0 <= j < |energies| && energies[j] < SilenceThreshold(noise))
  }

  /** The detector's state between frames: `in_speech`, `quiet_frames` and
      the pauses so far. */
  datatype Detector = Detector(inSpeech: bool, quiet: int, pauses: seq<int>)

  /** One iteration of the `for idx, e in enumerate(energies)` loop. */
  function Step(st: Detector, idx: int, e: real, noise: real): Detector {
    if st.inSpeech then
      if e < SilenceThreshold(noise) then
        var quiet := st.quiet + 1;
        if quiet * FrameMs >= PauseMinMs then Detector(false, 0, st.pauses + [idx * FrameMs])
        else Detector(true, quiet, st.pauses)
      else Detector(true, 0, st.pauses)
    else if e > SpeechThreshold(noise) then Detector(true, st.quiet, st.pauses)
    else st
  }

  /** What holds after the first `i` frames, with `idxs` the frames of the
      pauses so far and `onset` the loud frame that started the current speech. */
  predicate DetectorInv(energies: seq<real>, noise: real, i: int, st: Detector, idxs: seq<int>, onset: int) {
    && 0 <= i <= |energies|
    && st.pauses == Scale(idxs)
    && FramesBefore(idxs, i)
    && AllEvidence(energies, noise, idxs)
    && (!st.inSpeech ==> st.quiet == 0)
    && (st.inSpeech ==> InSpeech(energies, noise, i, st.quiet, onset, idxs))
  }

  lemma {:induction false} PauseStep(energies: seq<real>, noise: real, i: int, st: Detector, idxs: seq<int>, onset: int)
    requires i < |energies| && DetectorInv(energies, noise, i, st, idxs, onset)
    requires st.inSpeech && energies[i] < SilenceThreshold(noise) && st.quiet + 1 == QuietFramesNeeded
    ensures DetectorInv(energies, noise, i + 1, Step(st, i, energies[i], noise), idxs + [i], onset)
  {
    assert Step(st, i, energies[i], noise) == Detector(false, 0, st.pauses + [i * FrameMs]);
    EvidenceStep(energies, noise, idxs, i, onset);
    FramesBeforeSnoc(idxs, i);
    assert Scale(idxs + [i]) == Scale(idxs) + [i * FrameMs];
  }

  lemma FramesBeforeSnoc(idxs: seq<int>, i: int)
    requires FramesBefore(idxs, i) && 0 <= i
    ensures FramesBefore(idxs + [i], i + 1)
  {
  }

  lemma {:induction false} QuietStep(energies: seq<real>, noise: real, i: int, st: Detector, idxs: seq<int>, onset: int)
    requires i < |energies| && DetectorInv(energies, noise, i, st, idxs, onset)
    requires st.inSpeech && energies[i] < SilenceThreshold(noise) && st.quiet + 1 < QuietFramesNeeded
    ensures DetectorInv(energies, noise, i + 1, Step(st, i, energies[i], noise), idxs, onset)
  {
    assert Step(st, i, energies[i], noise) == Detector(true, st.quiet + 1, st.pauses);
    FramesBeforeLater(idxs, i);
    QuietFrame(energies, noise, i, st.quiet, onset, idxs);
  }

  lemma FramesBeforeLater(idxs: seq<int>, i: int)
    requires FramesBefore(idxs, i)
    ensures FramesBefore(idxs, i + 1)
  {
  }

  /** One more quiet frame, still short of a pause, keeps the detector in speech. */
  lemma QuietFrame(energies: seq<real>, noise: real, i: int, quiet: int, onset: int, idxs: seq<int>)
    requires InSpeech(energies, noise, i, quiet, onset, idxs)
    requires 0 <= i < |energies| && energies[i] < SilenceThreshold(noise) && quiet + 1 < QuietFramesNeeded
    ensures InSpeech(energies, noise, i + 1, quiet + 1, onset, idxs)
  {
  }

  lemma {:induction false} OtherStep(energies: seq<real>, noise: real, i: int, st: Detector, idxs: seq<int>, onset: int)
    requires i < |energies| && DetectorInv(energies, noise, i, st, idxs, onset)
    requires !(st.inSpeech && energies[i] < SilenceThreshold(noise))
    ensures DetectorInv(energies, noise, i + 1, Step(st, i, energies[i], noise), idxs,
                        if !st.inSpeech && energies[i] > SpeechThreshold(noise) then i else onset)
  {
  }

  /** The frame of the last pause, or -1 before the first. */
  function Last(idxs: seq<int>): int {
    if idxs == [] then -1 else idxs[|idxs| - 1]
  }

  /** No frame in `(lo, hi)` rose above the speech threshold. */
  predicate Unspoken(energies: seq<real>, noise: real, lo: int, hi: int) {
    forall s :: lo < s < hi && 0 <= s < |energies| ==> !(energies[s] > SpeechThreshold(noise))
  }

  /** No frame in `(prev, hi)` had the evidence for a pause after `prev`. */
  predicate NoneBefore(energies: seq<real>, noise: real, prev: int, hi: int) {
    forall j :: prev < j < hi ==> !PauseEvidence(energies, noise, prev, j)
  }

  /** Every pause so far is the first frame with evidence after the pause before it. */
  predicate AllFirst(energies: seq<real>, noise: real, idxs: seq<int>) {
    forall k {:trigger NoneBefore(energies, noise, Prev(idxs, k), idxs[k])} ::
      0 <= k < |idxs| ==> NoneBefore(energies, noise, Prev(idxs, k), idxs[k])
  }

  /** What the detector has not missed after the first `i` frames: no pause
      was skipped, none is pending since the last one, and the state records
      the first loud frame and the unbroken quiet run that follows it. */
  predicate Complete(energies: seq<real>, noise: real, i: int, st: Detector, idxs: seq<int>, onset: int) {
    && AllFirst(energies, noise, idxs)
    && NoneBefore(energies, noise, Last(idxs), i)
    && (!st.inSpeech ==> Unspoken(energies, noise, Last(idxs), i))
    && (st.inSpeech ==>
          && Unspoken(energies, noise, Last(idxs), onset)
          && 0 <= i - st.quiet - 1 < |energies|
          && (i - st.quiet - 1 == onset || !(energies[i - st.quiet - 1] < SilenceThreshold(noise))))
  }

  lemma CompleteQuiet(energies: seq<real>, noise: real, i: int, st: Detector, idxs: seq<int>, onset: int)
    requires i < |energies| && DetectorInv(energies, noise, i, st, idxs, onset) && Complete(energies, noise, i, st, idxs, onset)
    requires st.inSpeech && energies[i] < SilenceThreshold(noise) && st.quiet + 1 < QuietFramesNeeded
    ensures Complete(energies, noise, i + 1, Step(st, i, energies[i], noise), idxs, onset)
  {
    assert Step(st, i, energies[i], noise) == Detector(true, st.quiet + 1, st.pauses);
    NoPauseInRun(energies, noise, i, st.quiet, idxs, onset);
  }

  /** A quiet run shorter than a pause, starting after the first loud frame
      since the last pause, holds no evidence for a pause. */
  lemma NoPauseInRun(energies: seq<real>, noise: real, i: int, quiet: int, idxs: seq<int>, onset: int)
    requires 0 <= i < |energies| && 0 <= quiet && quiet + 1 < QuietFramesNeeded && 0 <= onset <= i - quiet - 1
    requires Unspoken(energies, noise, Last(idxs), onset)
    requires i - quiet - 1 == onset || !(energies[i - quiet - 1] < SilenceThreshold(noise))
    ensures !PauseEvidence(energies, noise, Last(idxs), i)
  {
    if SpokeBetween(energies, noise, Last(idxs), i - QuietFramesNeeded) {
      var s :| 0 <= s < |energies| && Last(idxs) < s <= i - QuietFramesNeeded && energies[s] > SpeechThreshold(noise);
      assert onset <= s;
    }
  }

  lemma CompletePause(energies: seq<real>, noise: real, i: int, st: Detector, idxs: seq<int>, onset: int)
    requires i < |energies| && DetectorInv(energies, noise, i, st, idxs, onset) && Complete(energies, noise, i, st, idxs, onset)
    requires st.inSpeech && energies[i] < SilenceThreshold(noise) && st.quiet + 1 == QuietFramesNeeded
    ensures Complete(energies, noise, i + 1, Step(st, i, energies[i], noise), idxs + [i], onset)
  {
    assert Step(st, i, energies[i], noise) == Detector(false, 0, st.pauses + [i * FrameMs]);
    var n := idxs + [i];
    forall k | 0 <= k < |n|
      ensures NoneBefore(energies, noise, Prev(n, k), n[k])
    {
      if k < |idxs| {
        assert Prev(n, k) == Prev(idxs, k) && n[k] == idxs[k];
      } else {
        assert Prev(n, k) == Last(idxs) && n[k] == i;
      }
    }
  }

  lemma CompleteOther(energies: seq<real>, noise: real, i: int, st: Detector, idxs: seq<int>, onset: int)
    requires i < |energies| && DetectorInv(energies, noise, i, st, idxs, onset) && Complete(energies, noise, i, st, idxs, onset)
    requires !(st.inSpeech && energies[i] < SilenceThreshold(noise))
    ensures Complete(energies, noise, i + 1, Step(st, i, energies[i], noise), idxs,
                     if !st.inSpeech && energies[i] > SpeechThreshold(noise) then i else onset)
  {
    var last := Last(idxs);
    if !st.inSpeech {
      NoPauseUnspoken(energies, noise, last, i);
      NoneBeforeExtend(energies, noise, last, i);
      if energies[i] > SpeechThreshold(noise) {
        assert Step(st, i, energies[i], noise) == Detector(true, 0, st.pauses);
      } else {
        assert Step(st, i, energies[i], noise) == st;
        UnspokenExtend(energies, noise, last, i);
      }
    } else {
      assert Step(st, i, energies[i], noise) == Detector(true, 0, st.pauses);
      assert !QuietRun(energies, noise, i);
      NoneBeforeExtend(energies, noise, last, i);
    }
  }

  lemma NoneBeforeExtend(energies: seq<real>, noise: real, prev: int, i: int)
    requires NoneBefore(energies, noise, prev, i) && !PauseEvidence(energies, noise, prev, i)
    ensures NoneBefore(energies, noise, prev, i + 1)
  {
  }

  lemma UnspokenExtend(energies: seq<real>, noise: real, lo: int, i: int)
    requires Unspoken(energies, noise, lo, i) && 0 <= i < |energies| && !(energies[i] > SpeechThreshold(noise))
    ensures Unspoken(energies, noise, lo, i + 1)
  {
  }

  /** Without a loud frame since the last pause there is no evidence for the next. */
  lemma NoPauseUnspoken(energies: seq<real>, noise: real, last: int, i: int)
    requires Unspoken(energies, noise, last, i)
    ensures !PauseEvidence(energies, noise, last, i)
  {
  }

  /** One frame of the detector keeps its invariant, with the pause frames
      and the speech onset updated as the frame dictates. */
  lemma DetectorStep(energies: seq<real>, noise: real, i: int, st: Detector, idxs: seq<int>, onset: int)
    returns (idxs': seq<int>, onset': int)
    requires i < |energies| && DetectorInv(energies, noise, i, st, idxs, onset)
    requires Complete(energies, noise, i, st, idxs, onset)
    ensures DetectorInv(energies, noise, i + 1, Step(st, i, energies[i], noise), idxs', onset')
    ensures Complete(energies, noise, i + 1, Step(st, i, energies[i], noise), idxs', onset')
  {
    if st.inSpeech && energies[i] < SilenceThreshold(noise) {
      onset' := onset;
      if st.quiet + 1 == QuietFramesNeeded {
        PauseStep(energies, noise, i, st, idxs, onset);
        CompletePause(energies, noise, i, st, idxs, onset);
        idxs' := idxs + [i];
      } else {
        QuietStep(energies, noise, i, st, idxs, onset);
        CompleteQuiet(energies, noise, i, st, idxs, onset);
        idxs' := idxs;
      }
    } else {
      OtherStep(energies, noise, i, st, idxs, onset);
      CompleteOther(energies, noise, i, st, idxs, onset);
      idxs' := idxs;
      onset' := if !st.inSpeech && energies[i] > SpeechThreshold(noise) then i else onset;
    }
  }

  /** The speech/quiet state machine of `detect_pauses_energy` over the frame
      energies: pauses are reported in milliseconds, on frame boundaries, in
      strictly increasing order, each one only after a speech frame followed
      by a long enough quiet run, and each at the first frame where that
      evidence is complete; after the last one no further pause was due. */
  method DetectPauses(energies: seq<real>, noise: real) returns (pauses: seq<int>)
    ensures |pauses| <= |energies|
    ensures WellReported(energies, noise, pauses)
    ensures NoneMissed(energies, noise, pauses)
  {
    var st := Detector(false, 0, []);
    ghost var idxs: seq<int> := [];
    ghost var onset := -1;
    var i := 0;
    while i < |energies|
      invariant DetectorInv(energies, noise, i, st, idxs, onset)
      invariant Complete(energies, noise, i, st, idxs, onset)
    {
      idxs, onset := DetectorStep(energies, noise, i, st, idxs, onset);
      st := Step(st, i, energies[i], noise);
      i := i + 1;
    }
    ScaledPauses(energies, noise, idxs);
    ScaledComplete(energies, noise, idxs);
    pauses := st.pauses;
  }

  /** The frame of the pause before pause `k`, or -1 for the first. */
  function PrevFrame(pauses: seq<int>, k: int): int
    requires 0 <= k < |pauses|
  {
    if k == 0 then -1 else pauses[k - 1] / FrameMs
  }

  /** The frame of the last pause, or -1 when there is none. */
  function LastFrame(pauses: seq<int>): int {
    if pauses == [] then -1 else pauses[|pauses| - 1] / FrameMs
  }

  /** The frame of pause `k`. */
  function PauseFrame(pauses: seq<int>, k: int): int
    requires 0 <= k < |pauses|
  {
    pauses[k] / FrameMs
  }

  /** No pause was missed: before each reported pause, and after the last,
      no frame holds the evidence for a pause. */
  predicate NoneMissed(energies: seq<real>, noise: real, pauses: seq<int>) {
    && (forall k {:trigger NoneBefore(energies, noise, PrevFrame(pauses, k), PauseFrame(pauses, k))} ::
          0 <= k < |pauses| ==> NoneBefore(energies, noise, PrevFrame(pauses, k), PauseFrame(pauses, k)))
    && NoneBefore(energies, noise, LastFrame(pauses), |energies|)
  }

  lemma ScaledComplete(energies: seq<real>, noise: real, idxs: seq<int>)
    requires FramesBefore(idxs, |energies|)
    requires AllFirst(energies, noise, idxs) && NoneBefore(energies, noise, Last(idxs), |energies|)
    ensures NoneMissed(energies, noise, Scale(idxs))
  {
    var pauses := Scale(idxs);
    ScaledFrames(idxs, |energies|);
    forall k | 0 <= k < |pauses|
      ensures NoneBefore(energies, noise, PrevFrame(pauses, k), PauseFrame(pauses, k))
    {
      assert PrevFrame(pauses, k) == Prev(idxs, k) && PauseFrame(pauses, k) == idxs[k];
      assert NoneBefore(energies, noise, Prev(idxs, k), idxs[k]);
    }
    assert LastFrame(pauses) == Last(idxs);
  }

  /** Evidence for a pause lies well after the pause it is measured from. */
  lemma EvidenceAfter(energies: seq<real>, noise: real, prev: int, j: int)
    requires PauseEvidence(energies, noise, prev, j)
    ensures prev + QuietFramesNeeded < j < |energies|
  {
  }

  /** Soundness and completeness pin the answer down: at most one list of
      pauses is well reported and misses none. */
  lemma {:induction false} PausesDetermined(energies: seq<real>, noise: real, p: seq<int>, q: seq<int>)
    requires WellReported(energies, noise, p) && NoneMissed(energies, noise, p)
    requires WellReported(energies, noise, q) && NoneMissed(energies, noise, q)
    ensures p == q
  {
    var n := if |p| <= |q| then |p| else |q|;
    SamePrefix(energies, noise, p, q, n);
    if |p| < |q| {
      NothingAfterLast(energies, noise, p, q);
    } else if |q| < |p| {
      NothingAfterLast(energies, noise, q, p);
    }
    assert p == p[..n] && q == q[..n];
  }

  lemma {:induction false} SamePrefix(energies: seq<real>, noise: real, p: seq<int>, q: seq<int>, n: int)
    requires WellReported(energies, noise, p) && NoneMissed(energies, noise, p)
    requires WellReported(energies, noise, q) && NoneMissed(energies, noise, q)
    requires 0 <= n <= |p| && n <= |q|
    ensures p[..n] == q[..n]
  {
    if n > 0 {
      SamePrefix(energies, noise, p, q, n - 1);
      var k := n - 1;
      assert PrevFrame(p, k) == PrevFrame(q, k) by {
        if k > 0 {
          assert p[k - 1] == p[..n - 1][k - 1] == q[..n - 1][k - 1] == q[k - 1];
        }
      }
      var prev := PrevFrame(p, k);
      var a, b := PauseFrame(p, k), PauseFrame(q, k);
      assert PauseEvidence(energies, noise, PrevFrame(p, k), PauseFrame(p, k));
      assert PauseEvidence(energies, noise, PrevFrame(q, k), PauseFrame(q, k));
      assert NoneBefore(energies, noise, PrevFrame(p, k), PauseFrame(p, k));
      assert NoneBefore(energies, noise, PrevFrame(q, k), PauseFrame(q, k));
      EvidenceAfter(energies, noise, prev, a);
      EvidenceAfter(energies, noise, prev, b);
      assert a == b;
      assert p[k] == a * FrameMs == q[k];
      assert p[..n] == p[..n - 1] + [p[k]] && q[..n] == q[..n - 1] + [q[k]];
    }
  }

  /** A list that misses no pause cannot be extended by a well-reported one:
      the next pause would have been due after its last. */
  lemma NothingAfterLast(energies: seq<real>, noise: real, p: seq<int>, q: seq<int>)
    requires NoneMissed(energies, noise, p) && WellReported(energies, noise, q)
    requires |p| <= |q| && p == q[..|p|]
    ensures |q| == |p|
  {
    if |p| < |q| {
      var k := |p|;
      assert LastFrame(p) == PrevFrame(q, k);
      assert PauseEvidence(energies, noise, PrevFrame(q, k), PauseFrame(q, k));
      EvidenceAfter(energies, noise, PrevFrame(q, k), PauseFrame(q, k));
    }
  }

  /** Pauses in milliseconds, on frame boundaries inside the curve, strictly
      increasing, each with its evidence. */
  predicate WellReported(energies: seq<real>, noise: real, pauses: seq<int>) {
    && (forall k :: 0 <= k < |pauses| ==> pauses[k] % FrameMs == 0 && 0 <= pauses[k] / FrameMs < |energies|)
    && (forall j, k :: 0 <= j < k < |pauses| ==> pauses[j] < pauses[k])
    && (forall k {:trigger PauseEvidence(energies, noise, PrevFrame(pauses, k), PauseFrame(pauses, k))} ::
          0 <= k < |pauses| ==> PauseEvidence(energies, noise, PrevFrame(pauses, k), PauseFrame(pauses, k)))
  }

  lemma {:induction false} ScaledPauses(energies: seq<real>, noise: real, idxs: seq<int>)
    requires FramesBefore(idxs, |energies|) && AllEvidence(energies, noise, idxs)
    ensures |idxs| <= |energies|
    ensures WellReported(energies, noise, Scale(idxs))
  {
    var pauses := Scale(idxs);
    ScaledFrames(idxs, |energies|);
    forall k | 0 <= k < |pauses|
      ensures PauseEvidence(energies, noise, PrevFrame(pauses, k), PauseFrame(pauses, k))
    {
      assert PrevFrame(pauses, k) == Prev(idxs, k) && PauseFrame(pauses, k) == idxs[k];
      assert PauseEvidence(energies, noise, Prev(idxs, k), idxs[k]);
    }
    StrictlyBelow(idxs, |energies|);
  }

  lemma ScaledFrames(idxs: seq<int>, n: int)
    requires FramesBefore(idxs, n)
    ensures var pauses := Scale(idxs);
            && (forall k :: 0 <= k < |pauses| ==> pauses[k] % FrameMs == 0 && pauses[k] / FrameMs == idxs[k])
            && (forall j, k :: 0 <= j < k < |pauses| ==> pauses[j] < pauses[k])
  {
  }

  /** Strictly increasing frames below `n` are at most `n` of them. */
  lemma {:induction false} StrictlyBelow(idxs: seq<int>, n: int)
    requires n >= 0 && FramesBefore(idxs, n)
    ensures |idxs| <= n
    decreases |idxs|
  {
    if idxs != [] {
      var last := idxs[|idxs| - 1];
      var init := idxs[..|idxs| - 1];
      assert FramesBefore(init, last);
      StrictlyBelow(init, last);
      assert |idxs| == |init| + 1 && last < n;
    }
  }

  // ---------------------------------------------------------------------
  // Sentences

  /** The sentence-ending characters of the pattern: `. ! ? ؟ …`. */
  predicate IsTerminator(c: char) {
    c == '.' || c == '!' || c == '?' || c as int == 0x061F || c as int == 0x2026
  }

  /** Length of the run at the start of `s` of terminators (`term`) or of
      non-terminators (`!term`). */
  function RunLen(s: string, term: bool): (n: nat)
    ensures n <= |s|
    ensures forall k :: 0 <= k < n ==> IsTerminator(s[k]) == term
    ensures n == |s| || IsTerminator(s[n]) != term
  {
    if s != [] && IsTerminator(s[0]) == term then 1 + RunLen(s[1..], term) else 0
  }

  /** Terminators come only at the end: no terminator is followed by a
      non-terminator. */
  predicate TerminatorsTrail(s: string) {
    forall i, j :: 0 <= i < j < |s| && IsTerminator(s[i]) ==> IsTerminator(s[j])
  }

  /** `re.findall(r"[^.!?؟…]+(?:[.!?؟…]+|$)", t)`: a match is a maximal run of
      non-terminators followed by the maximal run of terminators after it; a
      terminator where a match would have to start is skipped. */
  function Findall(t: string): (ms: seq<string>)
    ensures forall k :: 0 <= k < |ms| ==> ms[k] != [] && TerminatorsTrail(ms[k])
    decreases |t|
  {
    if t == [] then []
    else if IsTerminator(t[0]) then Findall(t[1..])
    else
      var n := RunLen(t, false);
      var m := RunLen(t[n..], true);
      MatchShape(t, n, m);
      [t[..n + m]] + Findall(t[n + m..])
  }

  lemma MatchShape(t: string, n: nat, m: nat)
    requires n == RunLen(t, false) && m == RunLen(t[n..], true)
    ensures t[..n + m] != [] || t == [] || IsTerminator(t[0])
    ensures TerminatorsTrail(t[..n + m])
  {
    var x := t[..n + m];
    forall i, j | 0 <= i < j < |x| && IsTerminator(x[i])
      ensures IsTerminator(x[j])
    {
      assert i >= n && x[j] == t[n..][j - n];
    }
  }

  /** After a match, the text goes on with a non-terminator, if at all. */
  lemma AfterMatch(t: string, n: nat, m: nat)
    requires n == RunLen(t, false) && m == RunLen(t[n..], true)
    ensures RunLen(t[n + m..], true) == 0
  {
    var rest := t[n + m..];
    if rest != [] {
      assert t[n..][m] == rest[0];
    }
  }

  /** The matches cover the text exactly, except for the terminators it starts with. */
  lemma {:induction false} FindallCovers(t: string)
    ensures Concat(Findall(t)) == t[RunLen(t, true)..]
    decreases |t|
  {
    if t == [] {
    } else if IsTerminator(t[0]) {
      FindallCovers(t[1..]);
      assert t[1..][RunLen(t[1..], true)..] == t[RunLen(t, true)..];
    } else {
      var n := RunLen(t, false);
      var m := RunLen(t[n..], true);
      var rest := t[n + m..];
      FindallCovers(rest);
      AfterMatch(t, n, m);
      assert rest[0..] == rest;
      assert t[..n + m] + rest == t;
    }
  }

  lemma StripKeepsTrailing(s: string)
    requires TerminatorsTrail(s)
    ensures TerminatorsTrail(Strip(s))
  {
    var t := Strip(s);
    if Blank(s) {
      assert t == [];
    } else {
      var lo, hi := LeadingSpaces(s), |s| - TrailingSpaces(s);
      assert t == s[lo..hi];
      SliceKeepsTrailing(s, lo, hi);
    }
  }

  lemma SliceKeepsTrailing(s: string, lo: int, hi: int)
    requires TerminatorsTrail(s) && 0 <= lo <= hi <= |s|
    ensures TerminatorsTrail(s[lo..hi])
  {
    var t := s[lo..hi];
    forall i, j | 0 <= i < j < |t| && IsTerminator(t[i])
      ensures IsTerminator(t[j])
    {
      assert t[i] == s[lo + i] && t[j] == s[lo + j];
    }
  }

  function NotSpace(c: char): bool { !IsSpace(c) }

  lemma NonSpaceStrip(s: string)
    ensures Filter(NotSpace, Strip(s)) == Filter(NotSpace, s)
  {
    if Blank(s) {
      FilterNone(NotSpace, s);
    } else {
      NonSpaceTrimmed(s, LeadingSpaces(s), |s| - TrailingSpaces(s));
    }
  }

  /** Cutting whitespace off both ends keeps the non-space characters. */
  lemma NonSpaceTrimmed(s: string, a: int, b: int)
    requires 0 <= a <= b <= |s| && Blank(s[..a]) && Blank(s[b..])
    ensures Filter(NotSpace, s[a..b]) == Filter(NotSpace, s)
  {
    assert s == s[..a] + s[a..b] + s[b..];
    FilterAppend(NotSpace, s[..a] + s[a..b], s[b..]);
    FilterAppend(NotSpace, s[..a], s[a..b]);
    FilterNone(NotSpace, s[..a]);
    FilterNone(NotSpace, s[b..]);
  }

  /** `[s.strip() for s in matches if s.strip()]`. */
  function KeepStripped(ms: seq<string>): (r: seq<string>)
    ensures forall k :: 0 <= k < |r| ==> r[k] != [] && IsStripped(r[k])
  {
    if ms == [] then []
    else (if Strip(ms[0]) == [] then [] else [Strip(ms[0])]) + KeepStripped(ms[1..])
  }

  lemma {:induction false} KeepStrippedNonSpace(ms: seq<string>)
    ensures Filter(NotSpace, Concat(KeepStripped(ms))) == Filter(NotSpace, Concat(ms))
  {
    if ms != [] {
      KeepStrippedNonSpace(ms[1..]);
      NonSpaceStrip(ms[0]);
      FilterAppend(NotSpace, ms[0], Concat(ms[1..]));
      if Strip(ms[0]) == [] {
        assert KeepStripped(ms) == KeepStripped(ms[1..]);
      } else {
        assert KeepStripped(ms) == [Strip(ms[0])] + KeepStripped(ms[1..]);
        FilterAppend(NotSpace, Strip(ms[0]), Concat(KeepStripped(ms[1..])));
      }
    }
  }

  lemma {:induction false} KeepStrippedTrailing(ms: seq<string>)
    requires forall k :: 0 <= k < |ms| ==> TerminatorsTrail(ms[k])
    ensures forall k :: 0 <= k < |KeepStripped(ms)| ==> TerminatorsTrail(KeepStripped(ms)[k])
  {
    if ms != [] {
      KeepStrippedTrailing(ms[1..]);
      StripKeepsTrailing(ms[0]);
    }
  }

  /** `split_into_sentences`: non-empty stripped sentences whose terminators
      all sit at their end, holding every non-space character of the text
      (after the terminators it starts with) once, in order. */
  function SplitIntoSentences(text: string): (r: seq<string>)
    ensures forall k :: 0 <= k < |r| ==> r[k] != [] && IsStripped(r[k]) && TerminatorsTrail(r[k])
    ensures var t := Strip(text);
            Filter(NotSpace, Concat(r)) == Filter(NotSpace, t[RunLen(t, true)..])
  {
    var t := Strip(text);
    KeepStrippedTrailing(Findall(t));
    KeepStrippedNonSpace(Findall(t));
    FindallCovers(t);
    KeepStripped(Findall(t))
  }

  // ---------------------------------------------------------------------
  // Merging short sentences

  lemma BlankHasNoWords(s: string)
    requires Blank(s)
    ensures Split(s) == []
  {
    SplitStrip(s);
  }

  /** The `merge_short` loop from buffer `buf` on (the buffer is only reset
      after it was flushed). */
  function MergeFrom(rest: seq<string>, buf: string, minWords: int): seq<string>
    decreases |rest|
  {
    if rest == [] then (if Blank(buf) then [] else [Strip(buf)])
    else
      var s := rest[0];
      if |Split(s)| < minWords then MergeFrom(rest[1..], buf + " " + s, minWords)
      else if !Blank(buf) then [Strip(buf), s] + MergeFrom(rest[1..], "", minWords)
      else [s] + MergeFrom(rest[1..], buf, minWords)
  }

  lemma FlushWords(buf: string, s: string, tail: seq<string>)
    ensures Words([Strip(buf), s] + tail) == Split(buf) + Split(s) + Words(tail)
  {
    SplitStrip(buf);
    assert Words([Strip(buf), s] + tail) == Split(Strip(buf)) + Words([s] + tail);
    assert Words([s] + tail) == Split(s) + Words(tail);
  }

  /** One step of `MergeFromWords` for a short sentence, given the claim for
      the rest of the list. */
  lemma MergeShortWords(rest: seq<string>, buf: string, minWords: int)
    requires rest != [] && |Split(rest[0])| < minWords
    requires Words(MergeFrom(rest[1..], buf + " " + rest[0], minWords))
             == Split(buf + " " + rest[0]) + Words(rest[1..])
    ensures Words(MergeFrom(rest, buf, minWords)) == Split(buf) + Words(rest)
  {
    var s := rest[0];
    var joined := buf + " " + s;
    assert joined == buf + [' '] + s;
    SplitAround(buf, ' ', s);
    AppendAssoc(Split(buf), Split(s), Words(rest[1..]));
    calc {
      Words(MergeFrom(rest, buf, minWords));
      Words(MergeFrom(rest[1..], joined, minWords));
      Split(joined) + Words(rest[1..]);
      (Split(buf) + Split(s)) + Words(rest[1..]);
      Split(buf) + (Split(s) + Words(rest[1..]));
      Split(buf) + Words(rest);
    }
  }

  /** One step of `MergeFromWords` for a long sentence after a non-blank
      buffer, given the claim for the rest of the list. */
  lemma FlushStepWords(rest: seq<string>, buf: string, minWords: int)
    requires rest != [] && |Split(rest[0])| >= minWords && !Blank(buf)
    requires Words(MergeFrom(rest[1..], "", minWords)) == Split("") + Words(rest[1..])
    ensures Words(MergeFrom(rest, buf, minWords)) == Split(buf) + Words(rest)
  {
    var s := rest[0];
    var tail := MergeFrom(rest[1..], "", minWords);
    assert Split("") == [];
    assert Split("") + Words(rest[1..]) == Words(rest[1..]);
    assert Words(rest) == Split(s) + Words(rest[1..]);
    FlushWords(buf, s, tail);
    AppendAssoc(Split(buf), Split(s), Words(tail));
    calc {
      Words(MergeFrom(rest, buf, minWords));
      Words([Strip(buf), s] + tail);
      Split(buf) + (Split(s) + Words(tail));
      Split(buf) + (Split(s) + Words(rest[1..]));
      Split(buf) + Words(rest);
    }
  }

  /** One step of `MergeFromWords` for a long sentence after a blank buffer,
      given the claim for the rest of the list. */
  lemma KeepStepWords(rest: seq<string>, buf: string, minWords: int)
    requires rest != [] && |Split(rest[0])| >= minWords && Blank(buf)
    requires Words(MergeFrom(rest[1..], buf, minWords)) == Split(buf) + Words(rest[1..])
    ensures Words(MergeFrom(rest, buf, minWords)) == Split(buf) + Words(rest)
  {
    var s := rest[0];
    var tail := MergeFrom(rest[1..], buf, minWords);
    assert Words(rest) == Split(s) + Words(rest[1..]);
    assert MergeFrom(rest, buf, minWords) == [s] + tail;
    assert Words([s] + tail) == Split(s) + Words(tail);
    BlankHasNoWords(buf);
  }

  lemma {:induction false} MergeFromWords(rest: seq<string>, buf: string, minWords: int)
    ensures Words(MergeFrom(rest, buf, minWords)) == Split(buf) + Words(rest)
    decreases |rest|
  {
    if rest == [] {
      if Blank(buf) {
        BlankHasNoWords(buf);
      } else {
        SplitStrip(buf);
        assert Words([Strip(buf)]) == Split(Strip(buf)) + Words([]);
      }
    } else if |Split(rest[0])| < minWords {
      MergeFromWords(rest[1..], buf + " " + rest[0], minWords);
      MergeShortWords(rest, buf, minWords);
    } else if !Blank(buf) {
      MergeFromWords(rest[1..], "", minWords);
      FlushStepWords(rest, buf, minWords);
    } else {
      MergeFromWords(rest[1..], buf, minWords);
      KeepStepWords(rest, buf, minWords);
    }
  }

  lemma {:induction false} MergeFromShape(rest: seq<string>, buf: string, minWords: int)
    ensures var r := MergeFrom(rest, buf, minWords);
            && (minWords >= 1 ==> forall k :: 0 <= k < |r| ==> !Blank(r[k]))
            && (forall s :: s in rest && |Split(s)| >= minWords ==> s in r)
    decreases |rest|
  {
    if rest != [] {
      var s := rest[0];
      if minWords >= 1 && |Split(s)| >= minWords && Blank(s) {
        BlankHasNoWords(s);
      }
      if |Split(s)| < minWords {
        assert MergeFrom(rest, buf, minWords) == MergeFrom(rest[1..], buf + " " + s, minWords);
        MergeFromShape(rest[1..], buf + " " + s, minWords);
      } else if !Blank(buf) {
        assert MergeFrom(rest, buf, minWords) == [Strip(buf), s] + MergeFrom(rest[1..], "", minWords);
        MergeFromShape(rest[1..], "", minWords);
        StripStrips(buf);
      } else {
        assert MergeFrom(rest, buf, minWords) == [s] + MergeFrom(rest[1..], buf, minWords);
        MergeFromShape(rest[1..], buf, minWords);
      }
    } else if !Blank(buf) {
      StripStrips(buf);
    }
  }

  lemma StripStrips(s: string)
    requires !Blank(s)
    ensures !Blank(Strip(s))
  {
  }

  /** `merge_short`: sentences under `minWords` words are glued onto a
      buffer that is flushed before the next long sentence and at the end.
      No word is lost, added or reordered; every long sentence survives
      verbatim; and with `minWords >= 1` nothing blank comes out. */
  function MergeShort(sentences: seq<string>, minWords: int): (r: seq<string>)
    ensures Words(r) == Words(sentences)
    ensures minWords >= 1 ==> forall k :: 0 <= k < |r| ==> !Blank(r[k])
    ensures forall s :: s in sentences && |Split(s)| >= minWords ==> s in r
  {
    MergeFromWords(sentences, "", minWords);
    MergeFromShape(sentences, "", minWords);
    assert Split("") == [];
    MergeFrom(sentences, "", minWords)
  }

  // ---------------------------------------------------------------------
  // Splitting long sentences

  /** The inner `for w in words` loop of `split_long` from the open chunk on. */
  function PieceLoop(words: seq<string>, chunk: seq<string>, maxWords: int): seq<string>
    decreases |words|
  {
    if words == [] then (if chunk == [] then [] else [Join(" ", chunk)])
    else
      var c := chunk + [words[0]];
      if |c| >= maxWords then [Join(" ", c)] + PieceLoop(words[1..], [], maxWords)
      else PieceLoop(words[1..], c, maxWords)
  }

  predicate AllWords(ws: seq<string>) {
    forall k :: 0 <= k < |ws| ==> IsWord(ws[k])
  }

  lemma {:induction false} PieceLoopWords(words: seq<string>, chunk: seq<string>, maxWords: int)
    requires AllWords(words) && AllWords(chunk)
    ensures Words(PieceLoop(words, chunk, maxWords)) == chunk + words
    decreases |words|
  {
    if words == [] {
      if chunk != [] {
        SplitJoinWords(chunk);
        assert Words([Join(" ", chunk)]) == Split(Join(" ", chunk)) + Words([]);
      }
    } else {
      var c := chunk + [words[0]];
      assert AllWords(c);
      assert c + words[1..] == chunk + words;
      if |c| >= maxWords {
        SplitJoinWords(c);
        PieceLoopWords(words[1..], [], maxWords);
        var tail := PieceLoop(words[1..], [], maxWords);
        assert Words([Join(" ", c)] + tail) == Split(Join(" ", c)) + Words(tail);
      } else {
        PieceLoopWords(words[1..], c, maxWords);
      }
    }
  }

  /** A piece holds between one and `max(maxWords, 1)` words. */
  predicate Sized(x: string, maxWords: int) {
    1 <= |Split(x)| <= MaxInt(maxWords, 1)
  }

  predicate SizedPieces(r: seq<string>, maxWords: int) {
    forall k :: 0 <= k < |r| ==> Sized(r[k], maxWords)
  }

  lemma SizedCons(x: string, r: seq<string>, maxWords: int)
    requires Sized(x, maxWords) && SizedPieces(r, maxWords)
    ensures SizedPieces([x] + r, maxWords)
  {
    assert forall k :: 1 <= k < |[x] + r| ==> ([x] + r)[k] == r[k - 1];
  }

  lemma {:induction false} PieceLoopSizes(words: seq<string>, chunk: seq<string>, maxWords: int)
    requires AllWords(words) && AllWords(chunk)
    requires chunk == [] || |chunk| < maxWords
    ensures SizedPieces(PieceLoop(words, chunk, maxWords), maxWords)
    decreases |words|
  {
    if words == [] {
      if chunk != [] {
        SplitJoinWords(chunk);
        SizedCons(Join(" ", chunk), [], maxWords);
        assert PieceLoop(words, chunk, maxWords) == [Join(" ", chunk)] + [];
      }
    } else {
      var c := chunk + [words[0]];
      assert AllWords(c);
      if |c| >= maxWords {
        SplitJoinWords(c);
        PieceLoopSizes(words[1..], [], maxWords);
        SizedCons(Join(" ", c), PieceLoop(words[1..], [], maxWords), maxWords);
        assert PieceLoop(words, chunk, maxWords) == [Join(" ", c)] + PieceLoop(words[1..], [], maxWords);
      } else {
        assert PieceLoop(words, chunk, maxWords) == PieceLoop(words[1..], c, maxWords);
        PieceLoopSizes(words[1..], c, maxWords);
      }
    }
  }

  /** What `split_long` makes of one sentence. */
  function SplitOne(s: string, maxWords: int): seq<string> {
    var words := Split(s);
    if |words| <= maxWords then [s] else PieceLoop(words, [], maxWords)
  }

  /** `split_long`. */
  function SplitLongLoop(sentences: seq<string>, maxWords: int): seq<string> {
    if sentences == [] then [] else SplitOne(sentences[0], maxWords) + SplitLongLoop(sentences[1..], maxWords)
  }

  lemma SplitOneProps(s: string, maxWords: int)
    ensures Words(SplitOne(s, maxWords)) == Split(s)
    ensures forall x :: x in SplitOne(s, maxWords) ==> |Split(x)| <= MaxInt(maxWords, 1) && (x == s || |Split(x)| >= 1)
    ensures |Split(s)| <= maxWords ==> SplitOne(s, maxWords) == [s]
  {
    var r := SplitOne(s, maxWords);
    if |Split(s)| <= maxWords {
      assert r == [s];
      assert Words([s]) == Split(s) + Words([]);
    } else {
      SplitOneLong(s, maxWords);
      forall x | x in r
        ensures |Split(x)| <= MaxInt(maxWords, 1) && |Split(x)| >= 1
      {
        var k :| 0 <= k < |r| && r[k] == x;
        assert Sized(r[k], maxWords);
      }
    }
  }

  /** A sentence over the limit is cut into sized pieces holding its words. */
  lemma SplitOneLong(s: string, maxWords: int)
    requires |Split(s)| > maxWords
    ensures Words(SplitOne(s, maxWords)) == Split(s)
    ensures SizedPieces(SplitOne(s, maxWords), maxWords)
  {
    var words := Split(s);
    assert AllWords(words);
    PiecesHoldWords(words, maxWords);
    PieceLoopSizes(words, [], maxWords);
    assert SplitOne(s, maxWords) == PieceLoop(words, [], maxWords);
  }

  lemma PiecesHoldWords(words: seq<string>, maxWords: int)
    requires AllWords(words)
    ensures Words(PieceLoop(words, [], maxWords)) == words
  {
    PieceLoopWords(words, [], maxWords);
    assert [] + words == words;
  }

  lemma {:induction false} SplitLongWords(sentences: seq<string>, maxWords: int)
    ensures Words(SplitLongLoop(sentences, maxWords)) == Words(sentences)
  {
    if sentences != [] {
      SplitLongWords(sentences[1..], maxWords);
      SplitOneProps(sentences[0], maxWords);
      WordsAppend(SplitOne(sentences[0], maxWords), SplitLongLoop(sentences[1..], maxWords));
    }
  }

  lemma {:induction false} SplitLongPieces(sentences: seq<string>, maxWords: int)
    ensures forall x :: x in SplitLongLoop(sentences, maxWords) ==>
              |Split(x)| <= MaxInt(maxWords, 1) && (x in sentences || |Split(x)| >= 1)
    ensures forall s :: s in sentences && |Split(s)| <= maxWords ==> s in SplitLongLoop(sentences, maxWords)
  {
    if sentences != [] {
      SplitLongPieces(sentences[1..], maxWords);
      SplitOneProps(sentences[0], maxWords);
    }
  }

  /** `split_long`: no word is lost, added or reordered; every piece has at
      most `maxWords` words (one, if `maxWords` is below one); a sentence
      within the limit survives verbatim, and every piece cut from a longer
      one holds at least one word. */
  function SplitLong(sentences: seq<string>, maxWords: int): (r: seq<string>)
    ensures Words(r) == Words(sentences)
    ensures forall x :: x in r ==> |Split(x)| <= MaxInt(maxWords, 1) && (x in sentences || |Split(x)| >= 1)
    ensures forall s :: s in sentences && |Split(s)| <= maxWords ==> s in r
  {
    SplitLongWords(sentences, maxWords);
    SplitLongPieces(sentences, maxWords);
    SplitLongLoop(sentences, maxWords)
  }

  // ---------------------------------------------------------------------
  // Windows

  /** `round(ms / 1000, 3)`: a whole number of milliseconds in seconds. */
  function Seconds(ms: int): real {
    ms as real / 1000.0
  }

  /** `assign_text_to_pauses`: one segment per sentence, numbered from 0, with
      the windows between `0`, the pauses and `totalMs`. Sentence `k` gets
      window `k`; when there are more sentences than windows, the surplus
      ones all get the last window. */
  function AssignTextToPauses(sentences: seq<string>, pauses: seq<int>, totalMs: int): (r: seq<Seg>)
    ensures |r| == |sentences|
    ensures var stops := [0] + pauses + [totalMs];
            forall k :: 0 <= k < |r| ==>
              && r[k].id == k && r[k].text == sentences[k]
              && r[k].start == Seconds(stops[MinInt(k, |stops| - 2)])
              && r[k].end == Seconds(stops[MinInt(k + 1, |stops| - 1)])
  {
    var stops := [0] + pauses + [totalMs];
    if |stops| - 1 < |sentences| then
      seq(|sentences|, idx requires 0 <= idx < |sentences| =>
        Seg(idx, Seconds(stops[MinInt(idx, |stops| - 2)]), Seconds(stops[MinInt(idx + 1, |stops| - 1)]), sentences[idx]))
    else
      AssignWindows(sentences, stops, 0)
  }

  /** The `for i in range(len(stops) - 1)` loop, which stops once the
      sentences run out. */
  function AssignWindows(sentences: seq<string>, stops: seq<int>, i: nat): (r: seq<Seg>)
    requires |sentences| <= |stops| - 1 && i <= |sentences|
    ensures |r| == |sentences| - i
    ensures forall k :: 0 <= k < |r| ==>
              r[k] == Seg(i + k, Seconds(stops[i + k]), Seconds(stops[i + k + 1]), sentences[i + k])
    decreases |sentences| - i
  {
    if i == |sentences| then []
    else [Seg(i, Seconds(stops[i]), Seconds(stops[i + 1]), sentences[i])] + AssignWindows(sentences, stops, i + 1)
  }

  predicate Sorted(xs: seq<int>) {
    forall i, j :: 0 <= i < j < |xs| ==> xs[i] <= xs[j]
  }

  /** With pauses in order inside `[0, totalMs]`, every segment ends no
      earlier than it starts, and the segments start in order. */
  lemma AssignedInOrder(sentences: seq<string>, pauses: seq<int>, totalMs: int)
    requires Sorted([0] + pauses + [totalMs])
    ensures var r := AssignTextToPauses(sentences, pauses, totalMs);
            && (forall k :: 0 <= k < |r| ==> r[k].start <= r[k].end)
            && (forall j, k :: 0 <= j < k < |r| ==> r[j].start <= r[k].start)
  {
    var stops := [0] + pauses + [totalMs];
    var r := AssignTextToPauses(sentences, pauses, totalMs);
    forall k | 0 <= k < |r|
      ensures r[k].start <= r[k].end
    {
      var a, b := MinInt(k, |stops| - 2), MinInt(k + 1, |stops| - 1);
      assert a <= b && stops[a] <= stops[b];
      SecondsMonotone(stops[a], stops[b]);
    }
    forall j, k | 0 <= j < k < |r|
      ensures r[j].start <= r[k].start
    {
      var a, b := MinInt(j, |stops| - 2), MinInt(k, |stops| - 2);
      assert a <= b && stops[a] <= stops[b];
      SecondsMonotone(stops[a], stops[b]);
    }
  }

  lemma SecondsMonotone(x: int, y: int)
    requires x <= y
    ensures Seconds(x) <= Seconds(y)
  {
  }

  // ---------------------------------------------------------------------
  // The whole segmenter

  /** `semantic_segment` given the energy curve and its noise floor: one
      segment per sentence, each of at most 22 words, holding together
      exactly the words of the sentences of the transcript, in order, at
      non-negative times. */
  method SemanticSegment(totalMs: nat, energies: seq<real>, noise: real, fullText: string) returns (segs: seq<Seg>)
    ensures Words(Texts(segs)) == Words(SplitIntoSentences(fullText))
    ensures forall k :: 0 <= k < |segs| ==> segs[k].id == k && |Split(segs[k].text)| <= MaxWords
    ensures forall k :: 0 <= k < |segs| ==> segs[k].start >= 0.0 && segs[k].end >= 0.0
  {
    var pauses := DetectPauses(energies, noise);
    ReportedNonNegative(energies, noise, pauses);
    var sentences := SplitIntoSentences(fullText);
    var sents := SplitLong(MergeShort(sentences, MinWords), MaxWords);
    segs := AssignTextToPauses(sents, pauses, totalMs);
    AssignedTexts(sents, pauses, totalMs);
    AssignedAtNonNegativeTimes(sents, pauses, totalMs);
    forall k | 0 <= k < |segs|
      ensures |Split(segs[k].text)| <= MaxWords
    {
      assert segs[k].text == sents[k] && sents[k] in sents;
    }
  }

  /** Reported pauses lie at non-negative times. */
  lemma ReportedNonNegative(energies: seq<real>, noise: real, pauses: seq<int>)
    requires WellReported(energies, noise, pauses)
    ensures forall k :: 0 <= k < |pauses| ==> pauses[k] >= 0
  {
    forall k | 0 <= k < |pauses|
      ensures pauses[k] >= 0
    {
      assert 0 <= pauses[k] / FrameMs;
    }
  }

  lemma AssignedTexts(sentences: seq<string>, pauses: seq<int>, totalMs: int)
    ensures Texts(AssignTextToPauses(sentences, pauses, totalMs)) == sentences
  {
  }

  /** Windows cut at non-negative stops start and end at non-negative times. */
  lemma AssignedAtNonNegativeTimes(sentences: seq<string>, pauses: seq<int>, totalMs: int)
    requires totalMs >= 0 && forall k :: 0 <= k < |pauses| ==> pauses[k] >= 0
    ensures var r := AssignTextToPauses(sentences, pauses, totalMs);
            forall k :: 0 <= k < |r| ==> r[k].start >= 0.0 && r[k].end >= 0.0
  {
    var stops := [0] + pauses + [totalMs];
    var r := AssignTextToPauses(sentences, pauses, totalMs);
    assert forall k :: 0 <= k < |stops| ==> stops[k] >= 0;
    forall k | 0 <= k < |r|
      ensures r[k].start >= 0.0 && r[k].end >= 0.0
    {
      SecondsMonotone(0, stops[MinInt(k, |stops| - 2)]);
      SecondsMonotone(0, stops[MinInt(k + 1, |stops| - 1)]);
    }
  }
}
