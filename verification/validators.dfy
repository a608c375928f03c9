/** The validation gates between pipeline stages. Each gate reads a file
    the previous stage wrote; the model takes the parsed content as input
    (with the file's absence or unreadability as explicit cases) and answers
    with the first failure the Python code would raise, or success. */
module Validators {
  import opened Results
  import opened Numeric
  import opened Text

  // ---------------------------------------------------------------------
  // Whisper transcript

  datatype WhisperSeg = WhisperSeg(start: Option<real>, end: Option<real>, text: Option<string>)

  datatype WhisperJson = WhisperJson(text: Option<string>, segments: Option<seq<WhisperSeg>>, language: Option<string>)

  /** A JSON file on disk: absent, not parseable, or parsed. */
  datatype JsonFile<T> = NotFound | Unparseable | Parsed(data: T)

  /** The first entry of `ps` from `i` on that reports a problem: every
      gate walks its items in order and stops at the first failure. */
  function FirstProblem<E>(ps: seq<Option<E>>, i: nat): (r: Option<nat>)
    requires i <= |ps|
    ensures r.None? <==> forall k :: i <= k < |ps| ==> ps[k].None?
    ensures r.Some? ==> i <= r.value < |ps| && ps[r.value].Some? && forall j :: i <= j < r.value ==> ps[j].None?
    decreases |ps| - i
  {
    if i == |ps| then None
    else if ps[i].Some? then Some(i)
    else FirstProblem(ps, i + 1)
  }

  datatype WhisperError =
    | JsonNotFound
    | InvalidJson
    | EmptyText
    | NoSegments
    | MissingKey(index: nat, key: string)
    | InvalidTimestamps(index: nat)
    | EmptySegmentText(index: nat)
    | LanguageMismatch

  const MinTextLength: int := 3

  /** The first problem with one segment: a missing key (checked in the order
      start, end, text), then `end <= start`, then blank text. */
  function SegmentProblem(i: nat, seg: WhisperSeg): (r: Option<WhisperError>)
    ensures r.None? <==> && seg.start.Some? && seg.end.Some? && seg.text.Some?
                         && seg.end.value > seg.start.value && !Blank(seg.text.value)
    ensures r.Some? ==> r.value.MissingKey? || r.value == InvalidTimestamps(i) || r.value == EmptySegmentText(i)
    ensures r.Some? && r.value.MissingKey? ==> r.value.index == i
  {
    if seg.start.None? then Some(MissingKey(i, "start"))
    else if seg.end.None? then Some(MissingKey(i, "end"))
    else if seg.text.None? then Some(MissingKey(i, "text"))
    else if seg.end.value <= seg.start.value then Some(InvalidTimestamps(i))
    else if Blank(seg.text.value) then Some(EmptySegmentText(i))
    else None
  }

  function SegmentProblems(segs: seq<WhisperSeg>): (ps: seq<Option<WhisperError>>)
    ensures |ps| == |segs| && forall k :: 0 <= k < |segs| ==> ps[k] == SegmentProblem(k, segs[k])
  {
    seq(|segs|, k requires 0 <= k < |segs| => SegmentProblem(k, segs[k]))
  }

  /** The language forms accepted for an expected language: the code itself,
      and for "ar" also "arabic". */
  predicate LanguageAccepted(expected: Option<string>, detected: Option<string>) {
    expected.None? || expected.value == [] ||
    (detected.Some? && (detected.value == expected.value || (expected.value == "ar" && detected.value == "arabic")))
  }

  /** A transcript the gate lets through, stated as one condition. */
  predicate WhisperValid(data: WhisperJson, expected: Option<string>) {
    && data.text.Some? && |Strip(data.text.value)| >= MinTextLength
    && data.segments.Some? && data.segments.value != []
    && (forall k :: 0 <= k < |data.segments.value| ==> SegmentProblem(k, data.segments.value[k]).None?)
    && LanguageAccepted(expected, data.language)
  }

  /** `assert_valid_whisper`. */
  function ValidateWhisper(file: JsonFile<WhisperJson>, expected: Option<string>): (r: Result<nat, WhisperError>)
    ensures file.NotFound? ==> r == Err(JsonNotFound)
    ensures file.Unparseable? ==> r == Err(InvalidJson)
    ensures file.Parsed? ==> (r.Ok? <==> WhisperValid(file.data, expected))
    ensures r.Ok? ==> file.Parsed? && r.value == |file.data.segments.value|
    ensures file.Parsed? && (file.data.text.None? || |Strip(file.data.text.value)| < MinTextLength) ==> r == Err(EmptyText)
    ensures r == Err(NoSegments) <==>
              && file.Parsed? && file.data.text.Some? && |Strip(file.data.text.value)| >= MinTextLength
              && (file.data.segments.None? || file.data.segments.value == [])
    ensures r.Err? && (r.error.MissingKey? || r.error.InvalidTimestamps? || r.error.EmptySegmentText?) ==>
              && file.Parsed? && file.data.segments.Some?
              && var segs := file.data.segments.value;
              && r.error.index < |segs| && Some(r.error) == SegmentProblem(r.error.index, segs[r.error.index])
              && forall j :: 0 <= j < r.error.index ==> SegmentProblem(j, segs[j]).None?
    ensures r == Err(LanguageMismatch) ==> file.Parsed? && !LanguageAccepted(expected, file.data.language)
  {
    match file {
      case NotFound => Err(JsonNotFound)
      case Unparseable => Err(InvalidJson)
      case Parsed(data) =>
        if data.text.None? || |Strip(data.text.value)| < MinTextLength then Err(EmptyText)
        else if data.segments.None? || data.segments.value == [] then Err(NoSegments)
        else match SegmentsError(data.segments.value) {
          case Some(e) => Err(e)
          case None =>
            if !LanguageAccepted(expected, data.language) then Err(LanguageMismatch)
            else Ok(|data.segments.value|)
        }
    }
  }

  /** The segment loop of the gate: the first segment's problem, if any. */
  function SegmentsError(segs: seq<WhisperSeg>): (r: Option<WhisperError>)
    ensures r.None? <==> forall k :: 0 <= k < |segs| ==> SegmentProblem(k, segs[k]).None?
    ensures r.Some? ==> && (r.value.MissingKey? || r.value.InvalidTimestamps? || r.value.EmptySegmentText?)
                        && r.value.index < |segs| && Some(r.value) == SegmentProblem(r.value.index, segs[r.value.index])
                        && forall j :: 0 <= j < r.value.index ==> SegmentProblem(j, segs[j]).None?
  {
    var ps := SegmentProblems(segs);
    match FirstProblem(ps, 0) {
      case Some(k) => ps[k]
      case None => None
    }
  }

  /** "ar" is answered by "ar" or "arabic", any other expected language only
      by itself, and no expected language by anything. */
  lemma LanguageRules(expected: Option<string>, detected: Option<string>)
    ensures expected == Some("ar") ==>
              (LanguageAccepted(expected, detected) <==> detected == Some("ar") || detected == Some("arabic"))
    ensures expected.Some? && expected.value != [] && expected.value != "ar" ==>
              (LanguageAccepted(expected, detected) <==> detected == expected)
    ensures expected.None? ==> LanguageAccepted(expected, detected)
  {
  }

  // ---------------------------------------------------------------------
  // Translation

  datatype TranslationRecord = TranslationRecord(
    id: Option<int>, start: Option<real>, end: Option<real>, src: Option<string>, dst: Option<string>)

  datatype TranslationError =
    | NotASegmentList
    | MissingField(index: nat, key: string)
    | EmptyTranslation(index: nat)
    | TooShort(index: nat)

  const DefaultMinRatio: real := 0.5

  /** How long the translation is next to its source (an empty source
      counts as one character). */
  function LengthRatio(src: string, dst: string): real {
    |dst| as real / MaxInt(1, |src|) as real
  }

  function RecordProblem(i: nat, rec: TranslationRecord, minRatio: real): (r: Option<TranslationError>)
    ensures r.None? <==> && rec.id.Some? && rec.start.Some? && rec.end.Some? && rec.src.Some? && rec.dst.Some?
                         && !Blank(rec.dst.value) && LengthRatio(rec.src.value, rec.dst.value) >= minRatio
    ensures r.Some? ==> !r.value.NotASegmentList? && r.value.index == i
  {
    if rec.id.None? then Some(MissingField(i, "id"))
    else if rec.start.None? then Some(MissingField(i, "start"))
    else if rec.end.None? then Some(MissingField(i, "end"))
    else if rec.src.None? then Some(MissingField(i, "src"))
    else if rec.dst.None? then Some(MissingField(i, "dst"))
    else if Blank(rec.dst.value) then Some(EmptyTranslation(i))
    else if LengthRatio(rec.src.value, rec.dst.value) < minRatio then Some(TooShort(i))
    else None
  }

  function RecordProblems(recs: seq<TranslationRecord>, minRatio: real): (ps: seq<Option<TranslationError>>)
    ensures |ps| == |recs| && forall k :: 0 <= k < |recs| ==> ps[k] == RecordProblem(k, recs[k], minRatio)
  {
    seq(|recs|, k requires 0 <= k < |recs| => RecordProblem(k, recs[k], minRatio))
  }

  /** `assert_valid_translation` on the parsed file (`None` when it is not a
      list): a non-empty list whose every record is complete, has a non-blank
      translation and is not too short next to its source. */
  function ValidateTranslation(data: Option<seq<TranslationRecord>>, minRatio: real): (r: Result<nat, TranslationError>)
    ensures data.None? || data.value == [] ==> r == Err(NotASegmentList)
    ensures data.Some? && data.value != [] ==>
              (r.Ok? <==> forall k :: 0 <= k < |data.value| ==> RecordProblem(k, data.value[k], minRatio).None?)
    ensures r.Ok? ==> data.Some? && r.value == |data.value|
    ensures r.Err? && !r.error.NotASegmentList? ==>
              data.Some? && r.error.index < |data.value|
              && Some(r.error) == RecordProblem(r.error.index, data.value[r.error.index], minRatio)
  {
    if data.None? || data.value == [] then Err(NotASegmentList)
    else match FirstProblem(RecordProblems(data.value, minRatio), 0) {
      case Some(k) => Err(RecordProblems(data.value, minRatio)[k].value)
      case None => Ok(|data.value|)
    }
  }

  // ---------------------------------------------------------------------
  // Chunks

  datatype ChunkFile = ChunkFile(text: string, start: real, end: real)

  datatype ChunkError =
    | NoChunks
    | EmptyChunkText(index: nat)
    | InvalidTimeRange(index: nat)
    | TooManyCharacters(index: nat)

  const MaxChunkChars: int := 350
  const LongChunkSeconds: real := 20.0

  /** A chunk fails on blank text, then on a non-positive duration, then on
      more than 350 characters once stripped. */
  function ChunkProblem(i: nat, c: ChunkFile): (r: Option<ChunkError>)
    ensures r.None? <==> !Blank(c.text) && c.end - c.start > 0.0 && |Strip(c.text)| <= MaxChunkChars
    ensures r.Some? ==> !r.value.NoChunks? && r.value.index == i
  {
    var text := Strip(c.text);
    if text == [] then Some(EmptyChunkText(i))
    else if c.end - c.start <= 0.0 then Some(InvalidTimeRange(i))
    else if |text| > MaxChunkChars then Some(TooManyCharacters(i))
    else None
  }

  function ChunkProblems(cs: seq<ChunkFile>): (ps: seq<Option<ChunkError>>)
    ensures |ps| == |cs| && forall k :: 0 <= k < |cs| ==> ps[k] == ChunkProblem(k, cs[k])
  {
    seq(|cs|, k requires 0 <= k < |cs| => ChunkProblem(k, cs[k]))
  }

  /** The chunks from `i` on that last longer than 20 seconds. */
  function LongChunks(cs: seq<ChunkFile>, i: nat): (ws: seq<nat>)
    requires i <= |cs|
    ensures forall w :: w in ws <==> i <= w < |cs| && cs[w].end - cs[w].start > LongChunkSeconds
    decreases |cs| - i
  {
    if i == |cs| then []
    else if cs[i].end - cs[i].start > LongChunkSeconds then [i] + LongChunks(cs, i + 1)
    else LongChunks(cs, i + 1)
  }

  /** `assert_valid_chunks` over the chunk files in name order: an error when
      there is none or one fails; otherwise the chunks it only warns about. A
      long chunk is never rejected for its length in time. */
  function ValidateChunks(cs: seq<ChunkFile>): (r: Result<seq<nat>, ChunkError>)
    ensures cs == [] ==> r == Err(NoChunks)
    ensures cs != [] ==> (r.Ok? <==> forall k :: 0 <= k < |cs| ==> ChunkProblem(k, cs[k]).None?)
    ensures r.Ok? ==> forall w :: w in r.value <==> 0 <= w < |cs| && cs[w].end - cs[w].start > LongChunkSeconds
    ensures r.Err? && !r.error.NoChunks? ==>
              && r.error.index < |cs| && Some(r.error) == ChunkProblem(r.error.index, cs[r.error.index])
              && forall j :: 0 <= j < r.error.index ==> ChunkProblem(j, cs[j]).None?
  {
    if cs == [] then Err(NoChunks)
    else match FirstProblem(ChunkProblems(cs), 0) {
      case Some(k) => Err(ChunkProblems(cs)[k].value)
      case None => Ok(LongChunks(cs, 0))
    }
  }

  // ---------------------------------------------------------------------
  // Synthesised speech chunk

  /** A WAV file as the gates see it: whether it exists, its size, and its
      header (`None` when `wave.open` fails). */
  datatype WavFile = WavFile(exists_: bool, sizeBytes: int, header: Option<(int, int)>)

  datatype TtsError = TtsMissing | TtsTooSmall | InvalidWav | TtsTooShort | TtsTooLong

  const MinTtsBytes: int := 2000
  const MinTtsSeconds: real := 0.3
  const MaxTtsSeconds: real := 20.0

  /** `frames / float(rate)`; a zero rate raises, which the gate reports as
      an unreadable file. */
  function WavDuration(header: Option<(int, int)>): Option<real> {
    if header.None? || header.value.1 == 0 then None
    else Some(header.value.0 as real / header.value.1 as real)
  }

  /** `assert_valid_tts_chunk`: success exactly for an existing file of at
      least 2000 bytes, with a readable header, lasting 0.3 to 20 seconds. */
  function ValidateTtsChunk(f: WavFile): (r: Result<real, TtsError>)
    ensures r.Ok? <==> && f.exists_ && f.sizeBytes >= MinTtsBytes && WavDuration(f.header).Some?
                       && MinTtsSeconds <= WavDuration(f.header).value <= MaxTtsSeconds
    ensures r.Ok? ==> r.value == WavDuration(f.header).value
    ensures !f.exists_ ==> r == Err(TtsMissing)
    ensures f.exists_ && f.sizeBytes < MinTtsBytes ==> r == Err(TtsTooSmall)
  {
    if !f.exists_ then Err(TtsMissing)
    else if f.sizeBytes < MinTtsBytes then Err(TtsTooSmall)
    else match WavDuration(f.header) {
      case None => Err(InvalidWav)
      case Some(d) =>
        if d < MinTtsSeconds then Err(TtsTooShort)
        else if d > MaxTtsSeconds then Err(TtsTooLong)
        else Ok(d)
    }
  }

  // ---------------------------------------------------------------------
  // Final audio

  /** Why the final-audio gate fails. Every failure after the existence check
      is raised inside a `try` whose handler re-raises it as the same error
      class, so only the cause differs. */
  datatype FinalCause = Unreadable | FinalTooShort
  datatype FinalAudioError = FinalNotFound | FinalInvalid(cause: FinalCause)

  const MinFinalSeconds: real := 0.5
  const LongFinalSeconds: real := 600.0

  /** `assert_valid_final_audio` (helpers version): the duration and whether
      it earns the "very long audio" warning. */
  function ValidateFinalAudio(f: WavFile): (r: Result<(real, bool), FinalAudioError>)
    ensures r.Ok? <==> f.exists_ && WavDuration(f.header).Some? && WavDuration(f.header).value >= MinFinalSeconds
    ensures r.Ok? ==> r.value.0 == WavDuration(f.header).value && (r.value.1 <==> r.value.0 > LongFinalSeconds)
    ensures f.exists_ && r.Err? ==> r.error.FinalInvalid?
  {
    if !f.exists_ then Err(FinalNotFound)
    else match WavDuration(f.header) {
      case None => Err(FinalInvalid(Unreadable))
      case Some(d) =>
        if d < MinFinalSeconds then Err(FinalInvalid(FinalTooShort))
        else Ok((d, d > LongFinalSeconds))
    }
  }
}
