# dubfilm timing and segmentation core, in Dafny

dubfilm dubs videos into Arabic. It extracts the audio and transcribes it with Whisper. It then cleans the transcript and translates it. Finally it synthesises a voice track with TTS and mixes the track back into the video. This project models the parts of that pipeline that decide **what is said when**, and proves properties of each:

- **Transcript post-processing** (`WhisperTranscribe`, `VadFilter`, `CleaningUtils`, `GptCleaner`, `Transcript`):
  - segments whose audio the voice detector does not hear are blanked, and so are segments with too few Arabic letters;
  - the timeline is moved back so that the first voiced segment starts at zero;
  - GPT corrects the text in chunks, and a reply is accepted only if it keeps every id and timestamp.
- **Segmentation** (`SemanticSegmenter`, `SplitChunks`):
  - the energy-based pause detector;
  - sentence splitting, merging and splitting by word count;
  - the assignment of sentences to the windows between pauses;
  - the chunker that groups translated segments into TTS chunks bounded by characters and duration.
- **Translation** (`TranslateChunks`, `Subtitles`):
  - the numbered-list prompt and the parsing of the numbered reply;
  - the subtitle service's parsing of segments;
  - its SRT timestamps and file layout.
- **Voice-over timing** (`VoiceOverTts`, `StretchAudio`):
  - loading translated segments and fitting each TTS clip into its slot;
  - decomposing a tempo into ffmpeg `atempo` stages;
  - placing clips on the timeline, and shifting it to the detected speech start;
  - the older stretch step.
- **Speech onset** (`SpeechOnset`, `DetectSpeechStart`): the two detectors of where speech begins.
- **Guards** (`Validators`, `AudioChecks`, `MergeChecks`): the checks that stop the pipeline. They run on Whisper JSON, translations, chunk files, TTS clips, the extracted audio and the merged voice track. For each guard, the model proves which error comes first.

Shared helpers:

- `Results`: `Option`/`Result`.
- `Numeric`: the rounding rules. Python's `round` rounds half to even, `int()` truncates, and `//` floors.
- `Text`: Python's `strip` and `split`, over the characters `isspace` accepts.
- `Seqs`: `Map`, `Filter` and `Concat`.

Python floats are modelled as exact reals.

## Model

| member | source | states |
|---|---|---|
| VoiceOverTts.DurationMs | pipeline/voice_over_tts.py:42-44 | a segment's millisecond length is zero for non-positive spans and otherwise within half a millisecond of the true length |
| VoiceOverTts.LoadLoopKeepsUsable | pipeline/voice_over_tts.py:61-73 | the loading loop keeps exactly the entries with non-blank stripped text and end after start, in order, numbering default ids by position among the kept |
| VoiceOverTts.LoadTranslatedSegments | pipeline/voice_over_tts.py:58-79 | a non-list is an unexpected format; the result is an error iff no entry is usable; otherwise every segment has end > start and non-empty stripped text |
| VoiceOverTts.MaxEnd | pipeline/voice_over_tts.py:90 | the fallback duration bounds every segment end, is attained by one, and is 0 for no segments |
| VoiceOverTts.LoadOriginalDuration | pipeline/voice_over_tts.py:82-90 | a positive metadata duration wins, otherwise the latest segment end |
| VoiceOverTts.TempoStages | pipeline/voice_over_tts.py:124-134 | for a positive tempo the stages multiply back to it, every stage but the last is 0.5 or 2.0, and the last lies in [0.5, 2.0] |
| VoiceOverTts.BuildAtempoChain | pipeline/voice_over_tts.py:120-135 | a non-positive ratio is rejected, and only that; otherwise the stages multiply to the ratio with every stage in ffmpeg's range |
| VoiceOverTts.InRangeTempoIsOneStage | pipeline/voice_over_tts.py:126-134 | a ratio already in [0.5, 2.0] gives the one-stage chain of itself |
| VoiceOverTts.FitTtsIntoSegment | pipeline/voice_over_tts.py:178-204 | a short clip is padded by the missing milliseconds; an exact or far-too-long clip is trimmed; one between 1% and 10% too long is sped up by the inverse ratio; every result lasts at least the slot |
| VoiceOverTts.FitTempoIsOneStage | pipeline/voice_over_tts.py:188-195 | the tempo of a stretched clip always needs a single atempo stage |
| VoiceOverTts.FitExactClipIsKept | pipeline/voice_over_tts.py:203-204 | a clip exactly as long as its slot is cut to the slot, never re-timed |
| VoiceOverTts.FitTwelveIntoTenTrims | pipeline/voice_over_tts.py:185-190 | a 12 s clip in a 10 s slot is trimmed, not sped up |
| VoiceOverTts.PlaceLoopPlacesAudible | pipeline/voice_over_tts.py:218-234 | the overlay loop places exactly the segments of positive length, in order, at their truncated start millisecond |
| VoiceOverTts.PlaceSegmentsOnTimeline | pipeline/voice_over_tts.py:209-236 | the silent base lasts the total duration plus the 500 ms tail (rounded up), and placements are the audible segments in order |
| VoiceOverTts.Shift | pipeline/voice_over_tts.py:290-292 | shifting moves both ends of every segment by the offset and changes nothing else |
| VoiceOverTts.PlanTimeline | pipeline/voice_over_tts.py:282-304 | the first segment lands on the detected speech start; ids, texts and millisecond lengths are kept; the timeline covers every shifted end and the shifted total; the sanity minimum is max(0.5, timeline - 0.5) |
| VoiceOverTts.GenerateVoiceOverTrack | pipeline/voice_over_tts.py:271-301 | load errors propagate, an unknown duration is an error, and otherwise the track is the shifted timeline plan |
| VoiceOverTts.SanityCheckWav | pipeline/voice_over_tts.py:240-256 | a missing or empty WAV fails; the check passes iff the rate is positive and the duration reaches the minimum, and reports that duration |
| VoiceOverTts.RenderedTrackPassesSanityCheck | pipeline/voice_over_tts.py:297-304 | a rendered 16 kHz track of any successful plan passes the final sanity check |
| SplitChunks.ComputeGlobalOffset | pipeline/split_chunks.py:12-25 | the offset is non-negative, zero for no segments, and moves the first segment to at least the leading silence, exactly onto it when positive |
| SplitChunks.Round3 | pipeline/split_chunks.py:29 | rounding to milliseconds moves a value by at most half a millisecond |
| SplitChunks.ApplyOffset | pipeline/split_chunks.py:28-29 | shifted times are never negative and are the rounded shifted time when that is non-negative |
| SplitChunks.ChunkLoopShape | pipeline/split_chunks.py:79-94 | the chunk loop keeps every segment once and in order, every chunk's text and span come from its members, and a chunk is closed exactly when the next segment would push it past the character or duration limit |
| SplitChunks.SplitIntoChunks | pipeline/split_chunks.py:74-94 | chunks are empty iff the input is; their members concatenate to the input; every chunk is well-formed and closed by a limit |
| SplitChunks.FirstChunkEmptyIff | pipeline/split_chunks.py:76-94 | the initial chunk is emitted empty iff the first segment alone already trips a limit |
| SplitChunks.ChunkLimits | pipeline/split_chunks.py:83-92 | a chunk of two or more segments holds at most 261 characters (the 260 limit plus its trailing space) and lasts at most 15 s |
| SplitChunks.ChunkTextConservation | pipeline/split_chunks.py:79-94 | the chunk texts concatenate to the space-joined translations of all segments |
| SplitChunks.SaveChunk | pipeline/split_chunks.py:43-48 | a saved chunk's start and end are the chunk's times shifted by the offset through `apply_offset` (rounded to milliseconds, never negative), and its text is stripped with the same words |
| SplitChunks.WordsOfShapedChunks | pipeline/split_chunks.py:87-94 | the words of the chunk texts are the words of the member translations |
| SplitChunks.SplitIntoChunkFiles | pipeline/split_chunks.py:60-97 | one file per chunk, none for no segments; file k is chunk k saved with the global offset, so its times are the chunk's times through `apply_offset`; the saved texts carry exactly the words of the translations |
| GptCleaner.ChunkLoopShape | helpers/gpt_cleaner.py:29-39 | the chunk loop partitions the segments in order, and each chunk is within the character limit or was closed by overflow |
| GptCleaner.ChunkSegments | helpers/gpt_cleaner.py:25-39 | chunks concatenate to the segments, are empty iff the segments are, and respect the 6000-character rule |
| GptCleaner.PairError | helpers/gpt_cleaner.py:87-104 | a reply segment is accepted iff it has no error; a changed id is reported first, then changed timestamps |
| GptCleaner.CleanPairs | helpers/gpt_cleaner.py:87-107 | all pairs accepted iff success; the result keeps id and times and takes the stripped reply text; the error is the first failing pair's |
| GptCleaner.ProcessChunk | helpers/gpt_cleaner.py:76-107 | a failed call, a missing list and a changed segment count are errors; otherwise success iff every pair is accepted, with the stripped replies |
| GptCleaner.CleanSegmentsWithGpt | helpers/gpt_cleaner.py:114-147 | no segments pass through; success iff every chunk is accepted, and then segment k keeps the id and times of original k and takes the stripped text of reply item k, the replies of all chunks taken in order, and the document text has exactly their words; a failure is the error of the first rejected chunk |
| Transcript.RebuildText | helpers/gpt_cleaner.py:110-111 | the rebuilt text splits into exactly the words of the segment texts |
| SemanticSegmenter.QuietFramesNeededIsLeast | pipeline/semantic_segmenter.py:43-45 | 15 quiet 20 ms frames is the least run that reaches the 300 ms pause length |
| SemanticSegmenter.DetectPauses | pipeline/semantic_segmenter.py:36-54 | every reported pause is a frame boundary after loud speech followed by a full quiet run, strictly increasing, at most one per frame; and none is missed: no frame between two reported pauses, before the first or after the last meets the pause rule |
| SemanticSegmenter.PausesDetermined | pipeline/semantic_segmenter.py:36-54 | the pause rule fixes the pause list: two lists that both report only pauses and miss none are equal |
| SemanticSegmenter.SplitIntoSentences | pipeline/semantic_segmenter.py:60-64 | sentences are non-empty, stripped and end in their terminators, and together hold every non-space character of the text after its leading terminators |
| SemanticSegmenter.FindallCovers | pipeline/semantic_segmenter.py:62-63 | the sentence matches concatenate to the text minus its leading terminators |
| SemanticSegmenter.MergeShort | pipeline/semantic_segmenter.py:70-86 | merging keeps every word in order, yields no blank sentence, and keeps every sentence that was long enough |
| SemanticSegmenter.MergeFromWords | pipeline/semantic_segmenter.py:74-84 | the merge loop outputs the buffer's words followed by the remaining sentences' words |
| SemanticSegmenter.SplitOneProps | pipeline/semantic_segmenter.py:95-107 | splitting one sentence keeps its words, leaves short sentences whole and bounds every piece by the word limit |
| SemanticSegmenter.SplitLong | pipeline/semantic_segmenter.py:92-109 | splitting keeps every word in order, bounds every piece by the limit, and keeps short sentences unchanged |
| SemanticSegmenter.AssignTextToPauses | pipeline/semantic_segmenter.py:115-153 | one segment per sentence numbered from 0; sentence k spans window k between 0, the pauses and the end, and surplus sentences share the last window |
| SemanticSegmenter.AssignedInOrder | pipeline/semantic_segmenter.py:115-153 | with sorted pauses every assigned segment has start <= end and starts never decrease |
| SemanticSegmenter.SemanticSegment | pipeline/semantic_segmenter.py:159-174 | the segments carry exactly the words of the sentences, are numbered from 0, respect the word limit and have non-negative times |
| VadFilter.NewVad | helpers/vad_filter.py:14-41 | construction succeeds iff aggressiveness, sample rate and frame length are valid; it fails on the first bad one in that order, a bad frame length included; the window is raised to at least 1 and the trailing start clamped into [0, 1], other parameters kept |
| VadFilter.DefaultVad | helpers/vad_filter.py:126-151 | the default detector is valid with a 5-frame window and a trailing start of one half |
| VadFilter.NewVadValid | helpers/vad_filter.py:26-40 | every detector the constructor returns satisfies the validity invariant |
| VadFilter.BytesPerFrame | helpers/vad_filter.py:52 | a frame holds rate/1000 x frame-ms samples of the sample width, at least 80 bytes |
| VadFilter.Frames | helpers/vad_filter.py:51-56 | frames are full-sized and the leftover is shorter than one frame |
| VadFilter.FramesCover | helpers/vad_filter.py:55-56 | the frames concatenate to the audio up to the dropped leftover |
| VadFilter.AnyWindow | helpers/vad_filter.py:71-77 | the window scan is true iff some window position is locally voiced |
| VadFilter.HasVoiceMonotone | helpers/vad_filter.py:58-88 | turning more frames into speech never removes voice: a slice with voice keeps it when any silent frame becomes speech |
| VadFilter.SilentSliceHasNoVoice | helpers/vad_filter.py:58-88 | a slice with no speech frame never has voice |
| VadFilter.FullSliceHasVoice | helpers/vad_filter.py:64-68 | a slice all of whose frames are speech, long enough, has voice |
| VadFilter.FilterSegments | helpers/vad_filter.py:90-123 | each segment keeps id and times; its text is kept iff its floor/ceil millisecond span is non-empty and the detector hears voice in the whole frames of that audio slice, and blanked otherwise |
| VadFilter.SubFrameSegmentIsSilent | helpers/vad_filter.py:51-56 | a segment shorter than one frame is blanked whatever the audio: its slice holds no whole frame |
| VadFilter.FilterOnlyBlanks | helpers/vad_filter.py:100-117 | filtering only ever blanks a text, and always blanks a segment with an empty slice |
| SpeechOnset.FrameLen | pipeline/speech_onset.py:25 | a frame holds 16 samples per millisecond |
| SpeechOnset.StepLen | pipeline/speech_onset.py:26 | the hop is half a frame, at least one sample |
| SpeechOnset.AnalysisStarts | pipeline/speech_onset.py:40-41 | analysis frames start at 0, one hop apart, each wholly inside the audio, and exist iff the audio is longer than a frame |
| SpeechOnset.BaselineFrames | pipeline/speech_onset.py:61 | the noise baseline covers half a second of hops, at least 5 |
| SpeechOnset.Threshold | pipeline/speech_onset.py:66 | the speech threshold is four times the noise level, lifted above the noise when that is zero |
| SpeechOnset.HoldFrames | pipeline/speech_onset.py:68 | the hold covers the hold time in hops, rounded up, at least 2 |
| SpeechOnset.FindOnset | pipeline/speech_onset.py:71-82 | the result is the first frame that starts a held run above threshold, or none when no frame does |
| SpeechOnset.OnsetTime | pipeline/speech_onset.py:71-82 | the onset is the first qualifying frame times the hop length, never negative, and 0 when no frame qualifies |
| SpeechOnset.DetectSpeechOnset | pipeline/speech_onset.py:22-82 | the onset is 0 for audio shorter than a frame, no energies or no qualifying frame, and otherwise the first qualifying frame's time; audio exactly one frame long with smoothing on is the error `np.convolve` raises on an empty list, and only that |
| DetectSpeechStart.FramesFromCover | pipeline/detect_speech_start.py:32-35 | the frames concatenate back to the audio, all full except possibly the last |
| DetectSpeechStart.FindStart | pipeline/detect_speech_start.py:40-53 | the result is the first frame that starts a sustained loud run, or none |
| DetectSpeechStart.ShortRunIsFirstPeak | pipeline/detect_speech_start.py:42-51 | with a minimum run of one frame, a start is exactly a frame above threshold |
| DetectSpeechStart.DetectStart | pipeline/detect_speech_start.py:14-56 | a zero frame length or frame size is an error; otherwise the start is the first sustained run's time, or 0 |
| CleaningUtils.OtherScriptsAreNotArabic | helpers/cleaning_utils.py:5-14 | spaces and letters outside the Arabic blocks never count as Arabic |
| CleaningUtils.NoArabicInBlank | helpers/cleaning_utils.py:29-33 | blank text has no Arabic letters |
| CleaningUtils.StripKeepsArabic | helpers/cleaning_utils.py:29-36 | stripping does not change the Arabic letters of a text |
| CleaningUtils.GarbageIffFewArabic | helpers/cleaning_utils.py:17-39 | a text is garbage iff it has fewer than the minimum number of Arabic letters |
| WhisperTranscribe.FirstVoiced | pipeline/whisper_transcribe.py:20-24 | the result is the first segment with non-blank text, or none when all are blank |
| WhisperTranscribe.ShiftBack | pipeline/whisper_transcribe.py:37-39 | shifting back keeps id and text, clamps at zero and keeps the length of an ordered segment |
| WhisperTranscribe.AlignToFirstVoice | pipeline/whisper_transcribe.py:15-46 | leading blank segments are dropped and, for a positive offset, the first voiced segment moves to 0 with the rest shifted alike |
| WhisperTranscribe.AlignedTimesOrdered | pipeline/whisper_transcribe.py:34-39 | after a shift every segment has 0 <= start <= end |
| WhisperTranscribe.BlankGarbage | pipeline/whisper_transcribe.py:98-105 | blanking keeps ids and times and only ever empties a text |
| WhisperTranscribe.BlankGarbageKeepsArabic | pipeline/whisper_transcribe.py:98-105 | a kept text has enough Arabic letters, and a text with enough is kept |
| WhisperTranscribe.BlankGarbageIdempotent | pipeline/whisper_transcribe.py:98-105 | a second garbage pass changes nothing |
| WhisperTranscribe.AlignIdempotent | pipeline/whisper_transcribe.py:15-46 | aligning an aligned transcript again changes nothing |
| WhisperTranscribe.PostProcess | pipeline/whisper_transcribe.py:92-117 | after post-processing every text is blank or Arabic enough, the document text has their words, and GPT cleaning keeps the frame |
| Subtitles.ParseSegment | services/subtitles.py:73-80 | a segment parses iff its times are well-formed and its text is non-blank; missing times default to 0 and to the start |
| Subtitles.ParseAll | services/subtitles.py:71-80 | exactly the parsable segments survive, and none survive iff none parse |
| Subtitles.TranscribeSegments | services/subtitles.py:66-88 | parsed segments win; otherwise a non-empty full text becomes one segment; otherwise no segments is an error |
| Subtitles.TranslateSegments | services/subtitles.py:91-117 | success iff every text translates, keeping times; an error names the first failing segment |
| Subtitles.SplitMs | services/subtitles.py:121-124 | the clock fields recompose to the milliseconds, with minutes and seconds below 60 and milliseconds below 1000 |
| Subtitles.TimestampRoundTrip | services/subtitles.py:120-125 | below 100 hours a timestamp is twelve characters and parses back to the rounded milliseconds |
| Subtitles.ClockRoundTrip | services/subtitles.py:120-125 | clock fields within their ranges render as twelve characters that read back as the same milliseconds |
| Subtitles.SrtEnd | services/subtitles.py:133 | the end is after the start: the segment's own end when later, else start plus 2 s |
| Subtitles.SrtLayout | services/subtitles.py:130-134 | block k is its number k+1, the timing line, the stripped text and a blank line |
| Subtitles.BuildSrtContent | services/subtitles.py:128-135 | the file is the block lines newline-joined up to the last one that is not blank, plus one newline; it starts with block number 1 and is a lone newline for no segments |
| TranslateChunks.NumberedLines | pipeline/translate_chunks.py:31-34 | line i of the prompt is the number i+1, a dot, a space and text i |
| TranslateChunks.ParseNumberedList | pipeline/translate_chunks.py:60-64 | the reply items are the text after the first ". " of each line holding one, in order |
| TranslateChunks.ParseLoopIsFilter | pipeline/translate_chunks.py:60-64 | the parsing loop keeps exactly the lines with a separator |
| TranslateChunks.ParseEchoedList | pipeline/translate_chunks.py:31-64 | parsing a numbered list of newline-free texts gives the texts back |
| TranslateChunks.TranslateSegments | pipeline/translate_chunks.py:57-79 | a reply with the wrong item count is an error naming both counts; otherwise each record keeps its segment and takes the stripped item |
| TranslateChunks.EchoedReplyIsAccepted | pipeline/translate_chunks.py:31-79 | a reply that echoes the prompt is accepted, with each translation the stripped source |
| Validators.SegmentProblem | helpers/validators.py:32-45 | a Whisper segment's first problem is a missing key, then end <= start, then blank text |
| Validators.ValidateWhisper | helpers/validators.py:8-63 | a missing or unreadable file fails first; the JSON passes iff text, segments and language all pass, and the error names the first bad segment |
| Validators.LanguageRules | helpers/validators.py:47-60 | no expected language accepts anything, and "ar" also accepts "arabic" |
| Validators.RecordProblem | helpers/validators.py:84-98 | a translation record's first problem is a missing field, then an empty translation, then a length ratio below the minimum |
| Validators.ValidateTranslation | helpers/validators.py:70-101 | a non-list or empty list fails; otherwise success iff every record passes, and the error names the first failing record |
| Validators.ChunkProblem | helpers/validators.py:119-133 | a chunk's first problem is empty text, then a non-positive duration, then more than 350 characters |
| Validators.LongChunks | helpers/validators.py:129-130 | a chunk is warned about iff it lasts more than 20 s |
| Validators.ValidateChunks | helpers/validators.py:109-133 | no chunks fails; success iff every chunk passes, reporting the long ones; the error names the first failing chunk |
| Validators.ValidateTtsChunk | helpers/validators.py:142-171 | a clip passes iff it exists, has 2000 bytes, reads as WAV and lasts 0.3 to 20 s, reporting its duration |
| Validators.ValidateFinalAudio | helpers/validators.py:178-199 | the final audio passes iff it exists, reads and lasts 0.5 s, flagging more than 10 minutes; every failure of an existing file is "invalid" |
| StretchAudio.PlanChunk | pipeline/stretch_audio.py:41-81 | a clip below 70% of its slot is stretched 30% with the rest silence; any other is scaled to the slot; a zero duration where Python divides gives none |
| StretchAudio.LimitedStretchLeavesSilence | pipeline/stretch_audio.py:41-73 | a positive too-short clip always leaves positive silence, written as the truncated 16 kHz sample count |
| StretchAudio.ScaledClipFillsSlot | pipeline/stretch_audio.py:78-81 | a scaled clip played at its tempo lasts exactly its slot |
| StretchAudio.StretchAll | pipeline/stretch_audio.py:19-33 | clips pair with slots by position; success iff every clip has a slot and a plan; the error names the first failure |
| MergeChecks.Peak | pipeline_guard/merge_checks.py:54 | the peak bounds every sample's magnitude and is attained |
| MergeChecks.ValidateMergedAudio | pipeline_guard/merge_checks.py:23-65 | checks run rate, channels, duration, clipping; success iff all pass; the silence warning is raised iff over a quarter of samples are near zero |
| MergeChecks.SilentTrackOnlyWarns | pipeline_guard/merge_checks.py:58-63 | an all-quiet track of the right format is accepted and flagged |
| MergeChecks.ClipAsWritten | pipeline_guard/merge_checks.py:54-56 | the clipping test on int16 magnitudes: a -32768 sample can never be the reported peak |
| MergeChecks.FullScaleNegativeEscapesClipCheck | pipeline_guard/merge_checks.py:54-56 | a half-second 16 kHz mono track of -32768 samples passes the written clipping test while the true-magnitude guard rejects it with peak 32768 |
| AudioChecks.ValidateAudio | pipeline_guard/audio_checks.py:12-37 | the extracted audio passes iff it exists, has 1000 bytes, reads as WAV and has the expected channels, rate and 0.5 s; channels are checked before rate |

## Findings

| source | as written | input that shows it | evidently intended | confidence | as-written member | corrected member |
|---|---|---|---|---|---|---|
| pipeline_guard/merge_checks.py:54-56 | `np.abs` on int16 samples leaves -32768 at -32768, so a full-scale negative sample never counts toward the peak | a 0.5 s mono 16 kHz track whose samples are all -32768 | any sample of magnitude above 30000 is reported as clipping | high; not executed | MergeChecks.ClipAsWritten | MergeChecks.ValidateMergedAudio |

## Notes on the code's behaviour

- A 12 s clip in a 10 s slot is trimmed, not sped up. The ratio 1.2 falls outside the speed-up band (`FitTwelveIntoTenTrims`).
- The translation chunker does not skip segments with empty text. An empty translation still joins a chunk, contributing one space.
- `assign_text_to_pauses` maps one sentence per window. Surplus sentences share the last window rather than being merged.
- The `break` in the onset scan only ends the search early. It does not change which frame is reported.

## Left out

- File I/O, JSON parsing and WAV headers are inputs: each file is given as a datatype holding what the code reads from it (existence, size, header fields, parsed JSON fields). Subprocess calls to ffmpeg are left out, and so are logging and `print` output.
- The GPT, Whisper, translation and TTS calls are left out; their replies are parameters.
- Signal processing is left out and its results are parameters:
  - FFT, mean-absolute and RMS frame energies;
  - percentiles;
  - `np.convolve` smoothing, including the length it gives; only its error on an empty energy list is modelled.
- The WebRTC `is_speech` verdict per frame is a parameter (`isSpeech`). Loading and resampling the audio is left out: pydub's millisecond slicing is a parameter (`sliceOf`). `SubFrameSegmentIsSilent` assumes only that a slice holds at most 2 bytes per sample of its span (`SlicesWithin`).
- VadFilter.FilterSegments: pydub counts a negative slice start from the end of the audio; the model does not constrain `sliceOf` there.
- Python floats are modelled as exact reals. `round(ms / 1000, 3)` is modelled as a value within half a millisecond, not as a binary float.
- The atempo filter strings are left out: the chain is modelled as its list of tempos, not its text rendered to four decimals.
- MergeChecks.ValidateMergedAudio: uses the true magnitude of each sample. The code as written uses numpy's wrapping int16 `abs`, which is modelled separately by `MergeChecks.ClipAsWritten`. The same wrap makes the code count a -32768 sample as near-silent; that half is not modelled.
- Exceptions the code does not catch are not modelled:
  - a `KeyError` on a chunk file without `text`, `start` or `end`;
  - a `TypeError` or `AttributeError` on a field of the wrong type.

  Fields are assumed to have the types the code expects.
- VoiceOverTts.GenerateVoiceOverTrack: takes the detected onset as a value (pipeline/voice_over_tts.py:280). The `ValueError` that `detect_speech_onset` raises for a recording exactly one window long is modelled in SpeechOnset.DetectSpeechOnset; it would leave `generate_voice_over_track` uncaught, and this function does not carry it.
- VoiceOverTts.LoadTranslatedSegments: starts from the parsed JSON. A missing translation file (pipeline/voice_over_tts.py:52) is not modelled.
- StretchAudio.StretchAll: takes the clip and chunk lists already paired in sorted name order. Listing the directories is left out.
- SemanticSegmenter.DetectPauses: takes the frame energies and the noise level as given. Frame length and minimum pause are fixed at their defaults, 20 ms and 300 ms.
- The whole-pipeline drivers (`dub.py`, `run_pipeline.py`) and the Telegram handlers are not part of this model.
