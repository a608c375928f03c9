/** The guard on the extracted audio before it is sent to Whisper: the file
    must exist, hold at least 1000 bytes, open as a WAV file, have the
    expected channel count and sample rate, and last at least half a second. */
module AudioChecks {
  import opened Results

  const DefaultSampleRate: int := 16000
  const DefaultChannels: int := 1
  const MinBytes: int := 1000
  const MinSeconds: real := 0.5

  /** The header fields the guard reads. */
  datatype WavHeader = WavHeader(channels: int, rate: int, frames: int)

  /** The file as the guard sees it; `header` is `None` when `wave.open`
      reports a malformed file. */
  datatype AudioFile = AudioFile(exists_: bool, sizeBytes: int, header: Option<WavHeader>)

  datatype AudioError =
    | DoesNotExist
    | FileTooSmall
    | InvalidStructure
    | DivisionByZero      // `frames / float(rate)` with rate 0, not wrapped
    | WrongChannels(channels: int)
    | WrongSampleRate(rate: int)
    | TooShort

  /** `assert_valid_audio`: the duration of an accepted file, or the first
      failed check. The duration is computed before the channel check, so a
      zero rate escapes as a division error whatever the channel count. */
  function ValidateAudio(f: AudioFile, expectedRate: int, expectedChannels: int): (r: Result<real, AudioError>)
    ensures r.Ok? <==> && f.exists_ && f.sizeBytes >= MinBytes && f.header.Some?
                       && var h := f.header.value;
                       && h.rate != 0 && h.channels == expectedChannels && h.rate == expectedRate
                       && h.frames as real / h.rate as real >= MinSeconds
    ensures r.Ok? ==> r.value == f.header.value.frames as real / f.header.value.rate as real
    ensures !f.exists_ ==> r == Err(DoesNotExist)
    ensures f.exists_ && f.sizeBytes < MinBytes ==> r == Err(FileTooSmall)
    ensures r == Err(InvalidStructure) <==> f.exists_ && f.sizeBytes >= MinBytes && f.header.None?
    ensures r.Err? && r.error.WrongSampleRate? ==>
              f.header.Some? && f.header.value.channels == expectedChannels && f.header.value.rate != expectedRate
    ensures (&& f.exists_ && f.sizeBytes >= MinBytes && f.header.Some? && f.header.value.rate != 0
             && f.header.value.channels != expectedChannels)
            ==> r == Err(WrongChannels(f.header.value.channels))
  {
    if !f.exists_ then Err(DoesNotExist)
    else if f.sizeBytes < MinBytes then Err(FileTooSmall)
    else match f.header {
      case None => Err(InvalidStructure)
      case Some(h) =>
        if h.rate == 0 then Err(DivisionByZero)
        else
          var duration := h.frames as real / h.rate as real;
          if h.channels != expectedChannels then Err(WrongChannels(h.channels))
          else if h.rate != expectedRate then Err(WrongSampleRate(h.rate))
          else if duration < MinSeconds then Err(TooShort)
          else Ok(duration)
    }
  }
}
