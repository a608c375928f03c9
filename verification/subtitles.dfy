/** The subtitle service: turning a transcription reply into subtitle
    segments, translating them one by one, and laying them out as a SubRip
    (SRT) file, whose timestamps are `HH:MM:SS,mmm`. */
module Subtitles {
  import opened Results
  import opened Numeric
  import opened Text
  import opened Seqs

  /** `SubtitleSegment`: times in seconds. */
  datatype SubtitleSegment = SubtitleSegment(start: real, end: real, text: string)

  /** A JSON field as the parser meets it: absent, present but unusable
      (`float(...)` or `.strip()` raises on it), or usable. */
  datatype Field<T> = Missing | Malformed | Given(value: T)

  datatype RawSegment = RawSegment(start: Field<real>, end: Field<real>, text: Field<string>)

  /** The transcription reply: its `segments` list (absent or null as `None`),
      its full `text` and its `language`. */
  datatype Transcription = Transcription(segments: Option<seq<RawSegment>>, text: Option<string>, language: Option<string>)

  datatype SubtitleError =
    | NoSegments                   // nothing to subtitle
    | TranslationFailed(index: nat) // the translator raised on this segment

  // ---------------------------------------------------------------------
  // Parsing the transcription

  /** One entry of the `transcribe_segments` loop: a missing start is 0, a
      missing end is the start, the text is stripped; an entry whose fields
      cannot be read, or whose text is blank, gives nothing. */
  function ParseSegment(raw: RawSegment): (r: Option<SubtitleSegment>)
    ensures r.Some? <==> && !raw.start.Malformed? && !raw.end.Malformed?
                         && raw.text.Given? && !Blank(raw.text.value)
    ensures r.Some? ==> r.value.text == Strip(raw.text.value) && r.value.text != [] && IsStripped(r.value.text)
    ensures r.Some? ==> r.value.start == (if raw.start.Given? then raw.start.value else 0.0)
    ensures r.Some? ==> r.value.end == (if raw.end.Given? then raw.end.value else r.value.start)
  {
    if raw.start.Malformed? || raw.end.Malformed? || raw.text.Malformed? then None
    else
      var start := if raw.start.Given? then raw.start.value else 0.0;
      var end := if raw.end.Given? then raw.end.value else start;
      var text := if raw.text.Given? then Strip(raw.text.value) else "";
      if text == [] then None else Some(SubtitleSegment(start, end, text))
  }

  /** The entries that parse, in order. */
  function ParseAll(raws: seq<RawSegment>): (r: seq<SubtitleSegment>)
    ensures |r| <= |raws|
    ensures forall s :: s in r ==> s.text != [] && IsStripped(s.text)
    ensures forall k :: 0 <= k < |raws| && ParseSegment(raws[k]).Some? ==> ParseSegment(raws[k]).value in r
    ensures forall s :: s in r ==> exists k :: 0 <= k < |raws| && ParseSegment(raws[k]) == Some(s)
    ensures r == [] <==> forall k :: 0 <= k < |raws| ==> ParseSegment(raws[k]).None?
  {
    ParsedTextsStripped(raws);
    FilterMap(ParseSegment, raws)
  }

  lemma ParsedTextsStripped(raws: seq<RawSegment>)
    ensures forall s :: s in FilterMap(ParseSegment, raws) ==> s.text != [] && IsStripped(s.text)
  {
    forall s | s in FilterMap(ParseSegment, raws)
      ensures s.text != [] && IsStripped(s.text)
    {
      var k :| 0 <= k < |raws| && ParseSegment(raws[k]) == Some(s);
    }
  }

  /** `transcribe_segments` after the speech service answered: the parsed
      segments with the reply's language (default "unknown"); with no segment
      but a non-empty full text, one segment holding that text at time 0;
      with neither, an error. */
  function TranscribeSegments(reply: Transcription): (r: Result<(seq<SubtitleSegment>, string), SubtitleError>)
    ensures var raws := reply.segments.GetOr([]);
            var parsed := ParseAll(raws);
            && (parsed != [] ==> r == Ok((parsed, reply.language.GetOr("unknown"))))
            && (parsed == [] && reply.text.Some? && reply.text.value != [] ==>
                  r == Ok(([SubtitleSegment(0.0, 0.0, reply.text.value)], reply.language.GetOr("unknown"))))
            && (parsed == [] && (reply.text.None? || reply.text.value == []) ==> r == Err(NoSegments))
    ensures r.Ok? ==> r.value.0 != []
  {
    var segments := ParseAll(reply.segments.GetOr([]));
    var segments := if segments == [] && reply.text.Some? && reply.text.value != []
                    then [SubtitleSegment(0.0, 0.0, reply.text.value)] else segments;
    if segments == [] then Err(NoSegments)
    else Ok((segments, reply.language.GetOr("unknown")))
  }

  // ---------------------------------------------------------------------
  // Translation

  /** `translate_segments`: each text through the translator (`None` where it
      raises, which aborts the whole call), times kept. */
  function TranslateSegments(segs: seq<SubtitleSegment>, translate: string -> Option<string>): (r: Result<seq<SubtitleSegment>, SubtitleError>)
    ensures r.Ok? <==> forall k :: 0 <= k < |segs| ==> translate(segs[k].text).Some?
    ensures r.Ok? ==> |r.value| == |segs|
    ensures r.Ok? ==> forall k :: 0 <= k < |segs| ==>
              r.value[k] == SubtitleSegment(segs[k].start, segs[k].end, translate(segs[k].text).value)
    ensures r.Err? ==> && r.error.TranslationFailed? && r.error.index < |segs|
                       && translate(segs[r.error.index].text).None?
                       && forall k :: 0 <= k < r.error.index ==> translate(segs[k].text).Some?
  {
    if segs == [] then Ok([])
    else match translate(segs[0].text) {
      case None => Err(TranslationFailed(0))
      case Some(t) =>
        match TranslateSegments(segs[1..], translate) {
          case Err(e) =>
            assert forall k :: 1 <= k < |segs| ==> segs[k] == segs[1..][k - 1];
            Err(TranslationFailed(e.index + 1))
          case Ok(rest) => Ok([SubtitleSegment(segs[0].start, segs[0].end, t)] + rest)
        }
    }
  }

  // ---------------------------------------------------------------------
  // Timestamps

  /** A time split into clock fields. */
  datatype Clock = Clock(hours: int, minutes: int, secs: int, millis: int)

  /** The three `divmod` steps of `_format_timestamp` (Python's floor
      division, which for these positive divisors is Dafny's). */
  function SplitMs(ms: int): (c: Clock)
    ensures c.hours * 3600000 + c.minutes * 60000 + c.secs * 1000 + c.millis == ms
    ensures 0 <= c.minutes < 60 && 0 <= c.secs < 60 && 0 <= c.millis < 1000
    ensures ms >= 0 ==> c.hours >= 0
  {
    var hours := ms / 3600000;
    var remainder := ms % 3600000;
    var minutes := remainder / 60000;
    var remainder := remainder % 60000;
    Clock(hours, minutes, remainder / 1000, remainder % 1000)
  }

  /** `f"{hours:02}:{minutes:02}:{secs:02},{millis:03}"`. */
  function RenderClock(c: Clock): string {
    FormatPadded(c.hours, 2) + ":" + FormatPadded(c.minutes, 2) + ":" + FormatPadded(c.secs, 2)
    + "," + FormatPadded(c.millis, 3)
  }

  /** `_format_timestamp`: the time rounded to whole milliseconds (ties to
      even, as Python's `round`) and rendered as clock fields. */
  function FormatTimestamp(seconds: real): string {
    RenderClock(SplitMs(RoundHalfEven(seconds * 1000.0)))
  }

  lemma ShortNumber(n: nat, w: nat)
    requires (w == 2 && n < 100) || (w == 3 && n < 1000)
    ensures |NatToString(n)| <= w
  {
    if n >= 10 {
      assert NatToString(n) == NatToString(n / 10) + [DigitChar(n % 10)];
      if n >= 100 {
        assert NatToString(n / 10) == NatToString(n / 100) + [DigitChar(n / 10 % 10)];
      }
    }
  }

  /** Reads a `HH:MM:SS,mmm` timestamp back into milliseconds. */
  function ParseTimestamp(s: string): Option<int> {
    if |s| == 12 && s[2] == ':' && s[5] == ':' && s[8] == ','
       && (forall k :: 0 <= k < 12 && k != 2 && k != 5 && k != 8 ==> IsDigit(s[k]))
    then
      Some(DigitsValue(s[..2]) * 3600000 + DigitsValue(s[3..5]) * 60000
           + DigitsValue(s[6..8]) * 1000 + DigitsValue(s[9..]))
    else None
  }

  /** Below 100 hours every timestamp is exactly twelve characters in the
      `HH:MM:SS,mmm` shape, and reading it back gives the rounded
      millisecond count. */
  lemma TimestampRoundTrip(seconds: real)
    requires 0 <= RoundHalfEven(seconds * 1000.0) < 360000000
    ensures |FormatTimestamp(seconds)| == 12
    ensures ParseTimestamp(FormatTimestamp(seconds)) == Some(RoundHalfEven(seconds * 1000.0))
  {
    ClockRoundTrip(SplitMs(RoundHalfEven(seconds * 1000.0)));
  }

  /** Clock fields within their ranges render as twelve characters that
      read back as the same number of milliseconds. */
  lemma ClockRoundTrip(c: Clock)
    requires 0 <= c.hours < 100 && 0 <= c.minutes < 60 && 0 <= c.secs < 60 && 0 <= c.millis < 1000
    ensures |RenderClock(c)| == 12
    ensures ParseTimestamp(RenderClock(c)).Some?
    ensures ParseTimestamp(RenderClock(c)).value == c.hours * 3600000 + c.minutes * 60000 + c.secs * 1000 + c.millis
  {
    ShortNumber(c.hours, 2);
    ShortNumber(c.minutes, 2);
    ShortNumber(c.secs, 2);
    ShortNumber(c.millis, 3);
    var h, m, s, l := ZeroPad(c.hours, 2), ZeroPad(c.minutes, 2), ZeroPad(c.secs, 2), ZeroPad(c.millis, 3);
    var t := h + ":" + m + ":" + s + "," + l;
    assert RenderClock(c) == t;
    FieldsLayout(h, m, s, l);
    ParseFields(t, h, m, s, l);
    ZeroPadValue(c.hours, 2);
    ZeroPadValue(c.minutes, 2);
    ZeroPadValue(c.secs, 2);
    ZeroPadValue(c.millis, 3);
  }

  /** A well-shaped timestamp reads back as the milliseconds its fields spell. */
  lemma ParseFields(t: string, h: string, m: string, s: string, l: string)
    requires |t| == 12 && t[2] == ':' && t[5] == ':' && t[8] == ','
    requires forall k :: 0 <= k < 12 && k != 2 && k != 5 && k != 8 ==> IsDigit(t[k])
    requires t[..2] == h && t[3..5] == m && t[6..8] == s && t[9..] == l
    ensures ParseTimestamp(t).Some?
    ensures ParseTimestamp(t).value == DigitsValue(h) * 3600000 + DigitsValue(m) * 60000
                                       + DigitsValue(s) * 1000 + DigitsValue(l)
  {
  }

  /** Where the four digit fields sit in `HH:MM:SS,mmm`. */
  lemma FieldsLayout(h: string, m: string, s: string, l: string)
    requires |h| == 2 && |m| == 2 && |s| == 2 && |l| == 3
    requires forall k :: 0 <= k < 2 ==> IsDigit(h[k]) && IsDigit(m[k]) && IsDigit(s[k])
    requires forall k :: 0 <= k < 3 ==> IsDigit(l[k])
    ensures var t := h + ":" + m + ":" + s + "," + l;
            && |t| == 12 && t[2] == ':' && t[5] == ':' && t[8] == ','
            && (forall k :: 0 <= k < 12 && k != 2 && k != 5 && k != 8 ==> IsDigit(t[k]))
            && t[..2] == h && t[3..5] == m && t[6..8] == s && t[9..] == l
  {
    var t := h + ":" + m + ":" + s + "," + l;
    forall k | 0 <= k < 12 && k != 2 && k != 5 && k != 8
      ensures IsDigit(t[k])
    {
      if k < 2 { assert t[k] == h[k]; }
      else if k < 5 { assert t[k] == m[k - 3]; }
      else if k < 8 { assert t[k] == s[k - 6]; }
      else { assert t[k] == l[k - 9]; }
    }
    assert t[..2] == h && t[3..5] == m && t[6..8] == s && t[9..] == l;
  }

  // ---------------------------------------------------------------------
  // SRT layout

  /** The end time written for a segment: its end when after its start,
      otherwise two seconds after the start. */
  function SrtEnd(seg: SubtitleSegment): (e: real)
    ensures e > seg.start
    ensures seg.end > seg.start ==> e == seg.end
    ensures seg.end <= seg.start ==> e == seg.start + 2.0
  {
    if seg.end > seg.start then seg.end else seg.start + 2.0
  }

  /** The timing line of a block: `start --> end`. */
  function TimingLine(seg: SubtitleSegment): string {
    FormatTimestamp(seg.start) + " --> " + FormatTimestamp(SrtEnd(seg))
  }

  /** One SRT block: number, timing line, text, blank separator. */
  function Block(index: nat, seg: SubtitleSegment): seq<string> {
    [NatToString(index), TimingLine(seg), Strip(seg.text), ""]
  }

  /** Blocks of four lines, one per segment, numbered from `first`. */
  function Blocks(xs: seq<SubtitleSegment>, first: nat, block: (nat, SubtitleSegment) -> seq<string>): (lines: seq<string>)
    requires forall i, x :: |block(i, x)| == 4
    ensures |lines| == 4 * |xs|
  {
    if xs == [] then [] else block(first, xs[0]) + Blocks(xs[1..], first + 1, block)
  }

  /** Line `4k + j` is line `j` of segment `k`'s block, numbered `first + k`. */
  predicate LineOfBlock(lines: seq<string>, xs: seq<SubtitleSegment>, first: nat, block: (nat, SubtitleSegment) -> seq<string>, k: int, j: int)
    requires forall i, x :: |block(i, x)| == 4
    requires 0 <= k < |xs| && 0 <= j < 4 && |lines| == 4 * |xs|
  {
    lines[4 * k + j] == block(first + k, xs[k])[j]
  }

  lemma {:induction false} BlocksAt(xs: seq<SubtitleSegment>, first: nat, block: (nat, SubtitleSegment) -> seq<string>)
    requires forall i, x :: |block(i, x)| == 4
    ensures forall k, j :: 0 <= k < |xs| && 0 <= j < 4 ==> LineOfBlock(Blocks(xs, first, block), xs, first, block, k, j)
  {
    if xs != [] {
      var rest := Blocks(xs[1..], first + 1, block);
      var lines := Blocks(xs, first, block);
      BlocksAt(xs[1..], first + 1, block);
      forall k, j | 0 <= k < |xs| && 0 <= j < 4
        ensures LineOfBlock(lines, xs, first, block, k, j)
      {
        if k > 0 {
          assert LineOfBlock(rest, xs[1..], first + 1, block, k - 1, j);
          assert xs[1..][k - 1] == xs[k];
          assert lines[4 * k + j] == rest[4 * (k - 1) + j];
        }
      }
    }
  }

  /** The `lines` list of `build_srt_content`. */
  function SrtLines(segs: seq<SubtitleSegment>): (lines: seq<string>)
    ensures |lines| == 4 * |segs|
  {
    Blocks(segs, 1, Block)
  }

  /** Each segment `k` has its own block at lines `4k .. 4k+3`, in order and
      numbered from 1: number, timing line, stripped text, blank line. */
  lemma SrtLayout(segs: seq<SubtitleSegment>, k: int)
    requires 0 <= k < |segs|
    ensures var lines := SrtLines(segs);
            && lines[4 * k] == NatToString(k + 1)
            && lines[4 * k + 1] == TimingLine(segs[k])
            && lines[4 * k + 2] == Strip(segs[k].text)
            && lines[4 * k + 3] == ""
  {
    BlocksAt(segs, 1, Block);
    assert LineOfBlock(SrtLines(segs), segs, 1, Block, k, 0);
    assert LineOfBlock(SrtLines(segs), segs, 1, Block, k, 1);
    assert LineOfBlock(SrtLines(segs), segs, 1, Block, k, 2);
    assert LineOfBlock(SrtLines(segs), segs, 1, Block, k, 3);
  }

  /** `build_srt_content`: the blocks numbered from 1, joined by newlines,
      stripped as a whole and ended by one newline. The strip takes off the
      final blank line, and the last text too when that is blank, and
      nothing else: the file is the block lines up to the last non-blank one,
      joined by newlines and ended by one. */
  function BuildSrtContent(segs: seq<SubtitleSegment>): (srt: string)
    ensures OneTrailingNewline(srt)
    ensures segs == [] ==> srt == "\n"
    ensures segs != [] ==> srt[0] == '1'
    ensures segs != [] ==> srt == Join("\n", SrtLines(segs)[..SrtKept(segs)]) + "\n"
  {
    var lines := SrtLines(segs);
    if segs == [] then
      assert lines == [];
      SrtEmptyFile();
      StrippedLine(Join("\n", lines))
    else
      SrtTrimmable(segs);
      SrtFile(lines, segs[|segs| - 1].text, SrtKept(segs));
      StrippedLine(Join("\n", lines))
  }

  /** No block lines make a file of one newline. */
  lemma SrtEmptyFile()
    ensures StrippedLine(Join("\n", [])) == "\n"
  {
    assert Strip([]) == [];
  }

  /** The shape of the block lines that the strip relies on: they start with
      the block number 1 and end with a timing line, the stripped last text
      and a blank line; `kept` counts the lines up to the last non-blank one. */
  predicate SrtShape(lines: seq<string>, lastText: string, kept: int) {
    && |lines| >= 4 && lines[0] == "1" && lines[|lines| - 1] == []
    && lines[|lines| - 2] == Strip(lastText)
    && lines[|lines| - 3] != [] && !IsSpace(lines[|lines| - 3][|lines[|lines| - 3]| - 1])
    && kept == if Strip(lastText) == [] then |lines| - 2 else |lines| - 1
  }

  /** The file made of block lines of that shape. */
  lemma SrtFile(lines: seq<string>, lastText: string, kept: int)
    requires SrtShape(lines, lastText, kept)
    ensures var srt := StrippedLine(Join("\n", lines));
            && 0 <= kept <= |lines| && srt == Join("\n", lines[..kept]) + "\n" && srt[0] == '1'
  {
    var srt := StrippedLine(Join("\n", lines));
    StartsWithOne(lines);
    StripJoinedLines(lines, kept);
    assert srt == srt[..|srt| - 1] + [srt[|srt| - 1]];
  }

  /** How many block lines survive the strip: all but the final blank line,
      and all but the last text as well when that text is blank. */
  function SrtKept(segs: seq<SubtitleSegment>): (n: nat)
    requires segs != []
    ensures n <= 4 * |segs|
  {
    if Strip(segs[|segs| - 1].text) == [] then 4 * |segs| - 2 else 4 * |segs| - 1
  }

  /** A timing line ends in the last digit of its milliseconds. */
  lemma TimingLineEnd(seg: SubtitleSegment)
    ensures TimingLine(seg) != [] && !IsSpace(TimingLine(seg)[|TimingLine(seg)| - 1])
  {
    var c := SplitMs(RoundHalfEven(SrtEnd(seg) * 1000.0));
    var l := FormatPadded(c.millis, 3);
    assert l == ZeroPad(c.millis, 3);
    var t := TimingLine(seg);
    assert t[|t| - 1] == l[|l| - 1];
  }

  /** The block lines meet the shape that `SrtFile` needs. */
  lemma SrtTrimmable(segs: seq<SubtitleSegment>)
    requires segs != []
    ensures SrtShape(SrtLines(segs), segs[|segs| - 1].text, SrtKept(segs))
  {
    SrtEnds(segs);
    TimingLineEnd(segs[|segs| - 1]);
  }

  /** The first and the last block of the file's lines. */
  lemma SrtEnds(segs: seq<SubtitleSegment>)
    requires segs != []
    ensures var lines := SrtLines(segs);
            && |lines| >= 4 && lines[0] == "1" && lines[|lines| - 1] == []
            && lines[|lines| - 2] == Strip(segs[|segs| - 1].text)
            && lines[|lines| - 3] == TimingLine(segs[|segs| - 1])
  {
    var lines := SrtLines(segs);
    var k := |segs| - 1;
    SrtLayout(segs, 0);
    SrtLayout(segs, k);
    assert NatToString(1) == "1";
    assert |lines| - 3 == 4 * k + 1 && |lines| - 2 == 4 * k + 2 && |lines| - 1 == 4 * k + 3;
    assert segs[|segs| - 1] == segs[k];
  }

  /** Lines that start with a non-blank one, end with an empty one, and whose
      line before last is stripped and follows a line ending in a non-space:
      stripping their newline join drops the trailing empty line, and the
      line before it when that is empty too. */
  lemma StripJoinedLines(lines: seq<string>, kept: int)
    requires |lines| >= 4 && lines[0] != [] && !IsSpace(lines[0][0]) && lines[|lines| - 1] == []
    requires IsStripped(lines[|lines| - 2])
    requires var t := lines[|lines| - 3]; t != [] && !IsSpace(t[|t| - 1])
    requires kept == if lines[|lines| - 2] == [] then |lines| - 2 else |lines| - 1
    ensures 0 <= kept <= |lines| && Strip(Join("\n", lines)) == Join("\n", lines[..kept])
  {
    var m := |lines|;
    var l1, l2, l3 := lines[..m - 1], lines[..m - 2], lines[..m - 3];
    assert lines == l1 + [""];
    assert l1 == l2 + [lines[m - 2]];
    JoinSnoc("\n", l1, "");
    JoinSnoc("\n", l2, lines[m - 2]);
    JoinHead("\n", l1);
    JoinHead("\n", l2);
    if lines[m - 2] == [] {
      assert l2 == l3 + [lines[m - 3]];
      JoinSnoc("\n", l3, lines[m - 3]);
      assert Join("\n", lines) == Join("\n", l2) + "\n\n";
      StripTrailingBlank(Join("\n", l2), "\n\n");
    } else {
      assert Join("\n", lines) == Join("\n", l1) + "\n";
      StripTrailingBlank(Join("\n", l1), "\n");
    }
  }

  /** Ends in one newline with no whitespace before it, and does not start
      with whitespace unless it is that lone newline. */
  predicate OneTrailingNewline(s: string) {
    && |s| >= 1 && s[|s| - 1] == '\n'
    && (|s| >= 2 ==> !IsSpace(s[|s| - 2]) && !IsSpace(s[0]))
  }

  /** A text stripped and ended by one newline. */
  function StrippedLine(body: string): (line: string)
    ensures OneTrailingNewline(line)
    ensures line[..|line| - 1] == Strip(body)
  {
    var t := Strip(body);
    assert IsStripped(t);
    t + "\n"
  }

  lemma StartsWithOne(lines: seq<string>)
    requires |lines| >= 2 && lines[0] == "1"
    ensures Strip(Join("\n", lines)) != [] && Strip(Join("\n", lines))[0] == '1'
  {
    var body := Join("\n", lines);
    assert body == lines[0] + "\n" + Join("\n", lines[1..]);
    assert body[0] == '1';
    assert LeadingSpaces(body) == 0;
  }
}
