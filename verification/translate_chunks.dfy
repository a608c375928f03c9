/** The translation step: the numbered-list request sent to the chat model,
    the parsing of its numbered reply and the translated records written to
    translated.json. The model's reply is an input. */
module TranslateChunks {
  import opened Results
  import opened Text
  import opened Seqs
  import opened Transcript

  /** One entry of translated.json: the Whisper segment plus its translation. */
  datatype TranslatedRecord = TranslatedRecord(id: int, start: real, end: real, src: string, dst: string)

  datatype TranslateError = LostSegments(parsed: nat, expected: nat)

  function NumberedLine(i: nat, text: string): string {
    NatToString(i + 1) + ". " + text
  }

  function NumberedLines(texts: seq<string>): (ls: seq<string>)
    ensures |ls| == |texts|
    ensures forall i :: 0 <= i < |texts| ==> ls[i] == NumberedLine(i, texts[i])
  {
    seq(|texts|, i requires 0 <= i < |texts| => NumberedLine(i, texts[i]))
  }

  /** The user message: line `i` is `"{i+1}. {text}"`, lines joined by newlines. */
  function NumberedList(texts: seq<string>): string {
    Join("\n", NumberedLines(texts))
  }

  function NewlineIndex(s: string): (r: Option<nat>)
    ensures r.Some? ==> r.value < |s| && s[r.value] == '\n'
    ensures r.Some? ==> forall k :: 0 <= k < r.value ==> s[k] != '\n'
    ensures r.None? ==> forall k :: 0 <= k < |s| ==> s[k] != '\n'
  {
    if s == [] then None
    else if s[0] == '\n' then Some(0)
    else match NewlineIndex(s[1..])
      case None => None
      case Some(i) => Some(i + 1)
  }

  /** Python's `s.split("\n")`: always at least one (possibly empty) line. */
  function SplitLines(s: string): (ls: seq<string>)
    ensures |ls| >= 1
    ensures forall k :: 0 <= k < |ls| ==> forall j :: 0 <= j < |ls[k]| ==> ls[k][j] != '\n'
    decreases |s|
  {
    match NewlineIndex(s)
    case None => [s]
    case Some(i) => [s[..i]] + SplitLines(s[i + 1..])
  }

  /** Index of the first `". "` in `s`. */
  function SepIndex(s: string): (r: Option<nat>)
    ensures r.Some? ==> r.value + 1 < |s| && s[r.value] == '.' && s[r.value + 1] == ' '
    ensures r.Some? ==> forall k :: 0 <= k < r.value ==> !(s[k] == '.' && s[k + 1] == ' ')
    ensures r.None? ==> forall k :: 0 <= k < |s| - 1 ==> !(s[k] == '.' && s[k + 1] == ' ')
  {
    if |s| < 2 then None
    else if s[0] == '.' && s[1] == ' ' then Some(0)
    else match SepIndex(s[1..])
      case None => None
      case Some(i) => Some(i + 1)
  }

  predicate HasSep(line: string) {
    SepIndex(line).Some?
  }

  /** `line.split(". ", 1)[1]`. */
  function AfterSep(line: string): string
    requires HasSep(line)
  {
    line[SepIndex(line).value + 2..]
  }

  function ParseLoop(lines: seq<string>): seq<string> {
    if lines == [] then []
    else if HasSep(lines[0]) then [AfterSep(lines[0])] + ParseLoop(lines[1..])
    else ParseLoop(lines[1..])
  }

  /** The list comprehension that reads the numbered reply back: every line
      holding `". "` contributes the part after its first `". "`. */
  function ParseNumberedList(reply: string): (items: seq<string>)
    ensures |items| == |Filter(HasSep, SplitLines(reply))|
    ensures forall k :: 0 <= k < |items| ==> items[k] == AfterSep(Filter(HasSep, SplitLines(reply))[k])
  {
    ParseLoopIsFilter(SplitLines(reply));
    ParseLoop(SplitLines(reply))
  }

  lemma {:induction false} ParseLoopIsFilter(lines: seq<string>)
    ensures |ParseLoop(lines)| == |Filter(HasSep, lines)|
    ensures forall k :: 0 <= k < |ParseLoop(lines)| ==>
              ParseLoop(lines)[k] == AfterSep(Filter(HasSep, lines)[k])
  {
    if lines != [] {
      ParseLoopIsFilter(lines[1..]);
      var rest := ParseLoop(lines[1..]);
      var kept := Filter(HasSep, lines[1..]);
      if HasSep(lines[0]) {
        assert ParseLoop(lines) == [AfterSep(lines[0])] + rest;
        assert Filter(HasSep, lines) == [lines[0]] + kept;
        forall k | 1 <= k < |ParseLoop(lines)|
          ensures ParseLoop(lines)[k] == AfterSep(Filter(HasSep, lines)[k])
        {
          assert ParseLoop(lines)[k] == rest[k - 1];
          assert Filter(HasSep, lines)[k] == kept[k - 1];
        }
      } else {
        assert ParseLoop(lines) == rest;
        assert Filter(HasSep, lines) == kept;
      }
    }
  }

  lemma {:induction false} SepAfterDigits(d: string, t: string)
    requires forall k :: 0 <= k < |d| ==> IsDigit(d[k])
    ensures SepIndex(d + ". " + t) == Some(|d|)
    decreases |d|
  {
    var s := d + ". " + t;
    if d != [] {
      assert s[1..] == d[1..] + ". " + t;
      SepAfterDigits(d[1..], t);
      assert s[0] != '.';
    }
  }

  lemma {:induction false} SplitLinesJoin(lines: seq<string>)
    requires |lines| >= 1
    requires forall k :: 0 <= k < |lines| ==> forall j :: 0 <= j < |lines[k]| ==> lines[k][j] != '\n'
    ensures SplitLines(Join("\n", lines)) == lines
  {
    var s := Join("\n", lines);
    if |lines| == 1 {
      assert NewlineIndex(s).None?;
    } else {
      var rest := Join("\n", lines[1..]);
      assert s == lines[0] + "\n" + rest;
      NewlineAt(lines[0], rest);
      assert s[..|lines[0]|] == lines[0];
      assert s[|lines[0]| + 1..] == rest;
      SplitLinesJoin(lines[1..]);
    }
  }

  lemma NewlineAt(a: string, b: string)
    requires forall j :: 0 <= j < |a| ==> a[j] != '\n'
    ensures NewlineIndex(a + "\n" + b) == Some(|a|)
  {
    var s := a + "\n" + b;
    if a != [] {
      assert s[0] == a[0];
      assert s[1..] == a[1..] + "\n" + b;
      NewlineAt(a[1..], b);
    }
  }

  predicate NoNewline(t: string) {
    forall j :: 0 <= j < |t| ==> t[j] != '\n'
  }

  /** Round trip: reading back a reply that echoes the request gives the texts
      that were sent, as long as none of them holds a newline. */
  lemma ParseEchoedList(texts: seq<string>)
    requires forall i :: 0 <= i < |texts| ==> NoNewline(texts[i])
    ensures ParseNumberedList(NumberedList(texts)) == texts
  {
    var lines := NumberedLines(texts);
    forall i | 0 <= i < |texts|
      ensures HasSep(lines[i]) && AfterSep(lines[i]) == texts[i]
    {
      SepAfterDigits(NatToString(i + 1), texts[i]);
      assert lines[i] == NatToString(i + 1) + ". " + texts[i];
    }
    if texts == [] {
      assert NumberedList(texts) == [];
      assert SplitLines([]) == [[]];
    } else {
      forall k | 0 <= k < |lines|
        ensures NoNewline(lines[k])
      {
        assert lines[k] == NatToString(k + 1) + ". " + texts[k];
        forall j | 0 <= j < |lines[k]|
          ensures lines[k][j] != '\n'
        {
          var d := NatToString(k + 1);
          if j < |d| {
            assert IsDigit(d[j]);
          }
        }
      }
      SplitLinesJoin(lines);
      AllHaveSep(lines);
      ParseLoopIsFilter(lines);
    }
  }

  lemma {:induction false} AllHaveSep(lines: seq<string>)
    requires forall k :: 0 <= k < |lines| ==> HasSep(lines[k])
    ensures Filter(HasSep, lines) == lines
  {
    if lines != [] {
      AllHaveSep(lines[1..]);
    }
  }

  function ToRecords(segs: seq<Seg>, items: seq<string>): (rs: seq<TranslatedRecord>)
    requires |items| == |segs|
    ensures |rs| == |segs|
  {
    seq(|segs|, k requires 0 <= k < |segs| =>
      TranslatedRecord(segs[k].id, segs[k].start, segs[k].end, segs[k].text, Strip(items[k])))
  }

  /** `translate_segments` after the model call: the stripped reply is parsed;
      a line count different from the segment count is an error; otherwise
      record `k` copies segment `k`'s id and times, keeps its text as `src` and
      takes the stripped `k`-th parsed line as `dst`. */
  function TranslateSegments(segs: seq<Seg>, reply: string): (r: Result<seq<TranslatedRecord>, TranslateError>)
    ensures var items := ParseNumberedList(Strip(reply));
            && (r.Err? <==> |items| != |segs|)
            && (r.Err? ==> r.error == LostSegments(|items|, |segs|))
            && (r.Ok? ==>
                  && |r.value| == |segs|
                  && forall k :: 0 <= k < |segs| ==>
                    r.value[k] == TranslatedRecord(segs[k].id, segs[k].start, segs[k].end, segs[k].text, Strip(items[k])))
  {
    var items := ParseNumberedList(Strip(reply));
    if |items| != |segs| then Err(LostSegments(|items|, |segs|))
    else Ok(ToRecords(segs, items))
  }

  /** A reply that echoes the request is accepted, and every `dst` is the
      stripped source text, when no text holds a newline and the last text ends
      in a non-space character (so stripping the reply leaves it intact). */
  lemma EchoedReplyIsAccepted(segs: seq<Seg>)
    requires segs != []
    requires forall k :: 0 <= k < |segs| ==> NoNewline(segs[k].text)
    requires var t := segs[|segs| - 1].text; t != [] && !IsSpace(t[|t| - 1])
    ensures var r := TranslateSegments(segs, NumberedList(Texts(segs)));
            r.Ok? && forall k :: 0 <= k < |segs| ==> r.value[k].dst == Strip(segs[k].text)
  {
    var texts := Texts(segs);
    var reply := NumberedList(texts);
    var lines := NumberedLines(texts);
    JoinEnds(lines);
    assert lines[0][0] == NatToString(1)[0];
    assert IsDigit(lines[0][0]);
    var lastLine := lines[|lines| - 1];
    assert lastLine[|lastLine| - 1] == texts[|texts| - 1][|texts[|texts| - 1]| - 1];
    StripStripped(reply);
    ParseEchoedList(texts);
  }

  lemma {:induction false} JoinEnds(lines: seq<string>)
    requires lines != [] && lines[0] != [] && lines[|lines| - 1] != []
    ensures var s := Join("\n", lines);
            s != [] && s[0] == lines[0][0] && s[|s| - 1] == lines[|lines| - 1][|lines[|lines| - 1]| - 1]
  {
    JoinLast(lines);
  }

  lemma {:induction false} JoinLast(lines: seq<string>)
    requires lines != [] && lines[|lines| - 1] != []
    ensures var s := Join("\n", lines);
            s != [] && s[|s| - 1] == lines[|lines| - 1][|lines[|lines| - 1]| - 1]
  {
    if |lines| > 1 {
      JoinLast(lines[1..]);
    }
  }
}
