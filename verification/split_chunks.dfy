/** The chunk builder: groups translated segments, left to right, into chunks
    of at most 260 characters and 15 seconds for one speech-synthesis call
    each, then writes each chunk shifted by the preserved leading silence. */
module SplitChunks {
  import opened Numeric
  import opened Text
  import opened Seqs
  import opened TranslateChunks

  const MaxChars: int := 260
  const MaxDuration: real := 15.0

  /** `compute_global_offset`: how far the first segment must move right to
      start no earlier than the preserved leading silence (never left). */
  function ComputeGlobalOffset(segs: seq<TranslatedRecord>, leadingSilence: real): (offset: real)
    ensures offset >= 0.0
    ensures segs == [] ==> offset == 0.0
    ensures segs != [] ==> segs[0].start + offset >= leadingSilence
    ensures segs != [] && offset > 0.0 ==> segs[0].start + offset == leadingSilence
  {
    if segs == [] then 0.0 else MaxReal(leadingSilence - segs[0].start, 0.0)
  }

  /** Python's `round(x, 3)`, ties to even. */
  function Round3(x: real): (r: real)
    ensures x - 0.0005 <= r <= x + 0.0005
  {
    RoundHalfEven(x * 1000.0) as real / 1000.0
  }

  /** `apply_offset`: the shifted time rounded to milliseconds, clamped at zero. */
  function ApplyOffset(value: real, offset: real): (r: real)
    ensures r >= 0.0
    ensures value + offset >= 0.0 ==> value + offset - 0.0005 <= r <= value + offset + 0.0005
    ensures value + offset < -0.0005 ==> r == 0.0
  {
    MaxReal(Round3(value + offset), 0.0)
  }

  /** A chunk as the loop builds it: `(start, end, text)`, together with the
      segments whose text went into it. */
  datatype Chunk = Chunk(start: real, end: real, text: string, members: seq<TranslatedRecord>)

  /** The text the loop accumulates for some segments: each `dst` followed by a space. */
  function TextOf(ms: seq<TranslatedRecord>): string {
    if ms == [] then [] else ms[0].dst + " " + TextOf(ms[1..])
  }

  lemma {:induction false} TextOfConcat(a: seq<TranslatedRecord>, b: seq<TranslatedRecord>)
    ensures TextOf(a + b) == TextOf(a) + TextOf(b)
  {
    if a == [] {
      assert a + b == b;
    } else {
      assert (a + b)[0] == a[0];
      assert (a + b)[1..] == a[1..] + b;
      TextOfConcat(a[1..], b);
    }
  }

  lemma TextOfSnoc(a: seq<TranslatedRecord>, s: TranslatedRecord)
    ensures TextOf(a + [s]) == TextOf(a) + s.dst + " "
  {
    TextOfConcat(a, [s]);
    assert TextOf([s]) == s.dst + " " + TextOf([]);
  }

  /** The test that closes the current chunk before segment `s`. */
  predicate Closes(curText: string, curStart: real, s: TranslatedRecord) {
    |curText| + |s.dst| > MaxChars || s.end - curStart > MaxDuration
  }

  /** A chunk's text is its members' text; it spans from its first member's
      start to its last member's end. */
  predicate WellFormed(c: Chunk) {
    && c.text == TextOf(c.members)
    && (c.members != [] ==> c.start == c.members[0].start && c.end == c.members[|c.members| - 1].end)
  }

  /** No member after the first would have closed the chunk. */
  predicate NoInnerBreak(c: Chunk) {
    forall j :: 1 <= j < |c.members| ==> !Closes(TextOf(c.members[..j]), c.start, c.members[j])
  }

  function Members(cs: seq<Chunk>): (mss: seq<seq<TranslatedRecord>>)
    ensures |mss| == |cs|
    ensures forall k :: 0 <= k < |cs| ==> mss[k] == cs[k].members
  {
    Map((c: Chunk) => c.members, cs)
  }

  function ChunkTexts(cs: seq<Chunk>): (ts: seq<string>)
    ensures |ts| == |cs|
    ensures forall k :: 0 <= k < |cs| ==> ts[k] == cs[k].text
  {
    Map((c: Chunk) => c.text, cs)
  }

  /** The `for seg in segments` loop of `split_into_chunks` from `cur` on; the
      final `chunks.append` is the `rest == []` case. */
  function ChunkLoop(rest: seq<TranslatedRecord>, cur: Chunk): (r: seq<Chunk>)
    ensures |r| >= 1
    decreases |rest|
  {
    if rest == [] then [cur]
    else
      var s := rest[0];
      if Closes(cur.text, cur.start, s) then
        [cur] + ChunkLoop(rest[1..], Chunk(s.start, s.end, s.dst + " ", [s]))
      else
        ChunkLoop(rest[1..], Chunk(cur.start, s.end, cur.text + s.dst + " ", cur.members + [s]))
  }

  /** Every chunk is well formed and has no inner break. */
  predicate AllShaped(r: seq<Chunk>) {
    forall k :: 0 <= k < |r| ==> WellFormed(r[k]) && NoInnerBreak(r[k])
  }

  /** Every chunk after the first has members, and each chunk was closed by
      the first member of the next. */
  predicate ClosedBetween(r: seq<Chunk>) {
    && (forall k :: 1 <= k < |r| ==> r[k].members != [])
    && (forall k :: 0 <= k < |r| - 1 ==> Closes(r[k].text, r[k].start, r[k + 1].members[0]))
  }

  lemma ExtendKeepsShape(cur: Chunk, s: TranslatedRecord)
    requires WellFormed(cur) && NoInnerBreak(cur)
    requires cur.members == [] ==> cur.start == s.start
    requires !Closes(cur.text, cur.start, s)
    ensures var c := Chunk(cur.start, s.end, cur.text + s.dst + " ", cur.members + [s]);
            WellFormed(c) && NoInnerBreak(c)
  {
    var ms := cur.members + [s];
    TextOfSnoc(cur.members, s);
    forall j | 1 <= j < |ms|
      ensures !Closes(TextOf(ms[..j]), cur.start, ms[j])
    {
      if j < |cur.members| {
        assert ms[..j] == cur.members[..j];
      } else {
        assert ms[..j] == cur.members;
      }
    }
  }

  lemma SingletonShape(s: TranslatedRecord)
    ensures var c := Chunk(s.start, s.end, s.dst + " ", [s]);
            WellFormed(c) && NoInnerBreak(c)
  {
    assert TextOf([s]) == s.dst + " " + TextOf([]);
  }

  lemma ConsChunk(cur: Chunk, tail: seq<Chunk>)
    requires tail != [] && tail[0].members != []
    requires WellFormed(cur) && NoInnerBreak(cur) && AllShaped(tail) && ClosedBetween(tail)
    requires Closes(cur.text, cur.start, tail[0].members[0])
    ensures AllShaped([cur] + tail) && ClosedBetween([cur] + tail)
    ensures Concat(Members([cur] + tail)) == cur.members + Concat(Members(tail))
  {
    var r := [cur] + tail;
    forall k | 0 <= k < |r| - 1
      ensures Closes(r[k].text, r[k].start, r[k + 1].members[0])
    {
      if k > 0 {
        assert r[k] == tail[k - 1] && r[k + 1] == tail[k];
      }
    }
    assert Members(r) == [cur.members] + Members(tail);
  }

  lemma ConcatHead(cs: seq<Chunk>)
    requires cs != [] && cs[0].members != []
    ensures Concat(Members(cs)) != [] && Concat(Members(cs))[0] == cs[0].members[0]
  {
    assert Concat(Members(cs)) == cs[0].members + Concat(Members(cs)[1..]);
  }

  /** What the loop from `cur` over `rest` produces: the chunks hold
      `cur`'s members and then `rest`, in order; the first chunk is empty
      only if it is `cur` itself; every chunk is shaped and closed by the
      next one's first member. */
  predicate LoopResult(r: seq<Chunk>, cur: Chunk, rest: seq<TranslatedRecord>) {
    && r != []
    && Concat(Members(r)) == cur.members + rest
    && (cur.members != [] ==> r[0].members != [])
    && (r[0].members == [] ==> r[0] == cur)
    && AllShaped(r)
    && ClosedBetween(r)
  }

  lemma EndResult(cur: Chunk)
    requires WellFormed(cur) && NoInnerBreak(cur)
    ensures LoopResult([cur], cur, [])
  {
    assert Members([cur]) == [cur.members];
    assert Concat(Members([cur])) == cur.members + Concat([]);
  }

  /** The chunk list after a closing segment `s`: the closed chunk followed
      by the chunks that start with `s`. */
  lemma CloseResult(cur: Chunk, s: TranslatedRecord, after: seq<TranslatedRecord>, tail: seq<Chunk>)
    requires WellFormed(cur) && NoInnerBreak(cur) && Closes(cur.text, cur.start, s)
    requires LoopResult(tail, Chunk(s.start, s.end, s.dst + " ", [s]), after)
    ensures LoopResult([cur] + tail, cur, [s] + after)
  {
    ConcatHead(tail);
    ConsChunk(cur, tail);
  }

  /** The chunk list after a segment `s` that joins `cur`. */
  lemma ExtendResult(cur: Chunk, s: TranslatedRecord, after: seq<TranslatedRecord>, tail: seq<Chunk>)
    requires LoopResult(tail, Chunk(cur.start, s.end, cur.text + s.dst + " ", cur.members + [s]), after)
    ensures LoopResult(tail, cur, [s] + after)
  {
    assert cur.members + [s] + after == cur.members + ([s] + after);
  }

  lemma {:induction false} ChunkLoopShape(rest: seq<TranslatedRecord>, cur: Chunk)
    requires WellFormed(cur) && NoInnerBreak(cur)
    requires cur.members == [] && rest != [] ==> cur.start == rest[0].start
    ensures LoopResult(ChunkLoop(rest, cur), cur, rest)
    decreases |rest|
  {
    if rest == [] {
      EndResult(cur);
    } else {
      var s := rest[0];
      assert rest == [s] + rest[1..];
      if Closes(cur.text, cur.start, s) {
        var next := Chunk(s.start, s.end, s.dst + " ", [s]);
        SingletonShape(s);
        ChunkLoopShape(rest[1..], next);
        CloseResult(cur, s, rest[1..], ChunkLoop(rest[1..], next));
      } else {
        var next := Chunk(cur.start, s.end, cur.text + s.dst + " ", cur.members + [s]);
        ExtendKeepsShape(cur, s);
        ChunkLoopShape(rest[1..], next);
        ExtendResult(cur, s, rest[1..], ChunkLoop(rest[1..], next));
      }
    }
  }

  /** `split_into_chunks`' grouping loop: nothing for no segments; otherwise the
      chunks hold every segment once, in order, each chunk is closed exactly
      when the next segment would push it over 260 characters or 15 seconds,
      and only the first chunk can be empty (when the first segment alone
      already breaks a limit). */
  function SplitIntoChunks(segs: seq<TranslatedRecord>): (r: seq<Chunk>)
    ensures segs == [] <==> r == []
    ensures Concat(Members(r)) == segs
    ensures AllShaped(r) && ClosedBetween(r)
    ensures segs != [] ==> (r[0].members == [] <==> Closes("", segs[0].start, segs[0]))
    ensures segs != [] && r[0].members == [] ==> r[0] == Chunk(segs[0].start, segs[0].end, "", [])
  {
    if segs == [] then []
    else
      var init := Chunk(segs[0].start, segs[0].end, "", []);
      ChunkLoopShape(segs, init);
      FirstChunkEmptyIff(segs, init);
      ChunkLoop(segs, init)
  }

  lemma FirstChunkEmptyIff(segs: seq<TranslatedRecord>, init: Chunk)
    requires segs != [] && init == Chunk(segs[0].start, segs[0].end, "", [])
    ensures ChunkLoop(segs, init)[0].members == [] <==> Closes("", segs[0].start, segs[0])
  {
    var s := segs[0];
    if !Closes("", segs[0].start, s) {
      var next := Chunk(init.start, s.end, init.text + s.dst + " ", init.members + [s]);
      ExtendKeepsShape(init, s);
      ChunkLoopShape(segs[1..], next);
    }
  }

  /** Every chunk of two or more segments stays within the limits (the text
      may carry one trailing space over 260); so only a chunk made of a single
      oversized segment can exceed either limit. */
  lemma ChunkLimits(segs: seq<TranslatedRecord>)
    ensures forall c :: c in SplitIntoChunks(segs) && |c.members| >= 2 ==>
              |c.text| <= MaxChars + 1 && c.end - c.start <= MaxDuration
  {
    var r := SplitIntoChunks(segs);
    forall c | c in r && |c.members| >= 2
      ensures |c.text| <= MaxChars + 1 && c.end - c.start <= MaxDuration
    {
      var k :| 0 <= k < |r| && r[k] == c;
      MultiMemberWithinLimits(c);
    }
  }

  /** A shaped chunk of two or more members: its last member did not close
      it, so the text before that member and its end were within the limits. */
  lemma MultiMemberWithinLimits(c: Chunk)
    requires WellFormed(c) && NoInnerBreak(c) && |c.members| >= 2
    ensures |c.text| <= MaxChars + 1 && c.end - c.start <= MaxDuration
  {
    var j := |c.members| - 1;
    assert !Closes(TextOf(c.members[..j]), c.start, c.members[j]);
    TextOfSnoc(c.members[..j], c.members[j]);
    assert c.members[..j] + [c.members[j]] == c.members;
  }

  lemma {:induction false} ConcatTextsOfShapedChunks(cs: seq<Chunk>)
    requires forall k :: 0 <= k < |cs| ==> WellFormed(cs[k])
    ensures Concat(ChunkTexts(cs)) == TextOf(Concat(Members(cs)))
  {
    if cs != [] {
      ConcatTextsOfShapedChunks(cs[1..]);
      assert ChunkTexts(cs)[1..] == ChunkTexts(cs[1..]);
      assert Members(cs)[1..] == Members(cs[1..]);
      TextOfConcat(cs[0].members, Concat(Members(cs[1..])));
    }
  }

  /** Text conservation: the chunk texts, concatenated in order, are exactly
      every segment's `dst + " "` in order, none dropped or repeated. */
  lemma ChunkTextConservation(segs: seq<TranslatedRecord>)
    ensures Concat(ChunkTexts(SplitIntoChunks(segs))) == TextOf(segs)
  {
    ConcatTextsOfShapedChunks(SplitIntoChunks(segs));
  }

  /** One chunk file: `{start, end, text}` after the offset and the strip. */
  datatype SavedChunk = SavedChunk(start: real, end: real, text: string)

  /** `save_chunk`, without the file writes: both times shifted by the
      global offset through `apply_offset`, the text stripped. */
  function SaveChunk(c: Chunk, offset: real): (s: SavedChunk)
    ensures s.start == ApplyOffset(c.start, offset) && s.end == ApplyOffset(c.end, offset)
    ensures s.start >= 0.0 && s.end >= 0.0
    ensures IsStripped(s.text) && Split(s.text) == Split(c.text)
  {
    SplitStrip(c.text);
    SavedChunk(ApplyOffset(c.start, offset), ApplyOffset(c.end, offset), Strip(c.text))
  }

  function Dsts(ms: seq<TranslatedRecord>): (ds: seq<string>)
    ensures |ds| == |ms|
    ensures forall k :: 0 <= k < |ms| ==> ds[k] == ms[k].dst
  {
    Map((m: TranslatedRecord) => m.dst, ms)
  }

  lemma {:induction false} SplitTextOf(ms: seq<TranslatedRecord>)
    ensures Split(TextOf(ms)) == Words(Dsts(ms))
  {
    if ms != [] {
      SplitAround(ms[0].dst, ' ', TextOf(ms[1..]));
      assert ms[0].dst + " " + TextOf(ms[1..]) == ms[0].dst + [' '] + TextOf(ms[1..]);
      SplitTextOf(ms[1..]);
      assert Dsts(ms)[1..] == Dsts(ms[1..]);
    }
  }

  lemma {:induction false} WordsOfShapedChunks(cs: seq<Chunk>)
    requires forall k :: 0 <= k < |cs| ==> WellFormed(cs[k])
    ensures Words(ChunkTexts(cs)) == Words(Dsts(Concat(Members(cs))))
  {
    if cs != [] {
      var head := cs[0].members;
      var rest := Concat(Members(cs[1..]));
      WordsOfShapedChunks(cs[1..]);
      ChunksCons(cs);
      SplitTextOf(head);
      DstsAppend(head, rest);
      WordsAppend(Dsts(head), Dsts(rest));
    }
  }

  /** How the chunk lists split off their first chunk. */
  lemma ChunksCons(cs: seq<Chunk>)
    requires cs != []
    ensures ChunkTexts(cs) == [cs[0].text] + ChunkTexts(cs[1..])
    ensures Concat(Members(cs)) == cs[0].members + Concat(Members(cs[1..]))
  {
    assert Members(cs)[1..] == Members(cs[1..]);
  }

  lemma DstsAppend(a: seq<TranslatedRecord>, b: seq<TranslatedRecord>)
    ensures Dsts(a + b) == Dsts(a) + Dsts(b)
  {
  }

  function SaveAll(cs: seq<Chunk>, offset: real): (saved: seq<SavedChunk>)
    ensures |saved| == |cs|
    ensures forall k :: 0 <= k < |cs| ==> saved[k] == SaveChunk(cs[k], offset)
  {
    Map((c: Chunk) => SaveChunk(c, offset), cs)
  }

  function SavedTexts(saved: seq<SavedChunk>): (ts: seq<string>)
    ensures |ts| == |saved|
    ensures forall k :: 0 <= k < |saved| ==> ts[k] == saved[k].text
  {
    Map((c: SavedChunk) => c.text, saved)
  }

  /** `split_into_chunks` without the file system: the chunk files it writes.
      No segments, no files; otherwise file k is chunk k saved with the
      global offset, every file has non-negative times and stripped text, and
      the files hold exactly the words of all `dst`s, in order. */
  function SplitIntoChunkFiles(segs: seq<TranslatedRecord>, leadingSilence: real): (saved: seq<SavedChunk>)
    ensures segs == [] ==> saved == []
    ensures segs != [] ==> |saved| >= 1
    ensures |saved| == |SplitIntoChunks(segs)|
    ensures forall k :: 0 <= k < |saved| ==>
              saved[k] == SaveChunk(SplitIntoChunks(segs)[k], ComputeGlobalOffset(segs, leadingSilence))
    ensures forall k :: 0 <= k < |saved| ==> saved[k].start >= 0.0 && saved[k].end >= 0.0 && IsStripped(saved[k].text)
    ensures Words(SavedTexts(saved)) == Words(Dsts(segs))
  {
    var chunks := SplitIntoChunks(segs);
    var saved := SaveAll(chunks, ComputeGlobalOffset(segs, leadingSilence));
    WordsOfShapedChunks(chunks);
    assert SavedTexts(saved) == StripAll(ChunkTexts(chunks));
    WordsStripAll(ChunkTexts(chunks));
    saved
  }
}
