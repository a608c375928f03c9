/** The GPT transcript cleaner: sends the Whisper segments to a language model
    in chunks of at most 6000 characters of text, accepts a reply only when it
    keeps every id and timestamp, and writes back the stripped texts and the
    rebuilt full text. The model's reply is a parameter. */
module GptCleaner {
  import opened Results
  import opened Text
  import opened Seqs
  import opened Transcript

  const ChunkCharLimit: int := 6000

  /** The number of text characters in some segments. */
  function TextLen(segs: seq<Seg>): nat {
    if segs == [] then 0 else |segs[0].text| + TextLen(segs[1..])
  }

  lemma {:induction false} TextLenSnoc(segs: seq<Seg>, s: Seg)
    ensures TextLen(segs + [s]) == TextLen(segs) + |s.text|
  {
    if segs == [] {
      assert segs + [s] == [s];
    } else {
      assert (segs + [s])[1..] == segs[1..] + [s];
      TextLenSnoc(segs[1..], s);
    }
  }

  /** The generator loop of `_chunk_segments` from the open chunk `cur` on;
      `current_len` is `TextLen(cur)`. */
  function ChunkLoop(rest: seq<Seg>, cur: seq<Seg>, limit: int): seq<seq<Seg>>
    decreases |rest|
  {
    if rest == [] then (if cur == [] then [] else [cur])
    else
      var s := rest[0];
      if cur != [] && TextLen(cur) + |s.text| > limit then [cur] + ChunkLoop(rest[1..], [s], limit)
      else ChunkLoop(rest[1..], cur + [s], limit)
  }

  /** A chunk stays within the limit unless it is a single segment. */
  predicate WithinLimit(chunk: seq<Seg>, limit: int) {
    TextLen(chunk) <= limit || |chunk| == 1
  }

  /** Chunk `a` was closed because the first segment of `b` would have
      overflowed it. */
  predicate Overflows(a: seq<Seg>, b: seq<Seg>, limit: int) {
    b != [] && TextLen(a) + |b[0].text| > limit
  }

  /** Chunks are non-empty, within the limit, and each was closed because the
      next one's first segment would have overflowed it. */
  predicate ChunkedAt(cs: seq<seq<Seg>>, limit: int) {
    && (forall k :: 0 <= k < |cs| ==> cs[k] != [] && WithinLimit(cs[k], limit))
    && (forall k :: 0 <= k < |cs| - 1 ==> Overflows(cs[k], cs[k + 1], limit))
  }

  lemma ConsChunk(cur: seq<Seg>, tail: seq<seq<Seg>>, limit: int)
    requires cur != [] && WithinLimit(cur, limit) && ChunkedAt(tail, limit)
    requires Overflows(cur, Concat(tail), limit) && tail != [] && tail[0] != []
    ensures ChunkedAt([cur] + tail, limit)
    ensures Concat([cur] + tail) == cur + Concat(tail)
  {
    var r := [cur] + tail;
    assert Concat(tail)[0] == tail[0][0];
    forall k | 0 <= k < |r| - 1
      ensures Overflows(r[k], r[k + 1], limit)
    {
      if k > 0 {
        assert r[k] == tail[k - 1] && r[k + 1] == tail[k];
      }
    }
  }

  lemma {:induction false} ChunkLoopShape(rest: seq<Seg>, cur: seq<Seg>, limit: int)
    requires cur != [] ==> WithinLimit(cur, limit)
    ensures var r := ChunkLoop(rest, cur, limit);
            && Concat(r) == cur + rest
            && ChunkedAt(r, limit)
            && (cur != [] ==> r != [] && r[0][0] == cur[0])
    decreases |rest|
  {
    var r: seq<seq<Seg>> := ChunkLoop(rest, cur, limit);
    if rest == [] {
      if cur != [] {
        assert Concat(r) == cur + Concat([]);
      }
    } else {
      var s := rest[0];
      if cur != [] && TextLen(cur) + |s.text| > limit {
        ChunkLoopShape(rest[1..], [s], limit);
        var tail := ChunkLoop(rest[1..], [s], limit);
        assert r == [cur] + tail;
        assert [s] + rest[1..] == rest;
        ConsChunk(cur, tail, limit);
      } else {
        TextLenSnoc(cur, s);
        ChunkLoopShape(rest[1..], cur + [s], limit);
        assert cur + [s] + rest[1..] == cur + rest;
      }
    }
  }

  /** `_chunk_segments`: the chunks hold every segment once, in order; only a
      single segment longer than the limit makes a chunk over it; and no two
      neighbouring chunks could have been merged. */
  function ChunkSegments(segs: seq<Seg>, limit: int): (r: seq<seq<Seg>>)
    ensures Concat(r) == segs
    ensures segs == [] <==> r == []
    ensures ChunkedAt(r, limit)
  {
    ChunkLoopShape(segs, [], limit);
    ChunkLoop(segs, [], limit)
  }

  /** The `text` entry of a returned segment. */
  datatype TextField = NoText | NonString | Str(s: string)

  /** One segment of the model's reply; `None` is a missing key. */
  datatype ReplySeg = ReplySeg(id: Option<int>, start: Option<real>, end: Option<real>, text: TextField)

  /** What `_call_gpt` yields: it raised after its retries, or returned a JSON
      object with or without a `segments` list. */
  datatype Reply = CallFailed | NoSegmentsList | SegmentsList(segs: seq<ReplySeg>)

  datatype CleanError =
    | GptFailed
    | MissingSegmentsList
    | LostSegments(got: int, expected: int)
    | MisalignedId(expected: int)
    | ChangedTimestamps(id: int)
    | MissingText(id: int)
    | NonStringText(id: int)

  /** A returned segment that the cleaner accepts in place of `o`. */
  predicate Accepted(o: Seg, c: ReplySeg) {
    c.id == Some(o.id) && c.start == Some(o.start) && c.end == Some(o.end) && c.text.Str?
  }

  /** The checks of `_process_chunk` on one pair, in their order. */
  function PairError(o: Seg, c: ReplySeg): (e: Option<CleanError>)
    ensures e.None? <==> Accepted(o, c)
    ensures c.id != Some(o.id) ==> e == Some(MisalignedId(o.id))
    ensures c.id == Some(o.id) && (c.start != Some(o.start) || c.end != Some(o.end)) ==> e == Some(ChangedTimestamps(o.id))
  {
    if c.id != Some(o.id) then Some(MisalignedId(o.id))
    else if c.start != Some(o.start) || c.end != Some(o.end) then Some(ChangedTimestamps(o.id))
    else if c.text.NoText? then Some(MissingText(o.id))
    else if c.text.NonString? then Some(NonStringText(o.id))
    else None
  }

  /** The `for original, cleaned in zip(...)` loop: the first rejected pair
      raises; otherwise every returned segment keeps the original's id and
      times and gets its text stripped. */
  function CleanPairs(chunk: seq<Seg>, rs: seq<ReplySeg>): (r: Result<seq<Seg>, CleanError>)
    requires |rs| == |chunk|
    ensures r.Ok? <==> forall k :: 0 <= k < |chunk| ==> Accepted(chunk[k], rs[k])
    ensures r.Ok? ==> |r.value| == |chunk| && forall k :: 0 <= k < |chunk| ==>
              r.value[k] == Seg(chunk[k].id, chunk[k].start, chunk[k].end, Strip(rs[k].text.s))
    ensures forall k :: 0 <= k < |chunk| && !Accepted(chunk[k], rs[k])
                        && (forall j :: 0 <= j < k ==> Accepted(chunk[j], rs[j])) ==>
              r == Err(PairError(chunk[k], rs[k]).value)
  {
    if chunk == [] then Ok([])
    else
      match PairError(chunk[0], rs[0])
      case Some(e) => Err(e)
      case None =>
        var rest :- CleanPairs(chunk[1..], rs[1..]);
        var o := chunk[0];
        Ok([Seg(o.id, o.start, o.end, Strip(rs[0].text.s))] + rest)
  }

  /** `_process_chunk` given the model's reply for the chunk. */
  function ProcessChunk(chunk: seq<Seg>, reply: Reply): (r: Result<seq<Seg>, CleanError>)
    ensures reply.CallFailed? ==> r == Err(GptFailed)
    ensures reply.NoSegmentsList? ==> r == Err(MissingSegmentsList)
    ensures reply.SegmentsList? && |reply.segs| != |chunk| ==> r == Err(LostSegments(|reply.segs|, |chunk|))
    ensures r.Ok? <==> reply.SegmentsList? && |reply.segs| == |chunk|
                       && forall k :: 0 <= k < |chunk| ==> Accepted(chunk[k], reply.segs[k])
    ensures r.Ok? ==> |r.value| == |chunk| && forall k :: 0 <= k < |chunk| ==>
              r.value[k] == Seg(chunk[k].id, chunk[k].start, chunk[k].end, Strip(reply.segs[k].text.s))
  {
    match reply
    case CallFailed => Err(GptFailed)
    case NoSegmentsList => Err(MissingSegmentsList)
    case SegmentsList(rs) =>
      if |rs| != |chunk| then Err(LostSegments(|rs|, |chunk|))
      else CleanPairs(chunk, rs)
  }

  /** The Whisper document: its segments (an absent or null list is empty)
      and its full text. */
  datatype Doc = Doc(segments: seq<Seg>, text: string)

  /** Same ids and times, position by position. */
  predicate SameFrame(a: seq<Seg>, b: seq<Seg>) {
    |a| == |b| && forall k :: 0 <= k < |a| ==> a[k].id == b[k].id && a[k].start == b[k].start && a[k].end == b[k].end
  }

  predicate AllStripped(segs: seq<Seg>) {
    forall k :: 0 <= k < |segs| ==> IsStripped(segs[k].text)
  }

  lemma ConcatPrefixStep(cs: seq<seq<Seg>>, i: nat)
    requires i < |cs|
    ensures Concat(cs[..i + 1]) == Concat(cs[..i]) + cs[i]
  {
    assert cs[..i + 1] == cs[..i] + [cs[i]];
    ConcatAppend(cs[..i], [cs[i]]);
    assert Concat([cs[i]]) == cs[i] + Concat([]);
  }

  /** The segments of a reply's list; none when it has no list. */
  function ListOf(reply: Reply): seq<ReplySeg> {
    if reply.SegmentsList? then reply.segs else []
  }

  /** The model's replies to the chunks, laid end to end. */
  function RepliesOf(chunks: seq<seq<Seg>>, gpt: seq<Seg> -> Reply): seq<ReplySeg> {
    if chunks == [] then [] else ListOf(gpt(chunks[0])) + RepliesOf(chunks[1..], gpt)
  }

  lemma {:induction false} RepliesAppend(a: seq<seq<Seg>>, b: seq<seq<Seg>>, gpt: seq<Seg> -> Reply)
    ensures RepliesOf(a + b, gpt) == RepliesOf(a, gpt) + RepliesOf(b, gpt)
  {
    if a == [] {
      assert a + b == b;
    } else {
      assert (a + b)[0] == a[0] && (a + b)[1..] == a[1..] + b;
      RepliesAppend(a[1..], b, gpt);
    }
  }

  lemma RepliesPrefixStep(chunks: seq<seq<Seg>>, gpt: seq<Seg> -> Reply, i: nat)
    requires i < |chunks|
    ensures RepliesOf(chunks[..i + 1], gpt) == RepliesOf(chunks[..i], gpt) + ListOf(gpt(chunks[i]))
  {
    assert chunks[..i + 1] == chunks[..i] + [chunks[i]];
    RepliesAppend(chunks[..i], [chunks[i]], gpt);
    assert RepliesOf([chunks[i]], gpt) == ListOf(gpt(chunks[i])) + RepliesOf([], gpt);
  }

  /** `cleaned` is `orig` with every reply segment accepted and every text
      replaced by the stripped text of the reply at the same position. */
  predicate CleanedFrom(cleaned: seq<Seg>, orig: seq<Seg>, replies: seq<ReplySeg>) {
    && |cleaned| == |orig| == |replies|
    && forall k :: 0 <= k < |orig| ==>
         && Accepted(orig[k], replies[k])
         && cleaned[k] == Seg(orig[k].id, orig[k].start, orig[k].end, Strip(replies[k].text.s))
  }

  /** An accepted chunk comes back as its reply's stripped texts. */
  lemma ProcessedIsCleaned(chunk: seq<Seg>, reply: Reply)
    requires ProcessChunk(chunk, reply).Ok?
    ensures CleanedFrom(ProcessChunk(chunk, reply).value, chunk, ListOf(reply))
  {
  }

  lemma CleanedAppend(a: seq<Seg>, b: seq<Seg>, c: seq<ReplySeg>, d: seq<Seg>, e: seq<Seg>, f: seq<ReplySeg>)
    requires CleanedFrom(a, b, c) && CleanedFrom(d, e, f)
    ensures CleanedFrom(a + d, b + e, c + f)
  {
    forall k | 0 <= k < |b + e|
      ensures Accepted((b + e)[k], (c + f)[k])
      ensures (a + d)[k] == Seg((b + e)[k].id, (b + e)[k].start, (b + e)[k].end, Strip((c + f)[k].text.s))
    {
      if k >= |b| {
        assert (a + d)[k] == d[k - |b|] && (b + e)[k] == e[k - |b|] && (c + f)[k] == f[k - |b|];
      }
    }
  }

  /** Cleaned segments keep the frame of the originals and are stripped. */
  lemma CleanedKeepsFrame(cleaned: seq<Seg>, orig: seq<Seg>, replies: seq<ReplySeg>)
    requires CleanedFrom(cleaned, orig, replies)
    ensures SameFrame(cleaned, orig) && AllStripped(cleaned)
  {
  }

  /** `clean_segments_with_gpt`, with `gpt` standing for the model's reply to
      each chunk: with no segments the document comes back untouched; the
      first rejected chunk fails the whole call with its error; otherwise
      every segment keeps its id and times and takes the stripped text of the
      reply segment at its position, and the full text holds exactly their
      words. */
  method CleanSegmentsWithGpt(doc: Doc, gpt: seq<Seg> -> Reply) returns (r: Result<Doc, CleanError>)
    ensures doc.segments == [] ==> r == Ok(doc)
    ensures doc.segments != [] ==>
              (r.Ok? <==> forall c :: c in ChunkSegments(doc.segments, ChunkCharLimit) ==> ProcessChunk(c, gpt(c)).Ok?)
    ensures r.Ok? && doc.segments != [] ==>
              && CleanedFrom(r.value.segments, doc.segments, RepliesOf(ChunkSegments(doc.segments, ChunkCharLimit), gpt))
              && SameFrame(r.value.segments, doc.segments)
              && AllStripped(r.value.segments)
              && Split(r.value.text) == Words(Texts(r.value.segments))
    ensures r.Err? ==>
              var chunks := ChunkSegments(doc.segments, ChunkCharLimit);
              exists j :: && 0 <= j < |chunks| && ProcessChunk(chunks[j], gpt(chunks[j])) == Err(r.error)
                          && forall i :: 0 <= i < j ==> ProcessChunk(chunks[i], gpt(chunks[i])).Ok?
  {
    if doc.segments == [] {
      return Ok(doc);
    }
    var chunks := ChunkSegments(doc.segments, ChunkCharLimit);
    var cleaned: seq<Seg> := [];
    var i := 0;
    while i < |chunks|
      invariant 0 <= i <= |chunks|
      invariant forall j :: 0 <= j < i ==> ProcessChunk(chunks[j], gpt(chunks[j])).Ok?
      invariant CleanedFrom(cleaned, Concat(chunks[..i]), RepliesOf(chunks[..i], gpt))
    {
      var processed := ProcessChunk(chunks[i], gpt(chunks[i]));
      if processed.Err? {
        return Err(processed.error);
      }
      ProcessedIsCleaned(chunks[i], gpt(chunks[i]));
      ConcatPrefixStep(chunks, i);
      RepliesPrefixStep(chunks, gpt, i);
      CleanedAppend(cleaned, Concat(chunks[..i]), RepliesOf(chunks[..i], gpt),
                    processed.value, chunks[i], ListOf(gpt(chunks[i])));
      cleaned := cleaned + processed.value;
      i := i + 1;
    }
    assert chunks[..i] == chunks;
    CleanedKeepsFrame(cleaned, doc.segments, RepliesOf(chunks, gpt));
    return Ok(Doc(cleaned, RebuildText(cleaned)));
  }
}
