/**
 * The chunk projection of minarx/protocols/common.py, used for QUIC datagrams and SSH streams: only directions
 * and lengths go to the layout, every payload byte goes to the opaque stream.
 */
module ChunkCodec {
  import opened Bytes
  import opened Binary
  import opened Chunks
  import opened Envelope

  const MAX_CHUNKS: nat := 10_000_000

  type Filter = Option<Chunk -> bool>

  function Kept(chunks: seq<Chunk>, filter: Filter): seq<Chunk> {
    if filter.None? || chunks == [] then chunks
    else
      Kept(chunks[..|chunks| - 1], filter)
      + if filter.value(chunks[|chunks| - 1]) then [chunks[|chunks| - 1]] else []
  }

  function ChunkHead(c: Chunk): Octets {
    [c.direction] + UVarint(|c.data|)
  }

  function HeadsFrom(chunks: seq<Chunk>, i: nat): Octets
    requires i <= |chunks|
    decreases |chunks| - i
  {
    if i == |chunks| then [] else ChunkHead(chunks[i]) + HeadsFrom(chunks, i + 1)
  }

  function DataFrom(chunks: seq<Chunk>, i: nat): Octets
    requires i <= |chunks|
    decreases |chunks| - i
  {
    if i == |chunks| then [] else chunks[i].data + DataFrom(chunks, i + 1)
  }

  function PartOf(chunks: seq<Chunk>): Part {
    Part(UVarint(|chunks|) + HeadsFrom(chunks, 0), DataFrom(chunks, 0))
  }

  function PartsOf(captures: seq<seq<Chunk>>): (parts: seq<Part>)
    ensures |parts| == |captures|
    ensures forall k :: 0 <= k < |parts| ==> parts[k] == PartOf(captures[k])
  {
    seq(|captures|, i requires 0 <= i < |captures| => PartOf(captures[i]))
  }

  // ----- Encoding

  method EncodeChunks(chunks: seq<Chunk>) returns (layout: Octets, hidden: Octets)
    ensures Part(layout, hidden) == PartOf(chunks)
  {
    hide UVarint;
    var count := EncodeUVarint(|chunks|);
    layout, hidden := count.value, [];
    LeftAndRightUnit(DataFrom(chunks, 0));
    for i := 0 to |chunks|
      invariant layout + HeadsFrom(chunks, i) == UVarint(|chunks|) + HeadsFrom(chunks, 0)
      invariant hidden + DataFrom(chunks, i) == DataFrom(chunks, 0)
    {
      Regroup(layout, ChunkHead(chunks[i]), HeadsFrom(chunks, i + 1));
      Regroup(hidden, chunks[i].data, DataFrom(chunks, i + 1));
      var length := EncodeUVarint(|chunks[i].data|);
      layout := layout + ([chunks[i].direction] + length.value);
      hidden := hidden + chunks[i].data;
    }
    LeftAndRightUnit(layout);
    LeftAndRightUnit(hidden);
  }

  /** Every capture after filtering; a filter that keeps nothing of some capture is refused. */
  function KeptAll(captures: seq<seq<Chunk>>, filter: Filter): (r: Result<seq<seq<Chunk>>>)
    ensures r.Ok? ==> |r.value| == |captures|
    ensures r.Err? ==> r.error == ValueError
  {
    if captures == [] then Ok([])
    else
      var before :- KeptAll(captures[..|captures| - 1], filter);
      var last := Kept(captures[|captures| - 1], filter);
      if filter.Some? && last == [] then Err(ValueError) else Ok(before + [last])
  }

  method Keep(chunks: seq<Chunk>, filter: Filter) returns (kept: seq<Chunk>)
    ensures kept == Kept(chunks, filter)
  {
    if filter.None? {
      return chunks;
    }
    kept := [];
    for i := 0 to |chunks|
      invariant kept == Kept(chunks[..i], filter)
    {
      assert chunks[..i + 1][..i] == chunks[..i];
      if filter.value(chunks[i]) {
        kept := kept + [chunks[i]];
      }
    }
    assert chunks[..|chunks|] == chunks;
  }

  /** What is measured of one capture. */
  datatype ChunkStats = ChunkStats(transportBytes: nat, opaqueBytes: nat, clearBytes: nat, units: nat, discarded: int)

  function ChunkStatsOf(original: seq<Chunk>, kept: seq<Chunk>): ChunkStats {
    ChunkStats(TotalBytes(kept), TotalBytes(kept), 0, |kept|, |original| - |kept|)
  }

  function ChunkStatsAll(captures: seq<seq<Chunk>>, kept: seq<seq<Chunk>>): (stats: seq<ChunkStats>)
    requires |kept| == |captures|
    ensures |stats| == |captures|
    ensures forall k :: 0 <= k < |captures| ==> stats[k] == ChunkStatsOf(captures[k], kept[k])
  {
    seq(|captures|, i requires 0 <= i < |captures| => ChunkStatsOf(captures[i], kept[i]))
  }

  function CompactedChunks(captures: seq<seq<Chunk>>, filter: Filter): Result<Compacted<ChunkStats>> {
    var kept :- KeptAll(captures, filter);
    var parts := PartsOf(kept);
    Ok(Compacted(ArchiveLayout(parts), ArchiveHidden(parts), ChunkStatsAll(captures, kept)))
  }

  lemma PartsStep(done: seq<seq<Chunk>>, chunks: seq<Chunk>)
    ensures PartsOf(done + [chunks]) == PartsOf(done) + [PartOf(chunks)]
  {
    hide PartOf;
  }

  lemma {:induction false} KeptAllFails(captures: seq<seq<Chunk>>, filter: Filter, i: nat)
    requires i <= |captures| && KeptAll(captures[..i], filter).Err?
    ensures KeptAll(captures, filter).Err?
    decreases |captures| - i
  {
    hide Kept;
    if i == |captures| {
      assert captures[..i] == captures;
    } else {
      assert captures[..i + 1][..i] == captures[..i];
      KeptAllFails(captures, filter, i + 1);
    }
  }

  lemma NothingCompacted(captures: seq<seq<Chunk>>, filter: Filter)
    ensures KeptAll(captures[..0], filter) == Ok([]) && PartsOf([]) == [] && ChunkStatsAll(captures[..0], []) == []
  {
  }

  lemma KeptStep(captures: seq<seq<Chunk>>, filter: Filter, i: nat, done: seq<seq<Chunk>>)
    requires i < |captures| && KeptAll(captures[..i], filter) == Ok(done)
    ensures var kept := Kept(captures[i], filter);
            && (filter.Some? && kept == [] ==> KeptAll(captures[..i + 1], filter).Err?)
            && (!(filter.Some? && kept == []) ==>
                  && KeptAll(captures[..i + 1], filter) == Ok(done + [kept])
                  && ChunkStatsAll(captures[..i + 1], done + [kept])
                     == ChunkStatsAll(captures[..i], done) + [ChunkStatsOf(captures[i], kept)])
  {
    hide Kept, ChunkStatsOf;
    assert captures[..i + 1][..i] == captures[..i];
  }

  /** compact_chunk_pcaps, from the chunk lists the captures hold. */
  method CompactChunks(captures: seq<seq<Chunk>>, filter: Filter) returns (r: Result<Compacted<ChunkStats>>)
    ensures r == CompactedChunks(captures, filter)
  {
    hide PartOf, PartsOf, Kept, KeptAll, ChunkStatsOf, ChunkStatsAll, UVarint, LayoutsFrom, HiddenFrom;
    var count := EncodeUVarint(|captures|);
    var out := count.value;
    var hidden: Octets := [];
    var measurements: seq<ChunkStats> := [];
    ghost var done: seq<seq<Chunk>> := [];
    NothingCompacted(captures, filter);
    PartAppended(out, [], Part([], []));
    for i := 0 to |captures|
      invariant KeptAll(captures[..i], filter) == Ok(done) && |done| == i
      invariant out == UVarint(|captures|) + LayoutsFrom(PartsOf(done), 0)
      invariant hidden == HiddenFrom(PartsOf(done), 0)
      invariant measurements == ChunkStatsAll(captures[..i], done)
    {
      var kept := Keep(captures[i], filter);
      KeptStep(captures, filter, i, done);
      if filter.Some? && kept == [] {
        KeptAllFails(captures, filter, i + 1);
        return Err(ValueError);
      }
      var encoded, data := EncodeChunks(kept);
      PartAppended(UVarint(|captures|), PartsOf(done), PartOf(kept));
      PartsStep(done, kept);
      var length := EncodeUVarint(|encoded|);
      done := done + [kept];
      out := out + (length.value + encoded);
      hidden := hidden + data;
      measurements := measurements + [ChunkStatsOf(captures[i], kept)];
    }
    assert captures[..|captures|] == captures;
    return Ok(Compacted(out, hidden, measurements));
  }

  // ----- What is kept and what is refused

  lemma {:induction false} KeptAppend(a: seq<Chunk>, b: seq<Chunk>, filter: Filter)
    ensures Kept(a + b, filter) == Kept(a, filter) + Kept(b, filter)
  {
    if b == [] {
      assert a + b == a;
      assert Kept(a, filter) + Kept(b, filter) == Kept(a, filter);
    } else {
      var init := b[..|b| - 1];
      KeptAppend(a, init, filter);
      assert (a + b)[..|a + b| - 1] == a + init;
    }
  }

  /** Without a filter all chunks are kept; with one, in their order, those that it admits. */
  lemma KeptExactly(chunks: seq<Chunk>, c: Chunk, filter: Filter)
    ensures Kept([], filter) == []
    ensures filter.None? ==> Kept(chunks, filter) == chunks
    ensures Kept(chunks + [c], filter)
        == Kept(chunks, filter) + if filter.None? || filter.value(c) then [c] else []
  {
    KeptAppend(chunks, [c], filter);
    assert [c][..0] == [];
  }

  /** A filter that keeps nothing of some capture is the only ground for refusal. */
  lemma {:induction false} KeptAllExactly(captures: seq<seq<Chunk>>, filter: Filter)
    ensures var r := KeptAll(captures, filter);
            && (r.Ok? <==> filter.None? || forall k :: 0 <= k < |captures| ==> Kept(captures[k], filter) != [])
            && (r.Ok? ==> forall k :: 0 <= k < |captures| ==> r.value[k] == Kept(captures[k], filter))
  {
    hide Kept;
    if captures != [] {
      KeptAllExactly(captures[..|captures| - 1], filter);
    }
  }

  /** All payload is opaque and none clear; every chunk of the capture is either a unit or discarded. */
  lemma MeasuredExactly(original: seq<Chunk>, filter: Filter)
    ensures var kept := Kept(original, filter);
            var stats := ChunkStatsOf(original, kept);
            && stats.transportBytes == stats.opaqueBytes == |StreamOf(kept, 0)| + |StreamOf(kept, 1)|
            && stats.clearBytes == 0
            && stats.units + stats.discarded == |original| && stats.units == |kept|
  {
    hide StreamOf, TotalBytes;
    TotalIsBothStreams(Kept(original, filter));
  }

  // ----- The opaque totals

  lemma {:induction false} DataLength(chunks: seq<Chunk>, i: nat)
    requires i <= |chunks|
    ensures TotalBytes(chunks[..i]) + |DataFrom(chunks, i)| == TotalBytes(chunks)
    decreases |chunks| - i
  {
    if i == |chunks| {
      assert chunks[..i] == chunks;
    } else {
      assert chunks[..i + 1][..i] == chunks[..i];
      DataLength(chunks, i + 1);
    }
  }

  function OpaqueTotal(stats: seq<ChunkStats>): nat {
    if stats == [] then 0 else OpaqueTotal(stats[..|stats| - 1]) + stats[|stats| - 1].opaqueBytes
  }

  lemma OpaqueTotalStep(stats: seq<ChunkStats>, last: ChunkStats)
    ensures OpaqueTotal([]) == 0 && OpaqueTotal(stats + [last]) == OpaqueTotal(stats) + last.opaqueBytes
  {
    assert (stats + [last])[..|stats|] == stats;
  }

  lemma HiddenIsData(chunks: seq<Chunk>)
    ensures |PartOf(chunks).hidden| == TotalBytes(chunks)
  {
    hide HeadsFrom, DataFrom;
    DataLength(chunks, 0);
    assert TotalBytes(chunks[..0]) == 0;
  }

  lemma {:induction false} OpaqueTotals(captures: seq<seq<Chunk>>, kept: seq<seq<Chunk>>)
    requires |kept| == |captures|
    ensures OpaqueTotal(ChunkStatsAll(captures, kept)) == |HiddenFrom(PartsOf(kept), 0)|
  {
    hide OpaqueTotal, PartsOf, PartOf, HiddenFrom, LayoutsFrom, TotalBytes;
    if captures == [] {
      NothingCompacted(captures, None);
      OpaqueTotalStep([], ChunkStats(0, 0, 0, 0, 0));
      PartAppended([], [], Part([], []));
    } else {
      var n := |captures| - 1;
      var init, last := kept[..n], kept[n];
      OpaqueTotals(captures[..n], init);
      assert kept == init + [last];
      assert ChunkStatsAll(captures, kept)
          == ChunkStatsAll(captures[..n], init) + [ChunkStatsOf(captures[n], last)];
      OpaqueTotalStep(ChunkStatsAll(captures[..n], init), ChunkStatsOf(captures[n], last));
      PartsStep(init, last);
      PartAppended([], PartsOf(init), PartOf(last));
      HiddenIsData(last);
    }
  }

  /** The accounting mismatch that compact_capture checks for never occurs. */
  lemma OpaqueTotalsMatch(captures: seq<seq<Chunk>>, filter: Filter)
    requires CompactedChunks(captures, filter).Ok?
    ensures OpaqueTotal(CompactedChunks(captures, filter).value.measurements)
        == |CompactedChunks(captures, filter).value.hidden|
  {
    hide OpaqueTotal, ChunkStatsAll, PartsOf, HiddenFrom;
    OpaqueTotals(captures, KeptAll(captures, filter).value);
  }

  // ----- Decoding

  type Decoded = Leading<Chunk, Cursors>

  function DecodeChunk(layout: Octets, hidden: Octets): Result<Decoded> {
    var direction :- ReadByte(layout).result;
    if direction != 0 && direction != 1 then Err(DecodeError)
    else
      var n := ReadUVarint(layout[1..], MAX_FIELD_SIZE);
      var length :- n.result;
      var data :- ReadTake(hidden, length).result;
      Ok(Leading([Chunk(direction, data)], Cursors(Skip(layout[1..], n.used), Skip(hidden, length))))
  }

  function DecodeMany(count: nat, layout: Octets, hidden: Octets): Result<Decoded> {
    if count == 0 then Ok(Leading([], Cursors(layout, hidden)))
    else
      var one :- DecodeChunk(layout, hidden);
      Prepend(one.items, DecodeMany(count - 1, one.rest.layout, one.rest.hidden))
  }

  function DecodeCapture(layout: Octets, hidden: Octets): Result<(seq<Chunk>, Octets)> {
    var n := ReadUVarint(layout, MAX_CHUNKS);
    var count :- n.result;
    var t :- DecodeMany(count, Skip(layout, n.used), hidden);
    if t.rest.layout != [] then Err(DecodeError) else Ok((t.items, t.rest.hidden))
  }

  method NextChunk(reader: Reader, opaqueReader: Reader) returns (r: Result<Chunk>)
    requires reader != opaqueReader && reader.Valid() && opaqueReader.Valid()
    modifies reader, opaqueReader
    ensures reader.Valid() && opaqueReader.Valid()
    ensures var spec := DecodeChunk(old(reader.Rest()), old(opaqueReader.Rest()));
            if spec.Err? then r == Err(spec.error)
            else r.Ok? && spec.value == Leading([r.value], Cursors(reader.Rest(), opaqueReader.Rest()))
  {
    hide ReadUVarint;
    var direction :- reader.NextByte();
    if direction != 0 && direction != 1 {
      return Err(DecodeError);
    }
    var length :- reader.NextUVarint(MAX_FIELD_SIZE);
    var data :- opaqueReader.Take(length);
    return Ok(Chunk(direction, data));
  }

  /** The loop over one capture of materialize_chunk_pcaps. */
  method DecodeChunks(layout: Octets, opaqueReader: Reader) returns (r: Result<seq<Chunk>>)
    requires opaqueReader.Valid()
    modifies opaqueReader
    ensures opaqueReader.Valid()
    ensures var spec := DecodeCapture(layout, old(opaqueReader.Rest()));
            if spec.Err? then r == Err(spec.error) else r == Ok(spec.value.0) && opaqueReader.Rest() == spec.value.1
  {
    hide DecodeChunk, ReadUVarint;
    var reader := new Reader(layout);
    var count :- reader.NextUVarint(MAX_CHUNKS);
    var chunks: seq<Chunk> := [];
    ghost var whole := DecodeMany(count, reader.Rest(), opaqueReader.Rest());
    PrependTwice([], [], whole);
    for i := 0 to count
      invariant reader.Valid() && opaqueReader.Valid()
      invariant whole == Prepend(chunks, DecodeMany(count - i, reader.Rest(), opaqueReader.Rest()))
    {
      var chunk :- NextChunk(reader, opaqueReader);
      PrependTwice(chunks, [chunk], DecodeMany(count - i - 1, reader.Rest(), opaqueReader.Rest()));
      chunks := chunks + [chunk];
    }
    assert chunks + [] == chunks;
    var _ :- reader.Finish();
    return Ok(chunks);
  }

  /** materialize_chunk_pcaps, up to the chunk lists handed to the PCAP writer. */
  method MaterializeChunks(layout: Octets, hidden: Octets, names: nat) returns (r: Result<seq<seq<Chunk>>>)
    ensures r == Materialize(DecodeCapture, layout, hidden, names)
  {
    hide ReadUVarint, ReadBlob, DecodeCapture;
    var reader := new Reader(layout);
    var opaqueReader := new Reader(hidden);
    var count :- reader.NextUVarint(MAX_CAPTURES);
    if count != names {
      return Err(DecodeError);
    }
    var captures: seq<seq<Chunk>> := [];
    ghost var whole := MaterializeMany(DecodeCapture, names, reader.Rest(), opaqueReader.Rest());
    PrependTwice([], [], whole);
    for i := 0 to names
      invariant reader.Valid() && opaqueReader.Valid()
      invariant whole == Prepend(captures,
          MaterializeMany(DecodeCapture, names - i, reader.Rest(), opaqueReader.Rest()))
    {
      var blob :- reader.NextBlob(MAX_FIELD_SIZE);
      var chunks :- DecodeChunks(blob, opaqueReader);
      PrependTwice(captures, [chunks],
          MaterializeMany(DecodeCapture, names - i - 1, reader.Rest(), opaqueReader.Rest()));
      captures := captures + [chunks];
    }
    assert captures + [] == captures;
    var _ :- reader.Finish();
    var _ :- opaqueReader.Finish();
    return Ok(captures);
  }

  // ----- Round trip

  predicate ChunksFitFrom(chunks: seq<Chunk>, i: nat) {
    forall k :: i <= k < |chunks| ==> |chunks[k].data| <= 0x8000_0000
  }

  predicate Acceptable(chunks: seq<Chunk>) {
    |chunks| <= 10_000_000 && ChunksFitFrom(chunks, 0)
  }

  lemma ChunkRoundTrip(c: Chunk, restL: Octets, restO: Octets)
    ensures var r := DecodeChunk(ChunkHead(c) + restL, c.data + restO);
            if |c.data| <= MAX_FIELD_SIZE then r == Ok(Leading([c], Cursors(restL, restO))) else r.Err?
  {
    hide ReadUVarint, UVarint;
    var s := ChunkHead(c) + restL;
    assert s[1..] == UVarint(|c.data|) + restL;
    UVarintRoundTrip(|c.data|, restL, MAX_FIELD_SIZE);
    assert (c.data + restO)[..|c.data|] == c.data && Skip(c.data + restO, |c.data|) == restO;
  }

  ghost predicate Yields(chunks: seq<Chunk>, i: nat, restL: Octets, restO: Octets, r: Result<Decoded>)
    requires i <= |chunks|
  {
    && (r.Ok? <==> ChunksFitFrom(chunks, i))
    && (r.Ok? ==> r.value == Leading(chunks[i..], Cursors(restL, restO)))
  }

  lemma YieldsStep(chunks: seq<Chunk>, i: nat, restL: Octets, restO: Octets, more: Result<Decoded>, r: Result<Decoded>)
    requires i < |chunks| && Yields(chunks, i + 1, restL, restO, more)
    requires if |chunks[i].data| <= MAX_FIELD_SIZE then r == Prepend([chunks[i]], more) else r.Err?
    ensures Yields(chunks, i, restL, restO, r)
  {
    assert [chunks[i]] + chunks[i + 1..] == chunks[i..];
    assert ChunksFitFrom(chunks, i) <==> |chunks[i].data| <= MAX_FIELD_SIZE && ChunksFitFrom(chunks, i + 1);
  }

  lemma DecodeStep(n: nat, layout: Octets, hidden: Octets)
    requires n > 0
    ensures DecodeMany(n, layout, hidden)
            == var one := DecodeChunk(layout, hidden);
               if one.Err? then Err(one.error)
               else Prepend(one.value.items, DecodeMany(n - 1, one.value.rest.layout, one.value.rest.hidden))
  {
  }

  lemma {:induction false} ChunksRoundTrip(chunks: seq<Chunk>, i: nat, restL: Octets, restO: Octets)
    requires i <= |chunks|
    ensures Yields(chunks, i, restL, restO,
                   DecodeMany(|chunks| - i, HeadsFrom(chunks, i) + restL, DataFrom(chunks, i) + restO))
    decreases |chunks| - i
  {
    hide ChunkHead, DecodeChunk;
    if i == |chunks| {
      LeftAndRightUnit(restL);
      LeftAndRightUnit(restO);
    } else {
      var moreL, moreO := HeadsFrom(chunks, i + 1) + restL, DataFrom(chunks, i + 1) + restO;
      Regroup(ChunkHead(chunks[i]), HeadsFrom(chunks, i + 1), restL);
      Regroup(chunks[i].data, DataFrom(chunks, i + 1), restO);
      ChunkRoundTrip(chunks[i], moreL, moreO);
      DecodeStep(|chunks| - i, ChunkHead(chunks[i]) + moreL, chunks[i].data + moreO);
      ChunksRoundTrip(chunks, i + 1, restL, restO);
      YieldsStep(chunks, i, restL, restO, DecodeMany(|chunks| - (i + 1), moreL, moreO),
                 DecodeMany(|chunks| - i, ChunkHead(chunks[i]) + moreL, chunks[i].data + moreO));
    }
  }

  lemma CaptureRoundTrip(chunks: seq<Chunk>, rest: Octets)
    ensures var r := DecodeCapture(UVarint(|chunks|) + HeadsFrom(chunks, 0), DataFrom(chunks, 0) + rest);
            if Acceptable(chunks) then r == Ok((chunks, rest)) else r.Err?
  {
    hide ReadUVarint, UVarint, HeadsFrom, DataFrom, DecodeMany;
    UVarintRoundTrip(|chunks|, HeadsFrom(chunks, 0), MAX_CHUNKS);
    ChunksRoundTrip(chunks, 0, [], rest);
    LeftAndRightUnit(HeadsFrom(chunks, 0));
    assert chunks[0..] == chunks;
  }

  lemma CaptureUndone(chunks: seq<Chunk>)
    ensures Undoes(DecodeCapture, PartOf(chunks), Acceptable(chunks), chunks)
  {
    forall rest: Octets
      ensures var r := DecodeCapture(PartOf(chunks).layout, PartOf(chunks).hidden + rest);
              if Acceptable(chunks) then r == Ok((chunks, rest)) else r.Err?
    {
      CaptureRoundTrip(chunks, rest);
    }
  }

  predicate WithinLimits(captures: seq<seq<Chunk>>) {
    && |captures| <= 32
    && forall k :: 0 <= k < |captures| ==> Acceptable(captures[k]) && |PartOf(captures[k]).layout| <= 0x8000_0000
  }

  lemma OneFails(layout: Octets, hidden: Octets)
    ensures DecodeChunk(layout, hidden).Err? ==> DecodeChunk(layout, hidden) == Err(DecodeError)
  {
    hide ReadUVarint;
    if layout != [] {
      ReadsFailExactly(layout[1..], 0, MAX_FIELD_SIZE);
    }
  }

  lemma NothingDecoded(layout: Octets, hidden: Octets)
    ensures DecodeMany(0, layout, hidden).Ok?
  {
  }

  lemma {:induction false} ManyFail(count: nat, layout: Octets, hidden: Octets)
    ensures DecodeMany(count, layout, hidden).Err? ==> DecodeMany(count, layout, hidden) == Err(DecodeError)
    decreases count
  {
    hide DecodeChunk, DecodeMany;
    OneFails(layout, hidden);
    if count > 0 {
      DecodeStep(count, layout, hidden);
      var one := DecodeChunk(layout, hidden);
      if one.Ok? {
        ManyFail(count - 1, one.value.rest.layout, one.value.rest.hidden);
      }
    } else {
      NothingDecoded(layout, hidden);
    }
  }

  lemma CaptureFails(layout: Octets, hidden: Octets)
    ensures DecodeCapture(layout, hidden).Err? ==> DecodeCapture(layout, hidden) == Err(DecodeError)
  {
    hide DecodeMany, ReadUVarint;
    ReadsFailExactly(layout, 0, MAX_CHUNKS);
    var n := ReadUVarint(layout, MAX_CHUNKS);
    if n.result.Ok? {
      ManyFail(n.result.value, Skip(layout, n.used), hidden);
    }
  }

  /** Whatever is wrong with an archive's layout or its opaque bytes, the failure is a decode error. */
  lemma ArchiveFails(layout: Octets, hidden: Octets, names: nat)
    ensures var r := Materialize(DecodeCapture, layout, hidden, names);
            r.Err? ==> r == Err(DecodeError)
  {
    hide DecodeCapture, Materialize;
    forall layout, hidden
      ensures DecodeCapture(layout, hidden).Err? ==> DecodeCapture(layout, hidden) == Err(DecodeError)
    {
      CaptureFails(layout, hidden);
    }
    MaterializeFails(DecodeCapture, layout, hidden, names);
  }

  /**
   * The chunk archive gives every retained chunk of every capture back, with its direction and in order, exactly
   * within the code's limits, and both cursors end at their ends.
   */
  lemma ChunkArchiveRoundTrip(captures: seq<seq<Chunk>>)
    ensures var parts := PartsOf(captures);
            var r := Materialize(DecodeCapture, ArchiveLayout(parts), ArchiveHidden(parts), |captures|);
            && (r.Ok? <==> WithinLimits(captures))
            && (r.Ok? ==> r.value == captures)
  {
    hide PartOf, Materialize, Undoes, ArchiveLayout, ArchiveHidden, Acceptable;
    var parts := PartsOf(captures);
    var accepted := seq(|captures|, i requires 0 <= i < |captures| => Acceptable(captures[i]));
    forall k | 0 <= k < |captures|
      ensures Undoes(DecodeCapture, parts[k], accepted[k], captures[k])
    {
      CaptureUndone(captures[k]);
    }
    ArchiveRoundTrip(DecodeCapture, parts, accepted, captures);
    forall k | 0 <= k < |captures|
      ensures PartFits(parts[k], accepted[k])
          <==> Acceptable(captures[k]) && |PartOf(captures[k]).layout| <= MAX_FIELD_SIZE
    {
    }
  }
}
