/**
 * The MinARX pipeline end to end: compact, materialize, write the synthetic trace, observe it again, compact
 * again (minarx/protocols/common.py with minarx/pcap.py).
 */
module MinarxPipeline {
  import opened Bytes
  import opened Binary
  import opened Chunks
  import opened Envelope
  import opened TcpSegments
  import opened TcpTrace
  import TlsRecords
  import TlsCodec
  import TlsArchive
  import TlsAccounting
  import ChunkCodec
  import Container
  import SyntheticCapture

  // ----- The 32-bit sequence field is never the obstacle within the container's own limit

  lemma {:induction false} PiecesBelow(d: Direction, base: nat, data: Octets)
    ensures forall i :: 0 <= i < |PieceSegments(d, base, data, MINARX_PIECE)| ==>
              PieceSegments(d, base, data, MINARX_PIECE)[i].sequence < base + |data|
    decreases |data|
  {
    if |data| > MINARX_PIECE {
      PiecesBelow(d, base + MINARX_PIECE, data[MINARX_PIECE..]);
    }
  }

  lemma {:induction false} TraceWithinStreams(chunks: seq<Chunk>)
    ensures forall i :: 0 <= i < |Trace(chunks, [1, 1], MINARX_PIECE)| ==>
              Trace(chunks, [1, 1], MINARX_PIECE)[i].sequence < 1 + TotalBytes(chunks)
  {
    hide PieceSegments, StreamOf;
    if chunks != [] {
      var init, last := chunks[..|chunks| - 1], chunks[|chunks| - 1];
      TraceWithinStreams(init);
      TotalIsBothStreams(init);
      PiecesBelow(last.direction, 1 + |StreamOf(init, last.direction)|, last.data);
      assert last.direction == 0 || last.direction == 1;
    }
  }

  /** Every capture the container accepts can be written as a trace. */
  lemma TraceFits(chunks: seq<Chunk>)
    requires TotalBytes(chunks) <= 0x8000_0000
    ensures FitsSequenceField(Trace(chunks, [1, 1], MINARX_PIECE))
  {
    TraceWithinStreams(chunks);
  }

  // ----- TLS captures

  /** One capture written as a trace and observed again. */
  function Reobserve(chunks: seq<Chunk>): Result<seq<Chunk>> {
    Deduplicate(Trace(chunks, [1, 1], MINARX_PIECE))
  }

  lemma {:induction false} RecordChunkBytes(records: seq<TlsRecords.Record>)
    requires TlsRecords.AllWellFormed(records)
    ensures TotalBytes(TlsRecords.RecordChunks(records)) == 5 * |records| + TlsAccounting.FragmentTotal(records)
  {
    if records != [] {
      var init, last := records[..|records| - 1], records[|records| - 1];
      RecordChunkBytes(init);
      var chunks := TlsRecords.RecordChunks(records);
      assert chunks[..|chunks| - 1] == TlsRecords.RecordChunks(init);
    }
  }

  lemma {:induction false} CoalesceKeepsPayload(chunks: seq<Chunk>)
    ensures Coalesce(chunks) == [] <==> TotalBytes(chunks) == 0
  {
    CoalesceFacts(chunks);
    TotalIsBothStreams(chunks);
    TotalIsBothStreams(Coalesce(chunks));
    var c := Coalesce(chunks);
    if c != [] {
      assert c[|c| - 1].data != [];
    }
  }

  /** A materialized TLS capture, written and observed again, splits into the same records in the same order. */
  lemma RecordsSurviveTheTrace(records: seq<TlsRecords.Record>)
    requires TlsRecords.AllWellFormed(records)
    ensures Reobserve(TlsRecords.RecordChunks(records)).Ok? <==> records != []
    ensures records != [] ==> TlsRecords.Split(Reobserve(TlsRecords.RecordChunks(records)).value) == Ok(records)
  {
    var chunks := TlsRecords.RecordChunks(records);
    ReobservedTrace(chunks, [1, 1], MINARX_PIECE);
    RecordChunkBytes(records);
    CoalesceKeepsPayload(chunks);
    TlsRecords.SplitIgnoresCoalescing(chunks);
    TlsRecords.SplitRecordChunks(records);
    if records == [] {
      assert TotalBytes(chunks) == 0;
    }
  }

  /** Captures that the compactor accepts, that hold something, and that the materializer's limits admit. */
  ghost predicate Archivable(originals: seq<seq<Chunk>>, captures: seq<seq<TlsRecords.Record>>) {
    && TlsArchive.SplitAll(originals) == Ok(captures)
    && TlsArchive.WithinLimits(captures)
    && forall k :: 0 <= k < |captures| ==> captures[k] != []
  }

  lemma {:induction false} SplitAllWellFormed(originals: seq<seq<Chunk>>)
    requires TlsArchive.SplitAll(originals).Ok?
    ensures |TlsArchive.SplitAll(originals).value| == |originals|
    ensures TlsArchive.AllRecordsWellFormed(TlsArchive.SplitAll(originals).value)
  {
    hide TlsRecords.Split;
    if originals != [] {
      SplitAllWellFormed(originals[..|originals| - 1]);
      TlsRecords.SplitConserves(originals[|originals| - 1]);
    }
  }

  /** Writing a decoded capture never overflows the 32-bit sequence field when its transport payload is archivable. */
  lemma DecodedTraceFits(chunks: seq<Chunk>)
    requires TlsRecords.Split(chunks).Ok? && TotalBytes(chunks) <= 0x8000_0000
    ensures TlsRecords.AllWellFormed(TlsRecords.Split(chunks).value)
    ensures TotalBytes(TlsRecords.RecordChunks(TlsRecords.Split(chunks).value)) == TotalBytes(chunks)
    ensures FitsSequenceField(Trace(TlsRecords.RecordChunks(TlsRecords.Split(chunks).value), [1, 1], MINARX_PIECE))
  {
    var records := TlsRecords.Split(chunks).value;
    TlsRecords.SplitConserves(chunks);
    RecordChunkBytes(records);
    TlsAccounting.TransportIsRecords(chunks);
    TraceFits(TlsRecords.RecordChunks(records));
  }

  /** What the second observer holds: the materialized captures, each written and observed again. */
  ghost predicate ObservedAgain(materialized: seq<seq<Chunk>>, again: seq<seq<Chunk>>) {
    && |again| == |materialized|
    && forall k :: 0 <= k < |again| ==> Reobserve(materialized[k]) == Ok(again[k])
  }

  lemma {:induction false} SplitAllAgain(captures: seq<seq<TlsRecords.Record>>, again: seq<seq<Chunk>>)
    requires |again| == |captures| && forall k :: 0 <= k < |captures| ==> TlsRecords.Split(again[k]) == Ok(captures[k])
    ensures TlsArchive.SplitAll(again) == Ok(captures)
  {
    hide TlsRecords.Split;
    if captures != [] {
      SplitAllAgain(captures[..|captures| - 1], again[..|again| - 1]);
      assert captures[..|captures| - 1] + [captures[|captures| - 1]] == captures;
    }
  }

  /** Decoding the archive that compacting these captures gives. */
  function Rematerialized(captures: seq<seq<TlsRecords.Record>>): Result<seq<seq<Chunk>>> {
    var parts := TlsArchive.PartsOf(captures);
    Materialize(TlsCodec.DecodeCapture, ArchiveLayout(parts), ArchiveHidden(parts), |captures|)
  }

  lemma ArchivesMaterialize(originals: seq<seq<Chunk>>, captures: seq<seq<TlsRecords.Record>>)
    requires Archivable(originals, captures)
    ensures TlsArchive.AllRecordsWellFormed(captures)
    ensures Rematerialized(captures) == Ok(TlsArchive.AllRecordChunks(captures))
    ensures forall k :: 0 <= k < |captures| ==>
              && Reobserve(TlsArchive.AllRecordChunks(captures)[k]).Ok?
              && TlsRecords.Split(Reobserve(TlsArchive.AllRecordChunks(captures)[k]).value) == Ok(captures[k])
  {
    hide Reobserve, Materialize, TlsRecords.Split, TlsArchive.WithinLimits, ArchiveLayout, ArchiveHidden;
    SplitAllWellFormed(originals);
    TlsArchive.TwoCursorRoundTrip(captures);
    forall k | 0 <= k < |captures|
      ensures Reobserve(TlsArchive.AllRecordChunks(captures)[k]).Ok?
      ensures TlsRecords.Split(Reobserve(TlsArchive.AllRecordChunks(captures)[k]).value) == Ok(captures[k])
    {
      RecordsSurviveTheTrace(captures[k]);
    }
  }

  /**
   * MinARX is idempotent on TLS: every archive of non-empty captures within the limits materializes, every
   * materialized capture can be observed again, and compacting those observations gives the byte-identical
   * layout and opaque regions.
   */
  lemma TlsIdempotence(originals: seq<seq<Chunk>>, captures: seq<seq<TlsRecords.Record>>,
                       materialized: seq<seq<Chunk>>, again: seq<seq<Chunk>>)
    requires Archivable(originals, captures)
    requires Rematerialized(captures) == Ok(materialized)
    requires ObservedAgain(materialized, again)
    ensures TlsArchive.SplitAll(again) == Ok(captures)
    ensures var parts := TlsArchive.PartsOf(TlsArchive.SplitAll(again).value);
            && ArchiveLayout(parts) == ArchiveLayout(TlsArchive.PartsOf(captures))
            && ArchiveHidden(parts) == ArchiveHidden(TlsArchive.PartsOf(captures))
  {
    hide Reobserve, Rematerialized, TlsRecords.Split, Archivable;
    ArchivesMaterialize(originals, captures);
    forall k | 0 <= k < |captures|
      ensures TlsRecords.Split(again[k]) == Ok(captures[k])
    {
      assert Reobserve(materialized[k]) == Ok(again[k]);
    }
    SplitAllAgain(captures, again);
  }

  // ----- Chunk captures over TCP

  /** For captures already coalesced by direction, as every extraction is, the exact chunk lists come back. */
  lemma ChunkIdempotence(captures: seq<seq<Chunk>>, k: nat)
    requires ChunkCodec.WithinLimits(captures) && k < |captures|
    ensures var parts := ChunkCodec.PartsOf(captures);
            var materialized := Materialize(ChunkCodec.DecodeCapture, ArchiveLayout(parts), ArchiveHidden(parts),
                |captures|);
            && materialized == Ok(captures)
            && (Reobserve(captures[k]) == Ok(captures[k]) <==> Coalesced(captures[k]) && captures[k] != [])
  {
    ChunkCodec.ChunkArchiveRoundTrip(captures);
    ReobservedTrace(captures[k], [1, 1], MINARX_PIECE);
    CoalesceFixed(captures[k]);
    CoalesceFacts(captures[k]);
  }

  /** What extract_tcp_chunks returns is always such a capture. */
  lemma ExtractionIsCoalesced(segs: seq<Segment>)
    requires Deduplicate(segs).Ok?
    ensures Coalesced(Deduplicate(segs).value) && Deduplicate(segs).value != []
  {
    GapErrorExactly(segs);
  }

  // ----- Through the frames

  lemma OneSidedStep(s: Dedup, seg: Segment)
    requires |s.next| == 2 && seg.direction == 1 && DedupStep(s, seg).Ok?
    ensures StreamOf(DedupStep(s, seg).value.chunks, 0) == StreamOf(s.chunks, 0)
  {
    hide StreamOf, AppendPayload;
    var expected := if s.next[1].Some? then s.next[1].value else seg.sequence;
    if expected - seg.sequence < |seg.data| {
      AppendedStream(s.chunks, 1, Skip(seg.data, expected - seg.sequence), 0);
      LeftAndRightUnit(StreamOf(s.chunks, 0));
    }
  }

  lemma {:induction false} OneSidedRun(segs: seq<Segment>)
    requires forall i :: 0 <= i < |segs| ==> segs[i].direction == 1
    requires DedupRun(START, segs).Ok?
    ensures StreamOf(DedupRun(START, segs).value.chunks, 0) == []
  {
    if segs != [] {
      var init, last := segs[..|segs| - 1], segs[|segs| - 1];
      OneSidedRun(init);
      var s := DedupRun(START, init).value;
      OneSidedStep(s, last);
    }
  }

  lemma {:induction false} SegmentBytesFound(segs: seq<Segment>, i: nat)
    requires i < |segs| && segs[i].data != []
    ensures SegmentBytes(segs, segs[i].direction) != []
  {
    if i < |segs| - 1 {
      SegmentBytesFound(segs[..|segs| - 1], i);
    }
  }

  lemma EmptyStream()
    ensures StreamOf([], 0) == []
  {
  }

  /** Labels that are all the server's never give back a client chunk. */
  lemma ClientBytesLost(chunks: seq<Chunk>, labelled: seq<Segment>)
    requires StreamOf(chunks, 0) != [] && forall i :: 0 <= i < |labelled| ==> labelled[i].direction == 1
    ensures Deduplicate(labelled) != Reobserve(chunks)
  {
    hide DedupRun, StreamOf, Coalesce;
    ReobservedTrace(chunks, [1, 1], MINARX_PIECE);
    CoalesceFacts(chunks);
    EmptyStream();
    if DedupRun(START, labelled).Ok? {
      OneSidedRun(labelled);
    }
  }

  /**
   * From the frames themselves: the written capture exists exactly when its trace fits the sequence field, and
   * extracting from its frames is then re-observing the chunks exactly when the server port does not collide.
   */
  lemma FramesReobserved(chunks: seq<Chunk>, port: nat)
    requires 0 < port < 65536
    ensures forall i :: 0 <= i < |Trace(chunks, [1, 1], MINARX_PIECE)| ==>
              Trace(chunks, [1, 1], MINARX_PIECE)[i].sequence >= 0
    ensures var trace := Trace(chunks, [1, 1], MINARX_PIECE);
            var frames := SyntheticCapture.MinarxFrames(trace, port);
            && (frames.Ok? <==> FitsSequenceField(trace))
            && (frames.Ok? ==>
                  && SyntheticCapture.AllFrames(frames.value)
                  && (Extracted(SyntheticCapture.ObservedAll(frames.value), port) == Reobserve(chunks)
                      <==> !SyntheticCapture.PortsCollide(trace, port)))
  {
    hide Deduplicate, Trace, StreamOf, SyntheticCapture.MinarxFrames, SyntheticCapture.AllFrames,
      SyntheticCapture.ObservedAll, SyntheticCapture.MinarxRows, Labelled, StreamsSeen;
    var trace := Trace(chunks, [1, 1], MINARX_PIECE);
    SyntheticCapture.TraceIsPieces(chunks);
    SyntheticCapture.MinarxFramesObserved(trace, port);
    TraceCarriesStreams(chunks, [1, 1], MINARX_PIECE);
    SyntheticCapture.MinarxLabelsSurviveExactly(trace, port);
    if SyntheticCapture.PortsCollide(trace, port) {
      var i :| 0 <= i < |trace| && trace[i].direction == 0;
      SegmentBytesFound(trace, i);
      SyntheticCapture.LabelsOfRows(trace, port);
      ClientBytesLost(chunks, Labelled(SyntheticCapture.MinarxRows(trace, port), port));
    }
  }

  // ----- Sizes

  /** Captures that differ only in protected bytes give archives of the same size, under every compression choice. */
  lemma ArchiveSizeIgnoresProtectedBytes(c: Container.Codecs, a: seq<seq<TlsRecords.Record>>,
      b: seq<seq<TlsRecords.Record>>,
                                         profileId: nat, port: nat, raw: nat, transport: nat,
                                         request: Container.Request)
    requires Container.Sound(c)
    requires |a| == |b| && forall k :: 0 <= k < |a| ==> TlsAccounting.SameShape(a[k], b[k])
    ensures var pa, pb := TlsArchive.PartsOf(a), TlsArchive.PartsOf(b);
            var wa := Container.Write(c, Container.Content(profileId, port, raw, transport, ArchiveLayout(pa),
                ArchiveHidden(pa)), request);
            var wb := Container.Write(c, Container.Content(profileId, port, raw, transport, ArchiveLayout(pb),
                ArchiveHidden(pb)), request);
            (wa.Ok? <==> wb.Ok?) && (wa.Ok? ==> |wa.value| == |wb.value|)
  {
    hide Container.Write, TlsAccounting.SameShape, ArchiveLayout, ArchiveHidden;
    TlsAccounting.OpaqueContentCannotInfluenceSize(a, b);
    var pa, pb := TlsArchive.PartsOf(a), TlsArchive.PartsOf(b);
    Container.SizeIgnoresOpaqueContent(
      c, Container.Content(profileId, port, raw, transport, ArchiveLayout(pa), ArchiveHidden(pa)),
      Container.Content(profileId, port, raw, transport, ArchiveLayout(pb), ArchiveHidden(pb)), request);
  }
}
