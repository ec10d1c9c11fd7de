/**
 * The synthetic trace write_pcap lays down for TCP (minarx/pcap.py): each chunk in pieces, each piece with the
 * next sequence number of its direction. A dissector is taken to report exactly the segments written.
 */
module TcpTrace {
  import opened Bytes
  import opened Chunks
  import opened TcpSegments

  const MINARX_PIECE: nat := 1400

  /** The sequence field is 32 bits wide. */
  const SEQUENCE_LIMIT: nat := 0x1_0000_0000

  function PieceSegments(d: Direction, base: nat, data: Octets, limit: nat): seq<Segment>
    requires limit > 0
    decreases |data|
  {
    if |data| <= limit then
      if data == [] then [] else [Segment(d, base, data)]
    else [Segment(d, base, data[..limit])] + PieceSegments(d, base + limit, data[limit..], limit)
  }

  /** The whole trace: a chunk's pieces start where its direction's stream stands. */
  function Trace(chunks: seq<Chunk>, start: seq<nat>, limit: nat): seq<Segment>
    requires limit > 0 && |start| == 2
  {
    if chunks == [] then []
    else
      var init, last := chunks[..|chunks| - 1], chunks[|chunks| - 1];
      Trace(init, start, limit)
      + PieceSegments(last.direction, start[last.direction] + |StreamOf(init, last.direction)|, last.data, limit)
  }

  predicate FitsSequenceField(segs: seq<Segment>) {
    forall i :: 0 <= i < |segs| ==> segs[i].sequence < 0x1_0000_0000
  }

  lemma NothingTraced(start: seq<nat>, limit: nat)
    requires |start| == 2 && limit > 0
    ensures Trace([], start, limit) == []
    ensures forall d: Direction :: StreamOf([], d) == []
  {
  }

  lemma TraceStep(chunks: seq<Chunk>, i: nat)
    requires i < |chunks|
    ensures var d := chunks[i].direction;
            Trace(chunks[..i + 1], [1, 1], MINARX_PIECE)
            == Trace(chunks[..i], [1, 1], MINARX_PIECE)
               + PieceSegments(d, 1 + |StreamOf(chunks[..i], d)|, chunks[i].data, MINARX_PIECE)
    ensures forall d: Direction :: |StreamOf(chunks[..i + 1], d)|
              == |StreamOf(chunks[..i], d)| + if d == chunks[i].direction then |chunks[i].data| else 0
  {
    assert chunks[..i + 1][..i] == chunks[..i];
  }

  lemma NoPieces(d: Direction, base: nat, data: Octets)
    ensures data == [] ==> PieceSegments(d, base, data, MINARX_PIECE) == []
    ensures data[0..] == data
  {
  }

  lemma NextPiece(d: Direction, base: nat, data: Octets, offset: nat, limit: nat)
    requires offset < |data| && limit > 0
    ensures var end := if offset + limit <= |data| then offset + limit else |data|;
            PieceSegments(d, base + offset, data[offset..], limit)
            == [Segment(d, base + offset, data[offset..end])] + PieceSegments(d, base + end, data[end..], limit)
  {
    var rest := data[offset..];
    if |rest| > limit {
      assert rest[..limit] == data[offset..offset + limit];
      assert rest[limit..] == data[offset + limit..];
    } else {
      assert rest == data[offset..|data|] && data[|data|..] == [];
      if |rest| == limit {
        assert data[offset + limit..] == [];
      }
    }
  }

  lemma Overflow(before: seq<Segment>, written: seq<Segment>, d: Direction, base: nat, data: Octets, offset: nat)
    requires offset < |data| && base + offset >= SEQUENCE_LIMIT
    requires before + PieceSegments(d, base, data, MINARX_PIECE)
             == written + PieceSegments(d, base + offset, data[offset..], MINARX_PIECE)
    ensures !FitsSequenceField(before + PieceSegments(d, base, data, MINARX_PIECE))
  {
    hide PieceSegments;
    NextPiece(d, base, data, offset, MINARX_PIECE);
    var all := before + PieceSegments(d, base, data, MINARX_PIECE);
    assert all[|written|].sequence == base + offset;
  }

  lemma {:induction false} TracePrefix(chunks: seq<Chunk>, i: nat)
    requires i <= |chunks| && !FitsSequenceField(Trace(chunks[..i], [1, 1], MINARX_PIECE))
    ensures !FitsSequenceField(Trace(chunks, [1, 1], MINARX_PIECE))
    decreases |chunks| - i
  {
    hide PieceSegments, StreamOf;
    if i == |chunks| {
      assert chunks[..i] == chunks;
    } else {
      TraceStep(chunks, i);
      var shorter, longer := Trace(chunks[..i], [1, 1], MINARX_PIECE), Trace(chunks[..i + 1], [1, 1], MINARX_PIECE);
      var j :| 0 <= j < |shorter| && shorter[j].sequence >= SEQUENCE_LIMIT;
      assert longer[j] == shorter[j];
      TracePrefix(chunks, i + 1);
    }
  }

  /** write_pcap for "tcp"; packing the header refuses a sequence number that needs more than 32 bits. */
  method WritePcap(chunks: seq<Chunk>) returns (r: Result<seq<Segment>>)
    ensures r == if FitsSequenceField(Trace(chunks, [1, 1], 1400)) then Ok(Trace(chunks, [1, 1], 1400))
                 else Err(StructError)
  {
    hide StreamOf, PieceSegments, Trace;
    var tcpSequences: seq<nat> := [1, 1];
    var written: seq<Segment> := [];
    NothingTraced([1, 1], MINARX_PIECE);
    for i := 0 to |chunks|
      invariant |tcpSequences| == 2
      invariant forall d: Direction :: tcpSequences[d] == 1 + |StreamOf(chunks[..i], d)|
      invariant written == Trace(chunks[..i], [1, 1], MINARX_PIECE) && FitsSequenceField(written)
    {
      var d, data := chunks[i].direction, chunks[i].data;
      ghost var before, base := written, tcpSequences[d];
      TraceStep(chunks, i);
      NoPieces(d, base, data);
      var offset := 0;
      while offset < |data|
        invariant 0 <= offset <= |data|
        invariant |tcpSequences| == 2 && tcpSequences[d] == base + offset
        invariant forall e: Direction :: e != d ==> tcpSequences[e] == 1 + |StreamOf(chunks[..i], e)|
        invariant FitsSequenceField(written)
        invariant before + PieceSegments(d, base, data, MINARX_PIECE)
                  == written + PieceSegments(d, base + offset, data[offset..], MINARX_PIECE)
      {
        var end := if offset + MINARX_PIECE <= |data| then offset + MINARX_PIECE else |data|;
        var piece := data[offset..end];
        NextPiece(d, base, data, offset, MINARX_PIECE);
        if tcpSequences[d] >= SEQUENCE_LIMIT {
          Overflow(before, written, d, base, data, offset);
          TracePrefix(chunks, i + 1);
          return Err(StructError);
        }
        written := written + [Segment(d, tcpSequences[d], piece)];
        tcpSequences := tcpSequences[d := tcpSequences[d] + |piece|];
        offset := end;
      }
      NoPieces(d, base + offset, data[offset..]);
      assert written + [] == written;
    }
    assert chunks[..|chunks|] == chunks;
    return Ok(written);
  }

  // ----- The pieces of one chunk

  lemma OneLess(k: nat, limit: nat)
    requires k > 0
    ensures (k - 1) * limit == k * limit - limit && k * limit >= limit
  {
  }

  lemma ShortPieces(d: Direction, base: nat, data: Octets, limit: nat)
    requires limit > 0 && |data| <= limit
    ensures PieceSegments(d, base, data, limit) == if data == [] then [] else [Segment(d, base, data)]
  {
  }

  lemma PiecesStep(d: Direction, base: nat, data: Octets, limit: nat)
    requires 0 < limit < |data|
    ensures PieceSegments(d, base, data, limit)
            == [Segment(d, base, data[..limit])] + PieceSegments(d, base + limit, data[limit..], limit)
  {
  }

  lemma LaterSlice(data: Octets, limit: nat, from: nat, end: nat)
    requires limit <= from <= end <= |data|
    ensures data[limit..][from - limit..end - limit] == data[from..end]
  {
  }

  /** Piece k is the bytes from k times the limit on, as many as the limit allows, numbered by where it starts. */
  lemma {:induction false} PiecesExactly(d: Direction, base: nat, data: Octets, limit: nat, k: nat, start: nat)
    requires limit > 0 && start == k * limit
    ensures var pieces := PieceSegments(d, base, data, limit);
            var end := if start + limit <= |data| then start + limit else |data|;
            && (k < |pieces| <==> start < |data|)
            && (start < |data| ==> pieces[k] == Segment(d, base + start, data[start..end]))
    decreases k
  {
    hide PieceSegments;
    if k > 0 {
      OneLess(k, limit);
    }
    if |data| <= limit {
      ShortPieces(d, base, data, limit);
      assert data[0..|data|] == data;
    } else {
      PiecesStep(d, base, data, limit);
      if k > 0 {
        PiecesExactly(d, base + limit, data[limit..], limit, k - 1, start - limit);
        if start < |data| {
          LaterSlice(data, limit, start, if start + limit <= |data| then start + limit else |data|);
        }
      }
    }
  }

  // ----- What the trace carries

  /** Payload of one direction over a list of segments. */
  function SegmentBytes(segs: seq<Segment>, d: Direction): Octets {
    if segs == [] then []
    else
      SegmentBytes(segs[..|segs| - 1], d)
      + if segs[|segs| - 1].direction == d then segs[|segs| - 1].data else []
  }

  /** Sequence numbers count the bytes sent so far in the segment's own direction, and pieces respect the limit. */
  ghost predicate Sequenced(segs: seq<Segment>, start: seq<nat>, limit: nat)
    requires |start| == 2
  {
    forall i :: 0 <= i < |segs| ==>
      && segs[i].sequence == start[segs[i].direction] + |SegmentBytes(segs[..i], segs[i].direction)|
      && 0 < |segs[i].data| <= limit
  }

  lemma SequencedSnoc(segs: seq<Segment>, seg: Segment, start: seq<nat>, limit: nat)
    requires |start| == 2 && Sequenced(segs, start, limit)
    requires seg.sequence == start[seg.direction] + |SegmentBytes(segs, seg.direction)| && 0 < |seg.data| <= limit
    ensures Sequenced(segs + [seg], start, limit)
    ensures forall d: Direction :: SegmentBytes(segs + [seg], d)
              == SegmentBytes(segs, d) + if d == seg.direction then seg.data else []
  {
    var all := segs + [seg];
    assert all[..|segs|] == segs;
    forall i | 0 <= i < |segs|
      ensures all[..i] == segs[..i] && all[i] == segs[i]
    {
    }
  }

  lemma {:induction false} PiecesSequenced(segs: seq<Segment>, d: Direction, data: Octets, start: seq<nat>, limit: nat)
    requires |start| == 2 && limit > 0 && Sequenced(segs, start, limit)
    ensures var all := segs + PieceSegments(d, start[d] + |SegmentBytes(segs, d)|, data, limit);
            && Sequenced(all, start, limit)
            && forall e: Direction :: SegmentBytes(all, e) == SegmentBytes(segs, e) + if e == d then data else []
    decreases |data|
  {
    hide Sequenced, SegmentBytes;
    var base := start[d] + |SegmentBytes(segs, d)|;
    if data == [] {
      assert segs + [] == segs;
      assert forall e: Direction :: SegmentBytes(segs, e) + [] == SegmentBytes(segs, e);
    } else if |data| <= limit {
      SequencedSnoc(segs, Segment(d, base, data), start, limit);
    } else {
      var first := Segment(d, base, data[..limit]);
      SequencedSnoc(segs, first, start, limit);
      PiecesSequenced(segs + [first], d, data[limit..], start, limit);
      assert segs + ([first] + PieceSegments(d, base + limit, data[limit..], limit))
             == (segs + [first]) + PieceSegments(d, base + limit, data[limit..], limit);
      assert data[..limit] + data[limit..] == data;
      assert forall e: Direction :: (SegmentBytes(segs, e) + if e == d then data[..limit] else [])
                                    + (if e == d then data[limit..] else [])
                                    == SegmentBytes(segs, e) + if e == d then data else [];
    }
  }

  lemma NothingCarried(start: seq<nat>, limit: nat)
    requires |start| == 2 && limit > 0
    ensures Trace([], start, limit) == [] && Sequenced([], start, limit)
    ensures forall d: Direction :: SegmentBytes([], d) == [] && StreamOf([], d) == []
  {
    NothingTraced(start, limit);
  }

  lemma TraceSnoc(chunks: seq<Chunk>, start: seq<nat>, limit: nat)
    requires |start| == 2 && limit > 0 && chunks != []
    ensures var init, last := chunks[..|chunks| - 1], chunks[|chunks| - 1];
            Trace(chunks, start, limit)
            == Trace(init, start, limit)
               + PieceSegments(last.direction, start[last.direction] + |StreamOf(init, last.direction)|, last.data,
                   limit)
  {
    hide PieceSegments, StreamOf;
  }

  /** The trace carries each direction's stream, in pieces within the limit, numbered by the bytes sent before. */
  lemma {:induction false} TraceCarriesStreams(chunks: seq<Chunk>, start: seq<nat>, limit: nat)
    requires |start| == 2 && limit > 0
    ensures Sequenced(Trace(chunks, start, limit), start, limit)
    ensures forall d: Direction :: SegmentBytes(Trace(chunks, start, limit), d) == StreamOf(chunks, d)
  {
    hide Sequenced, SegmentBytes, PieceSegments, StreamOf, Trace;
    if chunks == [] {
      NothingCarried(start, limit);
    } else {
      var init, last := chunks[..|chunks| - 1], chunks[|chunks| - 1];
      TraceCarriesStreams(init, start, limit);
      TraceSnoc(chunks, start, limit);
      PiecesSequenced(Trace(init, start, limit), last.direction, last.data, start, limit);
      StreamSnoc(chunks);
    }
  }

  // ----- Observing the trace again

  lemma {:induction false} RunAppend(s: Dedup, a: seq<Segment>, b: seq<Segment>)
    requires |s.next| == 2
    ensures DedupRun(s, a + b) == var t := DedupRun(s, a); if t.Err? then t else DedupRun(t.value, b)
  {
    hide DedupStep;
    if b == [] {
      assert a + b == a;
    } else {
      RunAppend(s, a, b[..|b| - 1]);
      assert (a + b)[..|a + b| - 1] == a + b[..|b| - 1];
    }
  }

  lemma AppendNothing(chunks: seq<Chunk>, d: Direction)
    ensures AppendPayload(chunks, d, []) == chunks
  {
  }

  lemma AppendToSame(init: seq<Chunk>, d: Direction, held: Octets, data: Octets)
    requires data != []
    ensures AppendPayload(init + [Chunk(d, held)], d, data) == init + [Chunk(d, held + data)]
  {
    var chunks := init + [Chunk(d, held)];
    assert chunks[..|chunks| - 1] == init;
  }

  lemma AppendNew(chunks: seq<Chunk>, d: Direction, data: Octets)
    requires data != [] && (chunks == [] || chunks[|chunks| - 1].direction != d)
    ensures AppendPayload(chunks, d, data) == chunks + [Chunk(d, data)]
  {
  }

  lemma AppendPayloadTwice(chunks: seq<Chunk>, d: Direction, a: Octets, b: Octets)
    ensures AppendPayload(AppendPayload(chunks, d, a), d, b) == AppendPayload(chunks, d, a + b)
  {
    hide AppendPayload;
    AppendNothing(chunks, d);
    AppendNothing(AppendPayload(chunks, d, a), d);
    if a == [] || b == [] {
      LeftAndRightUnit(a);
      LeftAndRightUnit(b);
    } else if chunks != [] && chunks[|chunks| - 1].direction == d {
      var init, last := chunks[..|chunks| - 1], chunks[|chunks| - 1];
      assert chunks == init + [last];
      AppendToSame(init, d, last.data, a);
      AppendToSame(init, d, last.data + a, b);
      AppendToSame(init, d, last.data, a + b);
      Regroup(last.data, a, b);
    } else {
      AppendNew(chunks, d, a);
      AppendNew(chunks, d, a + b);
      AppendToSame(chunks, d, a, b);
    }
  }

  lemma RunNothing(s: Dedup)
    requires |s.next| == 2
    ensures DedupRun(s, []) == Ok(s)
  {
  }

  lemma RunOne(s: Dedup, seg: Segment)
    requires |s.next| == 2
    ensures DedupRun(s, [seg]) == DedupStep(s, seg)
  {
    hide DedupStep;
    assert [seg][..0] == [];
    RunNothing(s);
  }

  lemma NovelStep(s: Dedup, seg: Segment)
    requires |s.next| == 2 && seg.data != []
    requires s.next[seg.direction] == None || s.next[seg.direction] == Some(seg.sequence)
    ensures DedupStep(s, seg) == Ok(Dedup(s.next[seg.direction := Some(seg.sequence + |seg.data|)],
                                          AppendPayload(s.chunks, seg.direction, seg.data)))
  {
    hide AppendPayload;
  }

  /** A segment that starts exactly where its direction stands is wholly novel. */
  lemma NovelSegment(s: Dedup, d: Direction, base: nat, data: Octets)
    requires |s.next| == 2 && data != []
    requires s.next[d] == None || s.next[d] == Some(base)
    ensures DedupRun(s, [Segment(d, base, data)])
            == Ok(Dedup(s.next[d := Some(base + |data|)], AppendPayload(s.chunks, d, data)))
  {
    hide AppendPayload, DedupRun, DedupStep;
    NovelStep(s, Segment(d, base, data));
    RunOne(s, Segment(d, base, data));
  }

  lemma {:induction false} PiecesObserved(s: Dedup, d: Direction, base: nat, data: Octets, limit: nat)
    requires |s.next| == 2 && limit > 0
    requires s.next[d] == None || s.next[d] == Some(base)
    ensures DedupRun(s, PieceSegments(d, base, data, limit))
            == Ok(Dedup(if data == [] then s.next else s.next[d := Some(base + |data|)],
                AppendPayload(s.chunks, d, data)))
    decreases |data|
  {
    hide DedupStep, DedupRun;
    if data == [] {
      RunNothing(s);
    } else if |data| <= limit {
      NovelSegment(s, d, base, data);
    } else {
      var first, rest := data[..limit], data[limit..];
      NovelSegment(s, d, base, first);
      var t := Dedup(s.next[d := Some(base + limit)], AppendPayload(s.chunks, d, first));
      RunAppend(s, [Segment(d, base, first)], PieceSegments(d, base + limit, rest, limit));
      PiecesObserved(t, d, base + limit, rest, limit);
      AppendPayloadTwice(s.chunks, d, first, rest);
      assert first + rest == data;
      assert t.next[d := Some(base + |data|)] == s.next[d := Some(base + |data|)];
    }
  }

  /** Where a direction stands after a trace: nowhere before its first byte, else past its last. */
  function Standing(chunks: seq<Chunk>, start: seq<nat>, d: Direction): Option<int>
    requires |start| == 2
  {
    if StreamOf(chunks, d) == [] then None else Some(start[d] + |StreamOf(chunks, d)|)
  }

  lemma NothingStands(start: seq<nat>)
    requires |start| == 2
    ensures Standing([], start, 0) == None && Standing([], start, 1) == None
  {
  }

  lemma StandingStep(chunks: seq<Chunk>, start: seq<nat>)
    requires |start| == 2 && chunks != []
    ensures var init, last := chunks[..|chunks| - 1], chunks[|chunks| - 1];
            var d, next := last.direction, [Standing(init, start, 0), Standing(init, start, 1)];
            var base := start[d] + |StreamOf(init, d)|;
            && (next[d] == None || next[d] == Some(base))
            && (if last.data == [] then next else next[d := Some(base + |last.data|)])
               == [Standing(chunks, start, 0), Standing(chunks, start, 1)]
  {
    StreamSnoc(chunks);
    hide StreamOf;
    var init, last := chunks[..|chunks| - 1], chunks[|chunks| - 1];
    if last.direction == 0 {
      assert StreamOf(chunks, 1) == StreamOf(init, 1) && StreamOf(chunks, 0) == StreamOf(init, 0) + last.data;
    } else {
      assert StreamOf(chunks, 0) == StreamOf(init, 0) && StreamOf(chunks, 1) == StreamOf(init, 1) + last.data;
    }
  }

  lemma {:induction false} TraceObserved(chunks: seq<Chunk>, start: seq<nat>, limit: nat)
    requires |start| == 2 && limit > 0
    ensures DedupRun(START, Trace(chunks, start, limit))
            == Ok(Dedup([Standing(chunks, start, 0), Standing(chunks, start, 1)], Coalesce(chunks)))
  {
    hide AppendPayload, PieceSegments, DedupStep, Standing, DedupRun, Trace, StreamOf;
    if chunks == [] {
      NothingStands(start);
      NothingCarried(start, limit);
      RunNothing(START);
    } else {
      var init, last := chunks[..|chunks| - 1], chunks[|chunks| - 1];
      var d := last.direction;
      TraceObserved(init, start, limit);
      var next := [Standing(init, start, 0), Standing(init, start, 1)];
      var base := start[d] + |StreamOf(init, d)|;
      StandingStep(chunks, start);
      TraceSnoc(chunks, start, limit);
      PiecesObserved(Dedup(next, Coalesce(init)), d, base, last.data, limit);
      RunAppend(START, Trace(init, start, limit), PieceSegments(d, base, last.data, limit));
    }
  }

  /**
   * Re-observing a written trace gives the coalesced chunks back, and nothing only when there was no payload:
   * for a list that is already coalesced, exactly the list that was written.
   */
  lemma ReobservedTrace(chunks: seq<Chunk>, start: seq<nat>, limit: nat)
    requires |start| == 2 && limit > 0
    ensures Deduplicate(Trace(chunks, start, limit)) == if Coalesce(chunks) == [] then Err(PcapError)
        else Ok(Coalesce(chunks))
    ensures Coalesced(chunks) && chunks != [] ==> Deduplicate(Trace(chunks, start, limit)) == Ok(chunks)
  {
    TraceObserved(chunks, start, limit);
    CoalesceFixed(chunks);
  }
}
