/**
 * TCP payload on the wire (minarx/pcap.py): de-duplicating observed segments into chunks, and writing chunks
 * as a synthetic trace of segments.
 */
module TcpSegments {
  import opened Bytes
  import opened Chunks

  /** One row of the dissector's field output. */
  datatype Row = Row(stream: nat, source: nat, destination: nat, sequence: int, payload: Octets)

  /** A row once its direction is known. */
  datatype Segment = Segment(direction: Direction, sequence: int, data: Octets)

  /** Server-to-client when the source is the server port; the source port is looked at first. */
  function DirectionOf(row: Row, port: nat): Option<Direction> {
    if row.source == port then Some(1) else if row.destination == port then Some(0) else None
  }

  predicate Retained(row: Row, port: nat) {
    row.payload != [] && DirectionOf(row, port).Some?
  }

  function Labelled(rows: seq<Row>, port: nat): (segs: seq<Segment>)
    ensures forall i :: 0 <= i < |segs| ==> segs[i].data != []
  {
    if rows == [] then []
    else
      var last := rows[|rows| - 1];
      Labelled(rows[..|rows| - 1], port)
      + if Retained(last, port) then [Segment(DirectionOf(last, port).value, last.sequence, last.payload)] else []
  }

  function StreamsSeen(rows: seq<Row>, port: nat): set<nat> {
    if rows == [] then {}
    else
      StreamsSeen(rows[..|rows| - 1], port)
      + if Retained(rows[|rows| - 1], port) then {rows[|rows| - 1].stream} else {}
  }

  // ----- De-duplication

  /** The next expected sequence number of each direction, and the chunks so far. */
  datatype Dedup = Dedup(next: seq<Option<int>>, chunks: seq<Chunk>)

  const START: Dedup := Dedup([None, None], [])

  function DedupStep(s: Dedup, seg: Segment): (r: Result<Dedup>)
    requires |s.next| == 2
    ensures r.Ok? ==> |r.value.next| == 2
    ensures r.Err? ==> r.error == PcapError
  {
    var expected := if s.next[seg.direction].Some? then s.next[seg.direction].value else seg.sequence;
    if seg.sequence > expected then Err(PcapError)
    else
      var overlap := expected - seg.sequence;
      if overlap >= |seg.data| then Ok(s)
      else
        var novel := Skip(seg.data, overlap);
        Ok(Dedup(s.next[seg.direction := Some(expected + |novel|)], AppendPayload(s.chunks, seg.direction, novel)))
  }

  function DedupRun(s: Dedup, segs: seq<Segment>): (r: Result<Dedup>)
    requires |s.next| == 2
    ensures r.Ok? ==> |r.value.next| == 2
    ensures r.Err? ==> r.error == PcapError
  {
    if segs == [] then Ok(s)
    else
      var t :- DedupRun(s, segs[..|segs| - 1]);
      DedupStep(t, segs[|segs| - 1])
  }

  function Deduplicate(segs: seq<Segment>): Result<seq<Chunk>> {
    var s :- DedupRun(START, segs);
    if s.chunks == [] then Err(PcapError) else Ok(s.chunks)
  }

  /** What extract_tcp_chunks returns: the de-duplicated payload of the one flow there may be. */
  function Extracted(rows: seq<Row>, port: nat): Result<seq<Chunk>> {
    if |StreamsSeen(rows, port)| > 1 then Err(PcapError) else Deduplicate(Labelled(rows, port))
  }

  /** The dictionary of next sequence numbers says what the per-direction state says, for the one flow seen. */
  ghost predicate Mirrors(nextSeq: map<(nat, Direction), int>, streams: set<nat>, next: seq<Option<int>>) {
    && |next| == 2
    && (streams == {} ==> next == [None, None])
    && (forall st: nat, d: Direction :: (st, d) in nextSeq ==> st in streams)
    && (forall st: nat, d: Direction :: st in streams ==>
          next[d] == if (st, d) in nextSeq then Some(nextSeq[(st, d)]) else None)
  }

  lemma SingleStream(s: set<nat>, x: nat)
    requires x in s && |s| <= 1
    ensures s == {x}
  {
    assert |s - {x}| == 0;
  }

  lemma MirrorsNewStream(nextSeq: map<(nat, Direction), int>, streams: set<nat>, next: seq<Option<int>>, st: nat)
    requires Mirrors(nextSeq, streams, next) && |streams + {st}| <= 1
    ensures streams + {st} == {st} && Mirrors(nextSeq, {st}, next)
  {
    SingleStream(streams + {st}, st);
    if streams == {} {
      forall d: Direction
        ensures next[d] == if (st, d) in nextSeq then Some(nextSeq[(st, d)]) else None
      {
        assert (st, d) !in nextSeq;
      }
    } else {
      assert streams == {st};
    }
  }

  lemma MirrorsUpdate(nextSeq: map<(nat, Direction), int>, next: seq<Option<int>>, st: nat, d: Direction, value: int)
    requires Mirrors(nextSeq, {st}, next)
    ensures Mirrors(nextSeq[(st, d) := value], {st}, next[d := Some(value)])
  {
  }

  lemma NoRows(port: nat)
    ensures DedupRun(START, Labelled([], port)) == Ok(START)
    ensures StreamsSeen([], port) == {} && Mirrors(map[], {}, [None, None])
  {
  }

  /** One row more. */
  lemma RowStep(init: seq<Row>, row: Row, rows: seq<Row>, port: nat)
    requires rows == init + [row]
    ensures StreamsSeen(rows, port) == StreamsSeen(init, port) + if Retained(row, port) then {row.stream} else {}
    ensures Labelled(rows, port)
            == Labelled(init, port)
               + if Retained(row, port) then [Segment(DirectionOf(row, port).value, row.sequence, row.payload)] else []
    ensures DedupRun(START, Labelled(init, port)).Ok? ==>
              DedupRun(START, Labelled(rows, port))
              == var s := DedupRun(START, Labelled(init, port)).value;
                 if Retained(row, port)
                 then DedupStep(s, Segment(DirectionOf(row, port).value, row.sequence, row.payload)) else Ok(s)
  {
    assert rows[..|rows| - 1] == init;
    var before, after := Labelled(init, port), Labelled(rows, port);
    if Retained(row, port) {
      assert after[..|after| - 1] == before;
    } else {
      assert after == before;
    }
  }

  lemma OneMore(s: set<nat>, x: nat)
    ensures |s + {x}| >= |s| && |s + {}| == |s|
  {
    assert s + {} == s;
    if x in s {
      assert s + {x} == s;
    }
  }

  lemma {:induction false} MoreStreams(rows: seq<Row>, port: nat, i: nat)
    requires i <= |rows| && |StreamsSeen(rows[..i], port)| > 1
    ensures |StreamsSeen(rows, port)| > 1
    decreases |rows| - i
  {
    if i == |rows| {
      assert rows[..i] == rows;
    } else {
      RowStep(rows[..i], rows[i], rows[..i + 1], port);
      OneMore(StreamsSeen(rows[..i], port), rows[i].stream);
      MoreStreams(rows, port, i + 1);
    }
  }

  lemma MirrorsAt(nextSeq: map<(nat, Direction), int>, next: seq<Option<int>>, st: nat, d: Direction)
    requires Mirrors(nextSeq, {st}, next)
    ensures |next| == 2 && next[d] == if (st, d) in nextSeq then Some(nextSeq[(st, d)]) else None
  {
  }

  lemma {:induction false} DedupFails(rows: seq<Row>, port: nat, i: nat)
    requires i <= |rows| && DedupRun(START, Labelled(rows[..i], port)).Err?
    ensures DedupRun(START, Labelled(rows, port)) == Err(PcapError)
    decreases |rows| - i
  {
    if i == |rows| {
      assert rows[..i] == rows;
    } else {
      RowStep(rows[..i], rows[i], rows[..i + 1], port);
      var before, after := Labelled(rows[..i], port), Labelled(rows[..i + 1], port);
      if after != before {
        assert after[..|after| - 1] == before;
      }
      DedupFails(rows, port, i + 1);
    }
  }

  /** extract_tcp_chunks: one flow with payload, no gap, and some payload. */
  method ExtractTcpChunks(rows: seq<Row>, port: nat) returns (r: Result<seq<Chunk>>)
    ensures r == Extracted(rows, port)
  {
    hide DedupRun, Mirrors, Labelled, StreamsSeen;
    var nextSeq: map<(nat, Direction), int> := map[];
    var payloadStreams: set<nat> := {};
    var chunks: seq<Chunk> := [];
    ghost var next: seq<Option<int>> := [None, None];
    NoRows(port);
    for i := 0 to |rows|
      invariant payloadStreams == StreamsSeen(rows[..i], port) && |payloadStreams| <= 1
      invariant |next| == 2 && DedupRun(START, Labelled(rows[..i], port)) == Ok(Dedup(next, chunks))
      invariant Mirrors(nextSeq, payloadStreams, next)
    {
      var row := rows[i];
      RowStep(rows[..i], rows[i], rows[..i + 1], port);
      var labelled := DirectionOf(row, port);
      if row.payload == [] || labelled.None? {
        continue;
      }
      var direction := labelled.value;
      ghost var before := payloadStreams;
      payloadStreams := payloadStreams + {row.stream};
      if |payloadStreams| > 1 {
        MoreStreams(rows, port, i + 1);
        return Err(PcapError);
      }
      MirrorsNewStream(nextSeq, before, next, row.stream);
      var key := (row.stream, direction);
      var expected := if key in nextSeq then nextSeq[key] else row.sequence;
      MirrorsAt(nextSeq, next, row.stream, direction);
      if row.sequence > expected {
        DedupFails(rows, port, i + 1);
        return Err(PcapError);
      }
      var overlap := Max(0, expected - row.sequence);
      if overlap >= |row.payload| {
        continue;
      }
      var novel := Skip(row.payload, overlap);
      MirrorsUpdate(nextSeq, next, row.stream, direction, expected + |novel|);
      nextSeq := nextSeq[key := expected + |novel|];
      next := next[direction := Some(expected + |novel|)];
      if chunks != [] && chunks[|chunks| - 1].direction == direction {
        chunks := chunks[..|chunks| - 1] + [Chunk(direction, chunks[|chunks| - 1].data + novel)];
      } else {
        chunks := chunks + [Chunk(direction, novel)];
      }
    }
    assert rows[..|rows|] == rows;
    if chunks == [] {
      return Err(PcapError);
    }
    return Ok(chunks);
  }

  // ----- Which rows are used, and what is refused

  /** A row with payload to or from the server port. */
  predicate Used(row: Row, port: nat) {
    row.payload != [] && (row.source == port || row.destination == port)
  }

  lemma {:induction false} LabelledAppend(a: seq<Row>, b: seq<Row>, port: nat)
    ensures Labelled(a + b, port) == Labelled(a, port) + Labelled(b, port)
  {
    if b == [] {
      assert a + b == a;
    } else {
      LabelledAppend(a, b[..|b| - 1], port);
      assert (a + b)[..|a + b| - 1] == a + b[..|b| - 1];
    }
  }

  /** Rows without payload or between other ports are passed over; the rest are the server's when it is their source. */
  lemma LabelledExactly(rows: seq<Row>, row: Row, port: nat)
    ensures Labelled([], port) == []
    ensures Labelled(rows + [row], port) == Labelled(rows, port) +
            if Used(row, port) then [Segment(if row.source == port then 1 else 0, row.sequence, row.payload)] else []
  {
    LabelledAppend(rows, [row], port);
    assert [row][..0] == [];
  }

  lemma {:induction false} StreamsExactly(rows: seq<Row>, port: nat)
    ensures forall st: nat :: st in StreamsSeen(rows, port) <==>
              exists i :: 0 <= i < |rows| && Used(rows[i], port) && rows[i].stream == st
    ensures Labelled(rows, port) == [] <==> forall i :: 0 <= i < |rows| ==> !Used(rows[i], port)
  {
    if rows != [] {
      StreamsExactly(rows[..|rows| - 1], port);
    }
  }

  /** All payload belongs to one flow. */
  predicate OneFlow(rows: seq<Row>, port: nat) {
    forall i, j :: 0 <= i < |rows| && 0 <= j < |rows| && Used(rows[i], port) && Used(rows[j], port) ==>
      rows[i].stream == rows[j].stream
  }

  lemma AtMostOneStream(rows: seq<Row>, port: nat)
    ensures |StreamsSeen(rows, port)| <= 1 <==> OneFlow(rows, port)
  {
    hide StreamsSeen, Used;
    StreamsExactly(rows, port);
    var s := StreamsSeen(rows, port);
    if |s| <= 1 {
      forall i, j | 0 <= i < |rows| && 0 <= j < |rows| && Used(rows[i], port) && Used(rows[j], port)
        ensures rows[i].stream == rows[j].stream
      {
        assert rows[i].stream in s && rows[j].stream in s;
        SingleStream(s, rows[i].stream);
      }
    }
    if OneFlow(rows, port) && s != {} {
      var st :| st in s;
      assert s == {st};
    }
  }

  // ----- What de-duplication computes

  function Extend(reach: Option<(int, int)>, seg: Segment, d: Direction): Option<(int, int)> {
    if seg.direction != d || seg.data == [] then reach
    else
      var end := seg.sequence + |seg.data|;
      Some(if reach.None? then (seg.sequence, end) else (reach.value.0, Max(reach.value.1, end)))
  }

  /** First and furthest position of the payload observed in one direction. */
  function Reach(segs: seq<Segment>, d: Direction): Option<(int, int)> {
    if segs == [] then None else Extend(Reach(segs[..|segs| - 1], d), segs[|segs| - 1], d)
  }

  function EndOf(reach: Option<(int, int)>): Option<int> {
    if reach.Some? then Some(reach.value.1) else None
  }

  predicate LeavesNoGap(reach: Option<(int, int)>, seg: Segment) {
    reach.Some? ==> seg.sequence <= reach.value.1
  }

  /** No segment starts beyond what its direction has covered so far. */
  predicate GapFree(segs: seq<Segment>) {
    forall i :: 0 <= i < |segs| ==> LeavesNoGap(Reach(segs[..i], segs[i].direction), segs[i])
  }

  /** Every segment is a slice of one true stream per direction. */
  ghost predicate SlicesOf(segs: seq<Segment>, truth: (Direction, int) -> Byte) {
    forall i, k :: 0 <= i < |segs| && 0 <= k < |segs[i].data| ==>
      segs[i].data[k] == truth(segs[i].direction, segs[i].sequence + k)
  }

  ghost function Slice(truth: (Direction, int) -> Byte, d: Direction, from: int, end: int): Octets
    requires from <= end
  {
    seq(end - from, k requires 0 <= k < end - from => truth(d, from + k))
  }

  ghost predicate Covers(truth: (Direction, int) -> Byte, reach: Option<(int, int)>, d: Direction, bytes: Octets) {
    match reach
    case None => bytes == []
    case Some((from, end)) => from < end && bytes == Slice(truth, d, from, end)
  }

  lemma GapFreeStep(segs: seq<Segment>)
    requires segs != []
    ensures var init, last := segs[..|segs| - 1], segs[|segs| - 1];
            GapFree(segs) <==> GapFree(init) && LeavesNoGap(Reach(init, last.direction), last)
  {
    hide Reach, LeavesNoGap;
    var init := segs[..|segs| - 1];
    forall i | 0 <= i < |init|
      ensures LeavesNoGap(Reach(segs[..i], segs[i].direction), segs[i])
              <==> LeavesNoGap(Reach(init[..i], init[i].direction), init[i])
    {
      assert segs[..i] == init[..i];
    }
    assert segs[..|segs| - 1] == init;
  }

  ghost predicate NextIs(next: seq<Option<int>>, r0: Option<(int, int)>, r1: Option<(int, int)>) {
    |next| == 2 && next[0] == EndOf(r0) && next[1] == EndOf(r1)
  }

  lemma StepMeaning(s: Dedup, seg: Segment, mine: Option<(int, int)>)
    requires |s.next| == 2 && s.next[seg.direction] == EndOf(mine)
    ensures DedupStep(s, seg).Ok? <==> LeavesNoGap(mine, seg)
    ensures DedupStep(s, seg).Ok? ==>
              DedupStep(s, seg).value.next == s.next[seg.direction := EndOf(Extend(mine, seg, seg.direction))]
  {
    hide AppendPayload;
    var expected := if mine.Some? then mine.value.1 else seg.sequence;
    if 0 <= expected - seg.sequence < |seg.data| {
      assert EndOf(Extend(mine, seg, seg.direction)) == Some(seg.sequence + |seg.data|);
    } else if 0 <= expected - seg.sequence {
      assert EndOf(Extend(mine, seg, seg.direction)) == s.next[seg.direction];
      assert s.next[seg.direction := s.next[seg.direction]] == s.next;
    }
  }

  lemma StepKeepsCoalesced(s: Dedup, seg: Segment)
    requires |s.next| == 2 && Coalesced(s.chunks) && DedupStep(s, seg).Ok?
    ensures Coalesced(DedupStep(s, seg).value.chunks)
  {
    hide Coalesced, AppendPayload, StreamOf;
    var expected := if s.next[seg.direction].Some? then s.next[seg.direction].value else seg.sequence;
    if expected - seg.sequence < |seg.data| {
      AppendPayloadFacts(s.chunks, seg.direction, Skip(seg.data, expected - seg.sequence));
    }
  }

  lemma StepReach(s: Dedup, seg: Segment, r0: Option<(int, int)>, r1: Option<(int, int)>)
    requires NextIs(s.next, r0, r1) && Coalesced(s.chunks)
    ensures DedupStep(s, seg).Ok? <==> LeavesNoGap(if seg.direction == 0 then r0 else r1, seg)
    ensures DedupStep(s, seg).Ok? ==>
              && NextIs(DedupStep(s, seg).value.next, Extend(r0, seg, 0), Extend(r1, seg, 1))
              && Coalesced(DedupStep(s, seg).value.chunks)
  {
    StepMeaning(s, seg, if seg.direction == 0 then r0 else r1);
    if DedupStep(s, seg).Ok? {
      StepKeepsCoalesced(s, seg);
    }
    hide Coalesced, DedupStep, LeavesNoGap, EndOf;
  }

  /** The gap error is raised exactly when some segment leaves a gap; else each direction expects its furthest end. */
  lemma {:induction false} GapErrorExactly(segs: seq<Segment>)
    ensures DedupRun(START, segs).Ok? <==> GapFree(segs)
    ensures DedupRun(START, segs).Ok? ==>
              && NextIs(DedupRun(START, segs).value.next, Reach(segs, 0), Reach(segs, 1))
              && Coalesced(DedupRun(START, segs).value.chunks)
  {
    hide Coalesced, DedupStep, LeavesNoGap, Extend;
    if segs == [] {
      assert Coalesced([]) by {
        CoalesceFixed([]);
      }
    } else {
      var init, last := segs[..|segs| - 1], segs[|segs| - 1];
      GapErrorExactly(init);
      GapFreeStep(segs);
      if DedupRun(START, init).Ok? {
        StepReach(DedupRun(START, init).value, last, Reach(init, 0), Reach(init, 1));
      }
    }
  }

  lemma {:induction false} SomethingChunked(segs: seq<Segment>)
    requires (forall i :: 0 <= i < |segs| ==> segs[i].data != []) && DedupRun(START, segs).Ok?
    ensures DedupRun(START, segs).value.chunks == [] <==> segs == []
  {
    hide Coalesced;
    if segs != [] {
      var init, last := segs[..|segs| - 1], segs[|segs| - 1];
      SomethingChunked(init);
      GapErrorExactly(init);
      if init == [] {
        assert DedupRun(START, init).value == START;
      }
    }
  }

  /** The extraction succeeds exactly when there is payload, all of it of one flow, and no segment leaves a gap. */
  lemma ExtractedExactly(rows: seq<Row>, port: nat)
    ensures Extracted(rows, port).Ok? <==>
            && OneFlow(rows, port) && (exists i :: 0 <= i < |rows| && Used(rows[i], port))
            && GapFree(Labelled(rows, port))
    ensures Extracted(rows, port).Err? ==> Extracted(rows, port) == Err(PcapError)
  {
    hide DedupRun, Labelled, StreamsSeen, GapFree, OneFlow, Used;
    AtMostOneStream(rows, port);
    StreamsExactly(rows, port);
    GapErrorExactly(Labelled(rows, port));
    if DedupRun(START, Labelled(rows, port)).Ok? {
      SomethingChunked(Labelled(rows, port));
    }
  }

  lemma NothingCovered(truth: (Direction, int) -> Byte, d: Direction)
    ensures Covers(truth, None, d, StreamOf([], d))
  {
  }

  lemma SlicesStep(segs: seq<Segment>, truth: (Direction, int) -> Byte)
    requires segs != [] && SlicesOf(segs, truth)
    ensures SlicesOf(segs[..|segs| - 1], truth)
    ensures var last := segs[|segs| - 1];
            forall k :: 0 <= k < |last.data| ==> last.data[k] == truth(last.direction, last.sequence + k)
  {
    var init := segs[..|segs| - 1];
    forall i, k | 0 <= i < |init| && 0 <= k < |init[i].data|
      ensures init[i].data[k] == truth(init[i].direction, init[i].sequence + k)
    {
      assert init[i] == segs[i];
    }
    assert segs[|segs| - 1] in segs;
  }

  lemma SliceExtends(truth: (Direction, int) -> Byte, seg: Segment, from: int, expected: int)
    requires from <= expected && seg.sequence <= expected < seg.sequence + |seg.data|
    requires forall k :: 0 <= k < |seg.data| ==> seg.data[k] == truth(seg.direction, seg.sequence + k)
    ensures Slice(truth, seg.direction, from, expected) + Skip(seg.data, expected - seg.sequence)
            == Slice(truth, seg.direction, from, seg.sequence + |seg.data|)
  {
    var d := seg.direction;
    var left := Slice(truth, d, from, expected) + Skip(seg.data, expected - seg.sequence);
    var right := Slice(truth, d, from, seg.sequence + |seg.data|);
    forall k | 0 <= k < |left|
      ensures left[k] == right[k]
    {
      if k >= expected - from {
        assert left[k] == seg.data[k - (expected - from) + (expected - seg.sequence)];
      }
    }
  }

  lemma OwnSegment(truth: (Direction, int) -> Byte, s: Dedup, seg: Segment, reach: Option<(int, int)>)
    requires |s.next| == 2 && Coalesced(s.chunks)
    requires s.next[seg.direction] == EndOf(reach) && LeavesNoGap(reach, seg)
    requires forall k :: 0 <= k < |seg.data| ==> seg.data[k] == truth(seg.direction, seg.sequence + k)
    requires Covers(truth, reach, seg.direction, StreamOf(s.chunks, seg.direction))
    ensures DedupStep(s, seg).Ok?
    ensures Covers(truth, Extend(reach, seg, seg.direction), seg.direction,
                   StreamOf(DedupStep(s, seg).value.chunks, seg.direction))
  {
    hide Coalesced, AppendPayload;
    var d := seg.direction;
    var expected := if reach.Some? then reach.value.1 else seg.sequence;
    var overlap := expected - seg.sequence;
    if overlap < |seg.data| {
      var novel := Skip(seg.data, overlap);
      AppendPayloadFacts(s.chunks, d, novel);
      SliceExtends(truth, seg, if reach.Some? then reach.value.0 else seg.sequence, expected);
      if reach.None? {
        assert Slice(truth, d, seg.sequence, seg.sequence) == [];
      }
    }
  }

  lemma OtherSegment(s: Dedup, seg: Segment, reach: Option<(int, int)>, d: Direction)
    requires |s.next| == 2 && Coalesced(s.chunks) && DedupStep(s, seg).Ok? && d != seg.direction
    ensures StreamOf(DedupStep(s, seg).value.chunks, d) == StreamOf(s.chunks, d)
    ensures Extend(reach, seg, d) == reach
  {
    hide Coalesced, AppendPayload, StreamOf, Skip;
    var expected := if s.next[seg.direction].Some? then s.next[seg.direction].value else seg.sequence;
    if expected - seg.sequence < |seg.data| {
      AppendedStream(s.chunks, seg.direction, Skip(seg.data, expected - seg.sequence), d);
      LeftAndRightUnit(StreamOf(s.chunks, d));
    }
  }

  /**
   * The de-duplication law: when every observed segment is a slice of one true stream per direction, each
   * direction's output is exactly that stream from its first observed position to the furthest covered one,
   * whatever the retransmissions, overlaps and interleaving.
   */
  lemma {:induction false} DeduplicationIsTheTrueStream(segs: seq<Segment>, truth: (Direction, int) -> Byte,
      d: Direction)
    requires GapFree(segs) && SlicesOf(segs, truth)
    ensures DedupRun(START, segs).Ok?
    ensures Covers(truth, Reach(segs, d), d, StreamOf(DedupRun(START, segs).value.chunks, d))
  {
    hide Covers, DedupStep, Coalesced, Extend, GapFree;
    GapErrorExactly(segs);
    if segs == [] {
      NothingCovered(truth, d);
    } else {
      var init, last := segs[..|segs| - 1], segs[|segs| - 1];
      GapFreeStep(segs);
      SlicesStep(segs, truth);
      GapErrorExactly(init);
      DeduplicationIsTheTrueStream(init, truth, d);
      var s := DedupRun(START, init).value;
      if d == last.direction {
        assert s.next[d] == EndOf(Reach(init, d));
        OwnSegment(truth, s, last, Reach(init, d));
      } else {
        OtherSegment(s, last, Reach(init, d), d);
      }
    }
  }
}
