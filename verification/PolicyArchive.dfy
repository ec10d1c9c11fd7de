/** The policy archive's wire format, and its own TCP de-duplication and synthesis (archive_policy.py). */
module PolicyArchive {
  import opened Bytes
  import opened Chunks
  import opened TcpSegments
  import opened TcpTrace

  datatype WireEvent = WireEvent(toServer: bool, payload: Octets)

  /** b"HNDLWA01" */
  const ARCHIVE_MAGIC: Octets := [0x48, 0x4E, 0x44, 0x4C, 0x57, 0x41, 0x30, 0x31]

  const FIELD_LIMIT: nat := 0x1_0000_0000

  // ----- Wire format

  predicate Packable(events: seq<WireEvent>) {
    |events| < 0x1_0000_0000 && forall i :: 0 <= i < |events| ==> |events[i].payload| < 0x1_0000_0000
  }

  function EventBytes(e: WireEvent): Octets
    requires |e.payload| < FIELD_LIMIT
  {
    [if e.toServer then 0 else 1] + U32(|e.payload|) + e.payload
  }

  function EventsFrom(events: seq<WireEvent>, i: nat): Octets
    requires i <= |events| && Packable(events)
    decreases |events| - i
  {
    if i == |events| then [] else EventBytes(events[i]) + EventsFrom(events, i + 1)
  }

  function WireBytes(events: seq<WireEvent>): Octets
    requires Packable(events)
  {
    ARCHIVE_MAGIC + U32(|events|) + EventsFrom(events, 0)
  }

  /** _encode_wire_events; struct.pack refuses a count or a length of 2^32 or more. */
  method EncodeWireEvents(events: seq<WireEvent>) returns (r: Result<Octets>)
    ensures r == if Packable(events) then Ok(WireBytes(events)) else Err(StructError)
  {
    if |events| >= FIELD_LIMIT {
      return Err(StructError);
    }
    var encoded := ARCHIVE_MAGIC;
    encoded := encoded + U32(|events|);
    for i := 0 to |events|
      invariant forall k :: 0 <= k < i ==> |events[k].payload| < FIELD_LIMIT
      invariant Packable(events) ==> encoded + EventsFrom(events, i) == WireBytes(events)
    {
      hide U32;
      if |events[i].payload| >= FIELD_LIMIT {
        return Err(StructError);
      }
      if Packable(events) {
        Regroup(encoded, EventBytes(events[i]), EventsFrom(events, i + 1));
      }
      encoded := encoded + EventBytes(events[i]);
    }
    assert encoded + [] == encoded;
    return Ok(encoded);
  }

  type Decoded = Leading<WireEvent, Octets>

  function DecodeEvent(data: Octets): Result<Decoded> {
    if |data| < 5 then Err(ManifestError)
    else
      var length := BigEndian(data[1..5]);
      if (data[0] != 0 && data[0] != 1) || 5 + length > |data| then Err(ManifestError)
      else Ok(Leading([WireEvent(data[0] == 0, data[5..5 + length])], data[5 + length..]))
  }

  function DecodeMany(count: nat, data: Octets): Result<Decoded> {
    if count == 0 then Ok(Leading([], data))
    else
      var one :- DecodeEvent(data);
      Prepend(one.items, DecodeMany(count - 1, one.rest))
  }

  function Decode(data: Octets): Result<seq<WireEvent>> {
    if |data| < 12 || data[..8] != ARCHIVE_MAGIC then Err(ManifestError)
    else
      var t :- DecodeMany(BigEndian(data[8..12]), data[12..]);
      if t.rest != [] then Err(ManifestError) else Ok(t.items)
  }

  lemma EventAt(data: Octets, offset: nat)
    requires offset <= |data|
    ensures DecodeEvent(data[offset..])
            == if offset + 5 > |data| then Err(ManifestError)
               else
                 var length := BigEndian(data[offset + 1..offset + 5]);
                 if (data[offset] != 0 && data[offset] != 1) || offset + 5 + length > |data| then Err(ManifestError)
                 else Ok(Leading([WireEvent(data[offset] == 0, data[offset + 5..offset + 5 + length])],
                                 data[offset + 5 + length..]))
  {
    var rest := data[offset..];
    if offset + 5 <= |data| {
      assert rest[1..5] == data[offset + 1..offset + 5];
      var length := BigEndian(rest[1..5]);
      if offset + 5 + length <= |data| {
        assert rest[5..5 + length] == data[offset + 5..offset + 5 + length];
        assert rest[5 + length..] == data[offset + 5 + length..];
      }
    }
  }

  /** _decode_wire_events, from the file's contents. */
  method DecodeWireEvents(data: Octets) returns (r: Result<seq<WireEvent>>)
    ensures r == Decode(data)
  {
    hide DecodeEvent, BigEndian;
    if |data| < 12 || data[..8] != ARCHIVE_MAGIC {
      return Err(ManifestError);
    }
    var count := BigEndian(data[8..12]);
    var offset := 12;
    var events: seq<WireEvent> := [];
    ghost var whole := DecodeMany(count, data[12..]);
    PrependTwice([], [], whole);
    for i := 0 to count
      invariant 12 <= offset <= |data|
      invariant whole == Prepend(events, DecodeMany(count - i, data[offset..]))
    {
      EventAt(data, offset);
      if offset + 5 > |data| {
        return Err(ManifestError);
      }
      var direction, length := data[offset], BigEndian(data[offset + 1..offset + 5]);
      offset := offset + 5;
      if (direction != 0 && direction != 1) || offset + length > |data| {
        return Err(ManifestError);
      }
      ghost var one := WireEvent(direction == 0, data[offset..offset + length]);
      PrependTwice(events, [one], DecodeMany(count - i - 1, data[offset + length..]));
      events := events + [WireEvent(direction == 0, data[offset..offset + length])];
      offset := offset + length;
    }
    assert events + [] == events;
    if offset != |data| {
      return Err(ManifestError);
    }
    return Ok(events);
  }

  lemma EventRoundTrip(e: WireEvent, rest: Octets)
    requires |e.payload| < FIELD_LIMIT
    ensures DecodeEvent(EventBytes(e) + rest) == Ok(Leading([e], rest))
  {
    hide U32;
    var data := EventBytes(e) + rest;
    assert data[1..5] == U32(|e.payload|);
    assert data[5..5 + |e.payload|] == e.payload;
    assert data[5 + |e.payload|..] == rest;
  }

  lemma {:induction false} EventsRoundTrip(events: seq<WireEvent>, i: nat)
    requires i <= |events| && Packable(events)
    ensures DecodeMany(|events| - i, EventsFrom(events, i)) == Ok(Leading(events[i..], []))
    decreases |events| - i
  {
    hide EventBytes, DecodeEvent;
    if i == |events| {
      assert events[i..] == [];
    } else {
      EventRoundTrip(events[i], EventsFrom(events, i + 1));
      EventsRoundTrip(events, i + 1);
      assert [events[i]] + events[i + 1..] == events[i..];
    }
  }

  lemma EventCanonical(data: Octets)
    requires DecodeEvent(data).Ok?
    ensures var t := DecodeEvent(data).value;
            |t.items| == 1 && |t.items[0].payload| < FIELD_LIMIT && data == EventBytes(t.items[0]) + t.rest
  {
    var length := BigEndian(data[1..5]);
    BigEndian4(data[1..5]);
    assert data == [data[0]] + data[1..5] + data[5..5 + length] + data[5 + length..];
  }

  lemma {:induction false} EventsShift(e: WireEvent, events: seq<WireEvent>, i: nat)
    requires i <= |events| && Packable(events) && |e.payload| < FIELD_LIMIT && |events| + 1 < FIELD_LIMIT
    ensures Packable([e] + events)
    ensures EventsFrom([e] + events, i + 1) == EventsFrom(events, i)
    decreases |events| - i
  {
    if i < |events| {
      EventsShift(e, events, i + 1);
    }
  }

  lemma {:induction false} EventsCanonical(count: nat, data: Octets)
    requires DecodeMany(count, data).Ok? && count < FIELD_LIMIT
    ensures var t := DecodeMany(count, data).value;
            |t.items| == count && Packable(t.items) && data == EventsFrom(t.items, 0) + t.rest
  {
    hide EventBytes, DecodeEvent;
    if count == 0 {
      assert [] + data == data;
    } else {
      var one := DecodeEvent(data).value;
      EventCanonical(data);
      EventsCanonical(count - 1, one.rest);
      var more := DecodeMany(count - 1, one.rest).value;
      EventsShift(one.items[0], more.items, 0);
      assert one.items == [one.items[0]];
      Regroup(EventBytes(one.items[0]), EventsFrom(more.items, 0), more.rest);
    }
  }

  lemma FewEvents(events: seq<WireEvent>)
    requires Packable(events)
    ensures |events| < 0x1_0000_0000
  {
  }

  lemma FileParts(magic: Octets, count: Octets, events: Octets, data: Octets)
    requires |magic| == 8 && |count| == 4 && data == magic + count + events
    ensures data[..8] == magic && data[8..12] == count && data[12..] == events
  {
  }

  /**
   * The policy archive is a bijection between event lists and the files it accepts: decoding inverts encoding,
   * and re-encoding an accepted file gives the same bytes.
   */
  lemma WireFormatIsCanonical(data: Octets, events: seq<WireEvent>)
    ensures Decode(data) == Ok(events) <==>
            && Packable(events)
            && data == [0x48, 0x4E, 0x44, 0x4C, 0x57, 0x41, 0x30, 0x31] + U32(|events|) + EventsFrom(events, 0)
  {
    hide DecodeMany, EventsFrom, BigEndian, U32, Packable;
    if Packable(events) && data == WireBytes(events) {
      FewEvents(events);
      FileParts(ARCHIVE_MAGIC, U32(|events|), EventsFrom(events, 0), data);
      EventsRoundTrip(events, 0);
      assert events[0..] == events;
    }
    if Decode(data) == Ok(events) {
      BigEndian4(data[8..12]);
      EventsCanonical(BigEndian(data[8..12]), data[12..]);
      LeftAndRightUnit(EventsFrom(events, 0));
      assert data == data[..8] + data[8..12] + data[12..];
    }
  }

  lemma {:induction false} ManyFail(count: nat, data: Octets)
    ensures DecodeMany(count, data).Err? ==> DecodeMany(count, data) == Err(ManifestError)
  {
    hide BigEndian;
    if count > 0 && DecodeEvent(data).Ok? {
      ManyFail(count - 1, DecodeEvent(data).value.rest);
    }
  }

  /** Any other file is a manifest error. */
  lemma FileRefused(data: Octets)
    ensures Decode(data).Err? ==> Decode(data) == Err(ManifestError)
  {
    hide DecodeMany, BigEndian;
    if |data| >= 12 {
      ManyFail(BigEndian(data[8..12]), data[12..]);
    }
  }

  // ----- The second de-duplication

  /** Towards the server when the destination is the service port; the destination port is looked at first. */
  function PolicyDirectionOf(row: Row, port: nat): Option<Direction> {
    if row.destination == port then Some(0) else if row.source == port then Some(1) else None
  }

  /** The two implementations label a row alike unless both its ports are the server's. */
  lemma LabelsAgree(row: Row, port: nat)
    ensures PolicyDirectionOf(row, port) == DirectionOf(row, port) <==> !(row.source == port && row.destination == port)
  {
  }

  datatype Policy = Policy(next: seq<Option<int>>, events: seq<WireEvent>)

  const POLICY_START: Policy := Policy([None, None], [])

  function PolicyStep(s: Policy, seg: Segment): (r: Result<Policy>)
    requires |s.next| == 2
    ensures r.Ok? ==> |r.value.next| == 2
    ensures r.Err? ==> r.error == RuntimeError
  {
    var d := seg.direction;
    if s.next[d].None? then
      Ok(Policy(s.next[d := Some(seg.sequence + |seg.data|)], s.events + [WireEvent(d == 0, seg.data)]))
    else if seg.sequence > s.next[d].value then Err(RuntimeError)
    else
      var overlap := s.next[d].value - seg.sequence;
      if overlap >= |seg.data| then Ok(s)
      else
        var payload := Skip(seg.data, overlap);
        Ok(Policy(s.next[d := Some(seg.sequence + overlap + |payload|)], s.events + [WireEvent(d == 0, payload)]))
  }

  function PolicyRun(segs: seq<Segment>): (r: Result<Policy>)
    ensures r.Ok? ==> |r.value.next| == 2
    ensures r.Err? ==> r.error == RuntimeError
  {
    if segs == [] then Ok(POLICY_START)
    else
      var s :- PolicyRun(segs[..|segs| - 1]);
      PolicyStep(s, segs[|segs| - 1])
  }

  function PolicyLabelled(rows: seq<Row>, port: nat): (segs: seq<Segment>)
    ensures forall i :: 0 <= i < |segs| ==> segs[i].data != []
  {
    if rows == [] then []
    else
      var last := rows[|rows| - 1];
      var d := PolicyDirectionOf(last, port);
      PolicyLabelled(rows[..|rows| - 1], port)
      + if last.payload != [] && d.Some? then [Segment(d.value, last.sequence, last.payload)] else []
  }

  /** What _tcp_events returns for the rows of one stream. */
  function PolicyExtracted(rows: seq<Row>, port: nat): Result<seq<WireEvent>> {
    var s :- PolicyRun(PolicyLabelled(rows, port));
    if s.events == [] then Err(RuntimeError) else Ok(s.events)
  }

  lemma NoPolicyRows(port: nat)
    ensures PolicyRun(PolicyLabelled([], port)) == Ok(POLICY_START)
  {
  }

  lemma PolicyRowStep(rows: seq<Row>, port: nat, i: nat)
    requires i < |rows|
    ensures var before, after := PolicyRun(PolicyLabelled(rows[..i], port)),
        PolicyRun(PolicyLabelled(rows[..i + 1], port));
            var d := PolicyDirectionOf(rows[i], port);
            if before.Err? then after == before
            else if rows[i].payload != [] && d.Some? then
              after == PolicyStep(before.value, Segment(d.value, rows[i].sequence, rows[i].payload))
            else after == before
  {
    assert rows[..i + 1][..i] == rows[..i];
    var before, after := PolicyLabelled(rows[..i], port), PolicyLabelled(rows[..i + 1], port);
    var d := PolicyDirectionOf(rows[i], port);
    if rows[i].payload != [] && d.Some? {
      assert after[..|after| - 1] == before;
    } else {
      assert after == before;
    }
  }

  lemma {:induction false} PolicyFails(rows: seq<Row>, port: nat, i: nat)
    requires i <= |rows| && PolicyRun(PolicyLabelled(rows[..i], port)).Err?
    ensures PolicyRun(PolicyLabelled(rows, port)).Err?
    decreases |rows| - i
  {
    hide PolicyRun, PolicyLabelled;
    if i == |rows| {
      assert rows[..i] == rows;
    } else {
      PolicyRowStep(rows, port, i);
      PolicyFails(rows, port, i + 1);
    }
  }

  /** _tcp_events over the rows of the first stream with payload. */
  method TcpEvents(rows: seq<Row>, port: nat) returns (r: Result<seq<WireEvent>>)
    ensures r == PolicyExtracted(rows, port)
  {
    hide PolicyRun, PolicyLabelled;
    var events: seq<WireEvent> := [];
    var nextSequence: seq<Option<int>> := [None, None];
    NoPolicyRows(port);
    for i := 0 to |rows|
      invariant |nextSequence| == 2
      invariant PolicyRun(PolicyLabelled(rows[..i], port)) == Ok(Policy(nextSequence, events))
    {
      PolicyRowStep(rows, port, i);
      var row := rows[i];
      var d := PolicyDirectionOf(row, port);
      if row.payload == [] || d.None? {
        continue;
      }
      var payload, sequence := row.payload, row.sequence;
      var expected := nextSequence[d.value];
      if expected.Some? {
        if sequence > expected.value {
          PolicyFails(rows, port, i + 1);
          return Err(RuntimeError);
        }
        var overlap := expected.value - sequence;
        if overlap >= |payload| {
          continue;
        }
        if overlap > 0 {
          payload := payload[overlap..];
          sequence := sequence + overlap;
        }
      }
      nextSequence := nextSequence[d.value := Some(sequence + |payload|)];
      events := events + [WireEvent(d.value == 0, payload)];
    }
    assert rows[..|rows|] == rows;
    if events == [] {
      return Err(RuntimeError);
    }
    return Ok(events);
  }

  // ----- Agreement of the two implementations

  function EventChunk(e: WireEvent): Chunk {
    Chunk(if e.toServer then 0 else 1, e.payload)
  }

  function EventChunks(events: seq<WireEvent>): (chunks: seq<Chunk>)
    ensures |chunks| == |events|
  {
    if events == [] then [] else EventChunks(events[..|events| - 1]) + [EventChunk(events[|events| - 1])]
  }

  lemma CoalesceOneMore(events: seq<WireEvent>, e: WireEvent)
    ensures Coalesce(EventChunks(events + [e]))
        == AppendPayload(Coalesce(EventChunks(events)), EventChunk(e).direction, e.payload)
  {
    hide AppendPayload;
    var all := EventChunks(events + [e]);
    assert (events + [e])[..|events|] == events;
    assert all[..|all| - 1] == EventChunks(events);
  }

  /** One segment moves both implementations alike, up to coalescing. */
  lemma StepsAgree(s: Policy, t: Dedup, seg: Segment)
    requires |s.next| == 2 && t.next == s.next && t.chunks == Coalesce(EventChunks(s.events)) && seg.data != []
    ensures PolicyStep(s, seg).Ok? <==> DedupStep(t, seg).Ok?
    ensures PolicyStep(s, seg).Ok? ==>
              && DedupStep(t, seg).value.next == PolicyStep(s, seg).value.next
              && DedupStep(t, seg).value.chunks == Coalesce(EventChunks(PolicyStep(s, seg).value.events))
  {
    hide Coalesce, EventChunks, AppendPayload;
    var d := seg.direction;
    if s.next[d].None? {
      assert Skip(seg.data, 0) == seg.data;
      CoalesceOneMore(s.events, WireEvent(d == 0, seg.data));
    } else if seg.sequence <= s.next[d].value && s.next[d].value - seg.sequence < |seg.data| {
      CoalesceOneMore(s.events, WireEvent(d == 0, Skip(seg.data, s.next[d].value - seg.sequence)));
    }
  }

  /**
   * The two TCP extractors agree on every list of labelled segments with payload: they refuse the same lists,
   * and coalescing the policy's events gives exactly the MinARX chunks.
   */
  lemma {:induction false} ExtractorsAgree(segs: seq<Segment>)
    requires forall i :: 0 <= i < |segs| ==> segs[i].data != []
    ensures PolicyRun(segs).Ok? <==> DedupRun(START, segs).Ok?
    ensures PolicyRun(segs).Ok? ==>
              && PolicyRun(segs).value.next == DedupRun(START, segs).value.next
              && Coalesce(EventChunks(PolicyRun(segs).value.events)) == DedupRun(START, segs).value.chunks
  {
    hide PolicyStep, DedupStep;
    if segs != [] {
      var init := segs[..|segs| - 1];
      ExtractorsAgree(init);
      if PolicyRun(init).Ok? {
        StepsAgree(PolicyRun(init).value, DedupRun(START, init).value, segs[|segs| - 1]);
      }
    }
  }

  lemma PolicyRunSnoc(segs: seq<Segment>, seg: Segment)
    requires PolicyRun(segs).Ok?
    ensures PolicyRun(segs + [seg]) == PolicyStep(PolicyRun(segs).value, seg)
  {
    hide PolicyStep;
    assert (segs + [seg])[..|segs|] == segs;
  }

  /**
   * A segment adds one event with what goes beyond the furthest end of its direction, and none where nothing does; it
   * is refused exactly when it leaves a gap.
   */
  lemma {:induction false} EventsExactly(segs: seq<Segment>, seg: Segment)
    requires (forall i :: 0 <= i < |segs| ==> segs[i].data != []) && seg.data != [] && PolicyRun(segs).Ok?
    ensures var end := EndOf(Reach(segs, seg.direction));
            var known := if end.Some? then end.value - seg.sequence else 0;
            && (PolicyRun(segs + [seg]).Ok? <==> known >= 0)
            && (known >= 0 ==>
                  PolicyRun(segs + [seg]).value.events == PolicyRun(segs).value.events
                  + if known < |seg.data| then [WireEvent(seg.direction == 0, Skip(seg.data, known))] else [])
  {
    hide Reach, DedupRun, Skip, PolicyRun, EventChunks, Coalesce;
    ExtractorsAgree(segs);
    GapErrorExactly(segs);
    PolicyRunSnoc(segs, seg);
    SkipEnds(seg.data);
  }

  /** Some row with payload has both ports the server's, so that its direction depends on which is looked at first. */
  ghost predicate Ambiguous(rows: seq<Row>, port: nat) {
    exists i :: 0 <= i < |rows| && rows[i].payload != [] && rows[i].source == rows[i].destination == port
  }

  lemma AmbiguousSnoc(init: seq<Row>, last: Row, port: nat)
    ensures Ambiguous(init + [last], port) <==>
            Ambiguous(init, port) || (last.payload != [] && last.source == last.destination == port)
  {
    var all := init + [last];
    assert all[|init|] == last;
    if Ambiguous(init, port) {
      var i :| 0 <= i < |init| && init[i].payload != [] && init[i].source == init[i].destination == port;
      assert all[i] == init[i];
    }
  }

  lemma NoneAmbiguous(port: nat)
    ensures !Ambiguous([], port)
  {
  }

  /** One more row keeps the two label lists equally long, and equal only if they were. */
  lemma LastsAgree(init: seq<Row>, last: Row, port: nat)
    requires |PolicyLabelled(init, port)| == |Labelled(init, port)|
    ensures var a, b := PolicyLabelled(init + [last], port), Labelled(init + [last], port);
            && |a| == |b|
            && (a == b <==> PolicyLabelled(init, port) == Labelled(init, port)
                            && (last.payload == [] || PolicyDirectionOf(last, port) == DirectionOf(last, port)))
  {
    var rows := init + [last];
    assert rows[..|rows| - 1] == init;
    var a, b, p, q := PolicyLabelled(rows, port), Labelled(rows, port), PolicyLabelled(init, port),
        Labelled(init, port);
    if Retained(last, port) {
      assert a[..|p|] == p && b[..|q|] == q;
      assert a[|p|].direction == PolicyDirectionOf(last, port).value;
      assert b[|q|].direction == DirectionOf(last, port).value;
    }
  }

  /** Over a whole capture the two implementations label alike exactly when no row is ambiguous. */
  lemma {:induction false} LabellingsAgree(rows: seq<Row>, port: nat)
    ensures |PolicyLabelled(rows, port)| == |Labelled(rows, port)|
    ensures PolicyLabelled(rows, port) == Labelled(rows, port) <==> !Ambiguous(rows, port)
  {
    hide Ambiguous;
    if rows == [] {
      assert !Ambiguous(rows, port) by {
        NoneAmbiguous(port);
      }
    } else {
      var init, last := rows[..|rows| - 1], rows[|rows| - 1];
      LabellingsAgree(init, port);
      assert rows == init + [last];
      AmbiguousSnoc(init, last, port);
      LabelsAgree(last, port);
      LastsAgree(init, last, port);
    }
  }

  lemma {:induction false} EventsHoldBytes(segs: seq<Segment>)
    requires forall i :: 0 <= i < |segs| ==> segs[i].data != []
    requires PolicyRun(segs).Ok?
    ensures forall i :: 0 <= i < |PolicyRun(segs).value.events| ==> PolicyRun(segs).value.events[i].payload != []
  {
    if segs != [] {
      EventsHoldBytes(segs[..|segs| - 1]);
    }
  }

  lemma {:induction false} SomethingCoalesced(events: seq<WireEvent>)
    requires forall i :: 0 <= i < |events| ==> events[i].payload != []
    ensures Coalesce(EventChunks(events)) == [] <==> events == []
  {
    if events != [] {
      CoalesceOneMore(events[..|events| - 1], events[|events| - 1]);
      assert events == events[..|events| - 1] + [events[|events| - 1]];
    }
  }

  /**
   * From the rows to the result: on the rows of one stream, none of them ambiguous, both extractors succeed
   * together, and coalescing the policy's events gives exactly the MinARX chunks.
   */
  lemma ExtractionsAgree(rows: seq<Row>, port: nat)
    requires |StreamsSeen(rows, port)| <= 1 && !Ambiguous(rows, port)
    ensures PolicyExtracted(rows, port).Ok? <==> Extracted(rows, port).Ok?
    ensures PolicyExtracted(rows, port).Ok? ==>
              Coalesce(EventChunks(PolicyExtracted(rows, port).value)) == Extracted(rows, port).value
    ensures PolicyExtracted(rows, port).Err? ==>
              PolicyExtracted(rows, port) == Err(RuntimeError) && Extracted(rows, port) == Err(PcapError)
  {
    hide PolicyRun, DedupRun, Coalesce, EventChunks, Labelled, PolicyLabelled, Ambiguous, StreamsSeen;
    var segs := Labelled(rows, port);
    LabellingsAgree(rows, port);
    ExtractorsAgree(segs);
    if PolicyRun(segs).Ok? {
      EventsHoldBytes(segs);
      SomethingCoalesced(PolicyRun(segs).value.events);
    }
  }

  /** The other direction; below, segments, chunks and states of the de-duplication with directions exchanged. */
  function Turned(d: Direction): Direction {
    1 - d
  }

  function TurnedSegments(segs: seq<Segment>): (turned: seq<Segment>)
    ensures |turned| == |segs|
    ensures forall i :: 0 <= i < |segs| ==>
              turned[i] == Segment(Turned(segs[i].direction), segs[i].sequence, segs[i].data)
  {
    seq(|segs|, i requires 0 <= i < |segs| => Segment(Turned(segs[i].direction), segs[i].sequence, segs[i].data))
  }

  function TurnedChunks(chunks: seq<Chunk>): (turned: seq<Chunk>)
    ensures |turned| == |chunks|
    ensures forall i :: 0 <= i < |chunks| ==> turned[i] == Chunk(Turned(chunks[i].direction), chunks[i].data)
  {
    seq(|chunks|, i requires 0 <= i < |chunks| => Chunk(Turned(chunks[i].direction), chunks[i].data))
  }

  function TurnedState(s: Dedup): (t: Dedup)
    requires |s.next| == 2
    ensures |t.next| == 2
  {
    Dedup([s.next[1], s.next[0]], TurnedChunks(s.chunks))
  }

  lemma TurnedAppend(chunks: seq<Chunk>, d: Direction, data: Octets)
    ensures TurnedChunks(AppendPayload(chunks, d, data)) == AppendPayload(TurnedChunks(chunks), Turned(d), data)
  {
  }

  lemma TurnedStep(s: Dedup, seg: Segment, turned: Segment)
    requires |s.next| == 2 && turned == Segment(Turned(seg.direction), seg.sequence, seg.data)
    ensures DedupStep(s, seg).Ok? <==> DedupStep(TurnedState(s), turned).Ok?
    ensures DedupStep(s, seg).Ok? ==>
              DedupStep(TurnedState(s), turned) == Ok(TurnedState(DedupStep(s, seg).value))
  {
    hide AppendPayload, TurnedChunks;
    var t, d := TurnedState(s), seg.direction;
    var expected := if s.next[d].Some? then s.next[d].value else seg.sequence;
    assert t.next[Turned(d)] == s.next[d];
    if seg.sequence <= expected && expected - seg.sequence < |seg.data| {
      var novel := Skip(seg.data, expected - seg.sequence);
      var next := Some(expected + |novel|);
      TurnedAppend(s.chunks, d, novel);
      assert t.next[Turned(d) := next] == [s.next[d := next][1], s.next[d := next][0]];
    }
  }

  /** De-duplication treats both directions alike. */
  lemma {:induction false} TurnedRun(segs: seq<Segment>)
    ensures DedupRun(START, segs).Ok? <==> DedupRun(START, TurnedSegments(segs)).Ok?
    ensures DedupRun(START, segs).Ok? ==>
              DedupRun(START, TurnedSegments(segs)) == Ok(TurnedState(DedupRun(START, segs).value))
  {
    hide DedupStep;
    var turned := TurnedSegments(segs);
    if segs == [] {
      assert TurnedChunks([]) == [];
    } else {
      var init := segs[..|segs| - 1];
      TurnedRun(init);
      assert turned[..|turned| - 1] == TurnedSegments(init);
      if DedupRun(START, init).Ok? {
        TurnedStep(DedupRun(START, init).value, segs[|segs| - 1], turned[|turned| - 1]);
      }
    }
  }

  /** All rows belong to one connection: between its two ports, one way or the other. */
  ghost predicate OneConnection(rows: seq<Row>, a: nat, b: nat) {
    forall i :: 0 <= i < |rows| ==>
      (rows[i].source == a && rows[i].destination == b) || (rows[i].source == b && rows[i].destination == a)
  }

  /** Where both ports are the server's the two implementations label every segment oppositely. */
  lemma {:induction false} OppositeLabels(rows: seq<Row>, port: nat)
    requires OneConnection(rows, port, port)
    ensures PolicyLabelled(rows, port) == TurnedSegments(Labelled(rows, port))
  {
    if rows != [] {
      var init, last := rows[..|rows| - 1], rows[|rows| - 1];
      OppositeLabels(init, port);
      assert last.source == last.destination == port;
    }
  }

  /** Then both still refuse the same captures, and on any other the chunks differ. */
  lemma OppositeExtractions(rows: seq<Row>, port: nat)
    requires |StreamsSeen(rows, port)| <= 1 && OneConnection(rows, port, port)
    ensures PolicyExtracted(rows, port).Ok? <==> Extracted(rows, port).Ok?
    ensures PolicyExtracted(rows, port).Ok? ==>
              Coalesce(EventChunks(PolicyExtracted(rows, port).value)) != Extracted(rows, port).value
  {
    hide PolicyRun, DedupRun, Coalesce, EventChunks, Labelled, PolicyLabelled, StreamsSeen, OneConnection;
    var segs := Labelled(rows, port);
    OppositeLabels(rows, port);
    TurnedRun(segs);
    ExtractorsAgree(TurnedSegments(segs));
    if PolicyRun(TurnedSegments(segs)).Ok? {
      var chunks := DedupRun(START, segs).value.chunks;
      EventsHoldBytes(TurnedSegments(segs));
      SomethingCoalesced(PolicyRun(TurnedSegments(segs)).value.events);
      if chunks != [] {
        assert TurnedChunks(chunks)[0].direction != chunks[0].direction;
      }
    }
  }

  lemma AmbiguousConnection(rows: seq<Row>, port: nat, a: nat, b: nat)
    requires OneConnection(rows, a, b) && Ambiguous(rows, port)
    ensures a == b == port
  {
  }

  /**
   * On the rows of one connection both extractors succeed together, and give the same chunks exactly when no row is
   * ambiguous or both refuse.
   */
  lemma ExtractionsAgreeExactly(rows: seq<Row>, port: nat, a: nat, b: nat)
    requires |StreamsSeen(rows, port)| <= 1 && OneConnection(rows, a, b)
    ensures PolicyExtracted(rows, port).Ok? <==> Extracted(rows, port).Ok?
    ensures (PolicyExtracted(rows, port).Ok? ==>
               Coalesce(EventChunks(PolicyExtracted(rows, port).value)) == Extracted(rows, port).value)
            <==> !Ambiguous(rows, port) || Extracted(rows, port).Err?
  {
    hide PolicyExtracted, Extracted, Coalesce, EventChunks, StreamsSeen, Ambiguous, OneConnection;
    if Ambiguous(rows, port) {
      AmbiguousConnection(rows, port, a, b);
      OppositeExtractions(rows, port);
    } else {
      ExtractionsAgree(rows, port);
    }
  }

  // ----- The second synthesis

  const POLICY_PIECE: nat := 1200
  const CLIENT_FIRST: nat := 1000
  const SERVER_FIRST: nat := 5000

  const SYN: Byte := 0x02
  const SYN_ACK: Byte := 0x12
  const ACK: Byte := 0x10
  const PSH_ACK: Byte := 0x18

  datatype Packet = Packet(direction: Direction, sequence: int, acknowledgement: int, flags: Byte, identity: nat,
      payload: Octets)

  /** The three packets of the connection's opening; each SYN consumes one sequence number. */
  function Opening(): seq<Packet> {
    [Packet(0, CLIENT_FIRST, 0, SYN, 1, []),
     Packet(1, SERVER_FIRST, CLIENT_FIRST + 1, SYN_ACK, 2, []),
     Packet(0, CLIENT_FIRST + 1, SERVER_FIRST + 1, ACK, 3, [])]
  }

  function DataStart(): (start: seq<nat>)
    ensures |start| == 2
  {
    [CLIENT_FIRST + 1, SERVER_FIRST + 1]
  }

  /** Data packet i: the trace's segment, acknowledging everything the other direction has sent before it. */
  function DataPacket(segs: seq<Segment>, i: nat): Packet
    requires i < |segs|
  {
    var d := segs[i].direction;
    Packet(d, segs[i].sequence, DataStart()[1 - d] + |SegmentBytes(segs[..i], 1 - d)|, PSH_ACK, 4 + i, segs[i].data)
  }

  function DataPackets(segs: seq<Segment>): (packets: seq<Packet>)
    ensures |packets| == |segs|
    ensures forall i :: 0 <= i < |segs| ==> packets[i] == DataPacket(segs, i)
  {
    seq(|segs|, i requires 0 <= i < |segs| => DataPacket(segs, i))
  }

  predicate AllPackable(packets: seq<Packet>) {
    forall i :: 0 <= i < |packets| ==>
      packets[i].sequence < SEQUENCE_LIMIT && packets[i].acknowledgement < SEQUENCE_LIMIT
  }

  function PolicyTrace(events: seq<WireEvent>): seq<Segment> {
    Trace(EventChunks(events), DataStart(), POLICY_PIECE)
  }

  lemma PolicyTraceIs(events: seq<WireEvent>)
    ensures PolicyTrace(events) == Trace(EventChunks(events), [1001, 5001], 1200)
  {
    hide Trace, EventChunks;
  }

  /** The writer's counters, tied to the segments written so far. */
  ghost predicate Written(done: seq<Segment>, written: seq<Packet>, clientSequence: nat, serverSequence: nat,
      identity: nat) {
    && written == Opening() + DataPackets(done) && AllPackable(written)
    && clientSequence == DataStart()[0] + |SegmentBytes(done, 0)|
    && serverSequence == DataStart()[1] + |SegmentBytes(done, 1)|
    && identity == 4 + |done|
  }

  lemma NothingWritten()
    ensures Written([], Opening(), CLIENT_FIRST + 1, SERVER_FIRST + 1, 4)
    ensures PolicyTrace([]) == []
  {
    assert Opening() + DataPackets([]) == Opening();
  }

  lemma PolicyTraceStep(events: seq<WireEvent>, i: nat, clientSequence: nat, serverSequence: nat)
    requires i < |events|
    requires clientSequence == DataStart()[0] + |SegmentBytes(PolicyTrace(events[..i]), 0)|
    requires serverSequence == DataStart()[1] + |SegmentBytes(PolicyTrace(events[..i]), 1)|
    ensures PolicyTrace(events[..i + 1])
            == PolicyTrace(events[..i])
               + PieceSegments(if events[i].toServer then 0 else 1,
                               if events[i].toServer then clientSequence else serverSequence, events[i].payload,
                               POLICY_PIECE)
  {
    hide PieceSegments, SegmentBytes, Trace;
    assert events[..i + 1][..i] == events[..i];
    var chunks := EventChunks(events[..i + 1]);
    assert chunks[..|chunks| - 1] == EventChunks(events[..i]);
    TraceSnoc(chunks, DataStart(), POLICY_PIECE);
    TraceCarriesStreams(EventChunks(events[..i]), DataStart(), POLICY_PIECE);
    assert SegmentBytes(PolicyTrace(events[..i]), 0) == StreamOf(EventChunks(events[..i]), 0);
    assert SegmentBytes(PolicyTrace(events[..i]), 1) == StreamOf(EventChunks(events[..i]), 1);
  }

  lemma NoMorePieces(d: Direction, base: nat, data: Octets)
    ensures data == [] ==> PieceSegments(d, base, data, POLICY_PIECE) == []
    ensures data[0..] == data
  {
  }

  lemma PacketsStep(done: seq<Segment>, seg: Segment)
    ensures DataPackets(done + [seg]) == DataPackets(done) + [DataPacket(done + [seg], |done|)]
  {
    hide SegmentBytes;
    var all := done + [seg];
    forall i | 0 <= i < |done|
      ensures DataPacket(all, i) == DataPacket(done, i)
    {
      assert all[..i] == done[..i];
    }
  }

  lemma WrittenStep(done: seq<Segment>, written: seq<Packet>, clientSequence: nat, serverSequence: nat,
      identity: nat, seg: Segment)
    requires Written(done, written, clientSequence, serverSequence, identity)
    requires seg.sequence == if seg.direction == 0 then clientSequence else serverSequence
    ensures var acknowledgement := if seg.direction == 0 then serverSequence else clientSequence;
            var packet := Packet(seg.direction, seg.sequence, acknowledgement, PSH_ACK, identity, seg.data);
            && DataPacket(done + [seg], |done|) == packet
            && (seg.sequence < SEQUENCE_LIMIT && acknowledgement < SEQUENCE_LIMIT ==>
                  Written(done + [seg], written + [packet],
                          if seg.direction == 0 then clientSequence + |seg.data| else clientSequence,
                          if seg.direction == 0 then serverSequence else serverSequence + |seg.data|, identity + 1))
  {
    PacketsStep(done, seg);
    assert (done + [seg])[..|done|] == done;
    hide DataPackets;
    var packet := DataPacket(done + [seg], |done|);
    assert (Opening() + DataPackets(done)) + [packet] == Opening() + (DataPackets(done) + [packet]);
  }

  lemma NeverPackable(done: seq<Segment>, rest: seq<Segment>)
    requires done != []
    requires var p := DataPacket(done, |done| - 1); p.sequence >= SEQUENCE_LIMIT || p.acknowledgement >= SEQUENCE_LIMIT
    ensures !AllPackable(Opening() + DataPackets(done + rest))
  {
    hide SegmentBytes;
    var k := |done| - 1;
    assert (done + rest)[..k] == done[..k];
    assert DataPacket(done + rest, k) == DataPacket(done, k);
    var all := Opening() + DataPackets(done + rest);
    assert all[3 + k] == DataPacket(done, k);
  }

  lemma LongerStaysUnpackable(shorter: seq<Segment>, longer: seq<Segment>)
    requires shorter <= longer && !AllPackable(Opening() + DataPackets(shorter))
    ensures !AllPackable(Opening() + DataPackets(longer))
  {
    hide SegmentBytes;
    var few, many := Opening() + DataPackets(shorter), Opening() + DataPackets(longer);
    var k :| 0 <= k < |few| && !(few[k].sequence < SEQUENCE_LIMIT && few[k].acknowledgement < SEQUENCE_LIMIT);
    if k >= 3 {
      assert shorter[..k - 3] == longer[..k - 3];
      assert few[k] == DataPacket(shorter, k - 3) == DataPacket(longer, k - 3) == many[k];
    }
  }

  lemma {:induction false} TraceContinues(events: seq<WireEvent>, i: nat, shorter: seq<Segment>)
    requires i <= |events| && shorter == PolicyTrace(events[..i])
    requires !AllPackable(Opening() + DataPackets(shorter))
    ensures !AllPackable(Opening() + DataPackets(PolicyTrace(events)))
    decreases |events| - i
  {
    hide PolicyTrace, SegmentBytes, PieceSegments;
    if i == |events| {
      assert events[..i] == events;
    } else {
      PolicyTraceStep(events, i, DataStart()[0] + |SegmentBytes(shorter, 0)|,
          DataStart()[1] + |SegmentBytes(shorter, 1)|);
      var longer := PolicyTrace(events[..i + 1]);
      LongerStaysUnpackable(shorter, longer);
      TraceContinues(events, i + 1, longer);
    }
  }

  /** _write_tcp_pcap; packing a header refuses a sequence or acknowledgement number over 32 bits. */
  method WriteTcpPcap(events: seq<WireEvent>) returns (r: Result<seq<Packet>>)
    ensures var all := Opening() + DataPackets(PolicyTrace(events));
            r == if AllPackable(all) then Ok(all) else Err(StructError)
  {
    hide PolicyTrace, DataPackets, SegmentBytes, PieceSegments, AllPackable;
    var written := Opening();
    var clientSequence: nat, serverSequence: nat := CLIENT_FIRST + 1, SERVER_FIRST + 1;
    var identity: nat := 4;
    ghost var done: seq<Segment> := [];
    NothingWritten();
    for i := 0 to |events|
      invariant Written(done, written, clientSequence, serverSequence, identity)
      invariant done == PolicyTrace(events[..i])
    {
      var event := events[i];
      ghost var d: Direction := if event.toServer then 0 else 1;
      ghost var before, base := done, if event.toServer then clientSequence else serverSequence;
      PolicyTraceStep(events, i, clientSequence, serverSequence);
      var offset := 0;
      NoMorePieces(d, base, event.payload);
      while offset < |event.payload|
        invariant 0 <= offset <= |event.payload|
        invariant Written(done, written, clientSequence, serverSequence, identity)
        invariant (if event.toServer then clientSequence else serverSequence) == base + offset
        invariant done + PieceSegments(d, base + offset, event.payload[offset..], POLICY_PIECE)
                  == before + PieceSegments(d, base, event.payload, POLICY_PIECE)
      {
        var end := if offset + POLICY_PIECE <= |event.payload| then offset + POLICY_PIECE else |event.payload|;
        var chunk := event.payload[offset..end];
        var sequence := if event.toServer then clientSequence else serverSequence;
        var acknowledgement := if event.toServer then serverSequence else clientSequence;
        NextPiece(d, base, event.payload, offset, POLICY_PIECE);
        ghost var seg := Segment(d, sequence, chunk);
        WrittenStep(done, written, clientSequence, serverSequence, identity, seg);
        ghost var rest := PieceSegments(d, base + end, event.payload[end..], POLICY_PIECE);
        assert done + ([seg] + rest) == (done + [seg]) + rest;
        done := done + [seg];
        if sequence >= SEQUENCE_LIMIT || acknowledgement >= SEQUENCE_LIMIT {
          NeverPackable(done, rest);
          TraceContinues(events, i + 1, done + rest);
          return Err(StructError);
        }
        written := written + [Packet(if event.toServer then 0 else 1, sequence, acknowledgement, PSH_ACK, identity,
            chunk)];
        identity := identity + 1;
        if event.toServer {
          clientSequence := clientSequence + |chunk|;
        } else {
          serverSequence := serverSequence + |chunk|;
        }
        offset := end;
      }
      NoMorePieces(d, base + offset, event.payload[offset..]);
      assert done + [] == done;
    }
    assert events[..|events|] == events;
    return Ok(written);
  }

  /**
   * The packets of the written capture: the opening from initial numbers 1000 and 5000, then the payload of both
   * directions in pieces of at most 1200 bytes, each numbered by the bytes its direction sent before, acknowledging
   * all that the other one did, with the flags PSH and ACK and the next identification.
   */
  lemma {:induction false} PolicyPacketsExactly(events: seq<WireEvent>, i: nat)
    requires i < |PolicyTrace(events)|
    ensures Opening() == [Packet(0, 1000, 0, 0x02, 1, []), Packet(1, 5000, 1001, 0x12, 2, []),
                          Packet(0, 1001, 5001, 0x10, 3, [])]
    ensures var segs := PolicyTrace(events);
            var p := DataPackets(segs)[i];
            var mine, other := |SegmentBytes(segs[..i], p.direction)|, |SegmentBytes(segs[..i], 1 - p.direction)|;
            && p == Packet(segs[i].direction, p.sequence, p.acknowledgement, 0x18, 4 + i, segs[i].data)
            && p.sequence == (if p.direction == 0 then 1001 else 5001) + mine
            && p.acknowledgement == (if p.direction == 0 then 5001 else 1001) + other
            && 0 < |p.payload| <= 1200
    ensures forall d: Direction :: SegmentBytes(PolicyTrace(events), d) == StreamOf(EventChunks(events), d)
  {
    hide PolicyTrace, SegmentBytes, StreamOf;
    PolicyTraceIs(events);
    TraceCarriesStreams(EventChunks(events), DataStart(), POLICY_PIECE);
  }

  /**
   * The policy's own trace is sound: its sequence numbers count the bytes sent before in each direction, and
   * observing its segments again, by either extractor, gives the events back up to coalescing.
   */
  lemma PolicyTraceIsSound(events: seq<WireEvent>)
    ensures Sequenced(PolicyTrace(events), DataStart(), POLICY_PIECE)
    ensures PolicyRun(PolicyTrace(events)).Ok?
    ensures Coalesce(EventChunks(PolicyRun(PolicyTrace(events)).value.events)) == Coalesce(EventChunks(events))
    ensures DedupRun(START, PolicyTrace(events)).Ok?
    ensures DedupRun(START, PolicyTrace(events)).value.chunks == Coalesce(EventChunks(events))
  {
    hide PolicyRun, DedupRun, Coalesce, EventChunks;
    TraceCarriesStreams(EventChunks(events), DataStart(), POLICY_PIECE);
    TraceObserved(EventChunks(events), DataStart(), POLICY_PIECE);
    ExtractorsAgree(PolicyTrace(events));
  }
}
