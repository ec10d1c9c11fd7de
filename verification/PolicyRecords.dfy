/**
 * The policy archive's own TLS record splitter (_tls_record_events in archive_policy.py), and when it agrees with
 * split_tls_records.
 */
module PolicyRecords {
  import opened Bytes
  import opened Chunks
  import opened TlsRecords
  import opened PolicyArchive

  /** A header the policy splitter takes for TLS: content types 20 to 24, major version 3. */
  predicate TlsHeader(buf: Octets) {
    |buf| >= 2 && 20 <= buf[0] < 25 && buf[1] == 3
  }

  /** Complete records as they stand on the wire, and the bytes left pending. */
  type Pieces = Leading<Octets, Octets>

  function PolicyDrain(buf: Octets): Result<Pieces>
    decreases |buf|
  {
    if |buf| < 5 then Ok(Leading([], buf))
    else if !TlsHeader(buf) || DeclaredLength(buf) > MAX_RECORD_LENGTH then Err(RuntimeError)
    else
      var total := 5 + DeclaredLength(buf);
      if |buf| < total then Ok(Leading([], buf))
      else Prepend([buf[..total]], PolicyDrain(buf[total..]))
  }

  lemma PolicyDrainStep(buf: Octets)
    ensures PolicyDrain(buf) ==
            if |buf| < 5 then Ok(Leading([], buf))
            else if !TlsHeader(buf) || DeclaredLength(buf) > MAX_RECORD_LENGTH then Err(RuntimeError)
            else
              var total := 5 + DeclaredLength(buf);
              if |buf| < total then Ok(Leading([], buf))
              else Prepend([buf[..total]], PolicyDrain(buf[total..]))
  {
  }

  /** Draining in pieces is draining at once, and an error is never repaired. */
  lemma {:induction false} PolicyDrainAppend(a: Octets, b: Octets)
    ensures PolicyDrain(a).Err? ==> PolicyDrain(a) == PolicyDrain(a + b) == Err(RuntimeError)
    ensures PolicyDrain(a).Ok? ==>
              PolicyDrain(a + b) == Prepend(PolicyDrain(a).value.items, PolicyDrain(PolicyDrain(a).value.rest + b))
    decreases |a|
  {
    hide PolicyDrain, Prepend, BigEndian;
    PolicyDrainStep(a);
    if |a| < 5 {
      PrependTwice([], [], PolicyDrain(a + b));
    } else {
      assert (a + b)[3..5] == a[3..5];
      PolicyDrainStep(a + b);
      if TlsHeader(a) && DeclaredLength(a) <= MAX_RECORD_LENGTH {
        var total := 5 + DeclaredLength(a);
        if |a| < total {
          PrependTwice([], [], PolicyDrain(a + b));
        } else {
          assert (a + b)[..total] == a[..total] && (a + b)[total..] == a[total..] + b;
          PolicyDrainAppend(a[total..], b);
          var later := PolicyDrain(a[total..]);
          PrependFields([a[..total]], later);
          PrependFields([a[..total]], PolicyDrain(a[total..] + b));
          if later.Ok? {
            PrependTwice([a[..total]], later.value.items, PolicyDrain(later.value.rest + b));
          }
        }
      }
    }
  }

  // ----- Both directions, event by event

  datatype Progress = Progress(records: seq<WireEvent>, pending: seq<Octets>)

  function Labelled(d: Direction, records: seq<Octets>): (events: seq<WireEvent>)
    ensures |events| == |records| && forall i :: 0 <= i < |records| ==> events[i] == WireEvent(d == 0, records[i])
  {
    seq(|records|, i requires 0 <= i < |records| => WireEvent(d == 0, records[i]))
  }

  function ProgressStep(p: Progress, chunk: Chunk): (r: Result<Progress>)
    requires |p.pending| == 2
    ensures r.Ok? ==> |r.value.pending| == 2
  {
    var t :- PolicyDrain(p.pending[chunk.direction] + chunk.data);
    Ok(Progress(p.records + Labelled(chunk.direction, t.items), p.pending[chunk.direction := t.rest]))
  }

  function ProgressAfter(chunks: seq<Chunk>): (r: Result<Progress>)
    ensures r.Ok? ==> |r.value.pending| == 2
  {
    if chunks == [] then Ok(Progress([], [[], []]))
    else
      var p :- ProgressAfter(chunks[..|chunks| - 1]);
      ProgressStep(p, chunks[|chunks| - 1])
  }

  /** The records of both directions in completion order, before any pruning. */
  function RecordEvents(events: seq<WireEvent>): Result<seq<WireEvent>> {
    var p :- ProgressAfter(EventChunks(events));
    if p.pending[0] != [] || p.pending[1] != [] then Err(RuntimeError)
    else if p.records == [] then Err(RuntimeError)
    else Ok(p.records)
  }

  lemma ProgressNext(events: seq<WireEvent>, i: nat)
    requires i < |events|
    ensures EventChunks(events[..i + 1]) == EventChunks(events[..i]) + [EventChunk(events[i])]
    ensures ProgressAfter(EventChunks(events[..i + 1])) ==
            var p := ProgressAfter(EventChunks(events[..i]));
            if p.Err? then Err(p.error) else ProgressStep(p.value, EventChunk(events[i]))
  {
    hide ProgressStep;
    assert events[..i + 1][..i] == events[..i];
    var chunks := EventChunks(events[..i + 1]);
    assert chunks[..|chunks| - 1] == EventChunks(events[..i]);
  }

  /** Events after a refused header cannot repair it. */
  lemma {:induction false} ProgressFails(events: seq<WireEvent>, i: nat)
    requires i <= |events| && ProgressAfter(EventChunks(events[..i])) == Err(RuntimeError)
    ensures ProgressAfter(EventChunks(events)) == Err(RuntimeError)
    decreases |events| - i
  {
    if i == |events| {
      assert events[..i] == events;
    } else {
      ProgressNext(events, i);
      ProgressFails(events, i + 1);
    }
  }

  lemma LabelledMore(d: Direction, found: seq<Octets>, record: Octets)
    ensures Labelled(d, found + [record]) == Labelled(d, found) + [WireEvent(d == 0, record)]
    ensures Labelled(d, []) == []
  {
  }

  // ----- Pruning

  datatype Protocol = Tls12 | Tls13 | OtherProtocol

  /** Which capture of which protocol and mode is being archived. */
  datatype Target = Target(protocol: Protocol, mode: Option<string>, archiveIndex: int)

  predicate EarlyData(target: Target) {
    target.protocol.Tls13? && target.mode == Some("0rtt") && target.archiveIndex == 1
  }

  /** The server's alerts and application data are not needed for TLS 1.2, and nothing of its is for early data. */
  predicate Needed(target: Target, record: WireEvent)
    requires record.payload != []
  {
    if target.protocol.Tls12? then record.toServer || record.payload[0] !in {21, 23}
    else if EarlyData(target) then record.toServer
    else true
  }

  ghost predicate AllHoldBytes(records: seq<WireEvent>) {
    forall i :: 0 <= i < |records| ==> records[i].payload != []
  }

  function Kept(target: Target, records: seq<WireEvent>): (kept: seq<WireEvent>)
    requires AllHoldBytes(records)
    ensures AllHoldBytes(kept)
  {
    if records == [] then []
    else
      var last := records[|records| - 1];
      var before := Kept(target, records[..|records| - 1]);
      if Needed(target, last) then before + [last] else before
  }

  /** One side's records, or only those of some content types. */
  function SideOf(records: seq<WireEvent>, toServer: bool, without: set<Byte>): seq<WireEvent>
    requires AllHoldBytes(records)
  {
    if records == [] then []
    else
      var last := records[|records| - 1];
      SideOf(records[..|records| - 1], toServer, without)
      + if last.toServer == toServer && last.payload[0] !in without then [last] else []
  }

  lemma SideSnoc(init: seq<WireEvent>, last: WireEvent, toServer: bool, without: set<Byte>)
    requires AllHoldBytes(init) && last.payload != []
    ensures AllHoldBytes(init + [last])
    ensures SideOf(init + [last], toServer, without) ==
            if last.toServer == toServer && last.payload[0] !in without then SideOf(init, toServer, without) + [last]
            else SideOf(init, toServer, without)
  {
    assert (init + [last])[..|init|] == init;
  }

  lemma NoSide()
    ensures forall toServer, without :: SideOf([], toServer, without) == []
  {
  }

  /**
   * Pruning never drops a client record. Of the server's it drops the alerts and the application data for TLS 1.2,
   * everything for early data, and nothing otherwise; the order stays.
   */
  lemma {:induction false} PruningExactly(target: Target, records: seq<WireEvent>)
    requires AllHoldBytes(records)
    ensures var kept := Kept(target, records);
            var early := target.protocol.Tls13? && target.mode == Some("0rtt") && target.archiveIndex == 1;
            && SideOf(kept, true, {}) == SideOf(records, true, {})
            && (target.protocol.Tls12? ==> SideOf(kept, false, {}) == SideOf(records, false, {21, 23}))
            && (early ==> SideOf(kept, false, {}) == [])
            && (!target.protocol.Tls12? && !early ==> kept == records)
  {
    hide SideOf;
    if records == [] {
      NoSide();
    } else {
      var init, last := records[..|records| - 1], records[|records| - 1];
      PruningExactly(target, init);
      assert records == init + [last];
      SideSnoc(init, last, true, {});
      SideSnoc(init, last, false, {21, 23});
      if Needed(target, last) {
        SideSnoc(Kept(target, init), last, true, {});
        SideSnoc(Kept(target, init), last, false, {});
      }
    }
  }

  lemma KeptSnoc(target: Target, init: seq<WireEvent>, last: WireEvent)
    requires AllHoldBytes(init) && last.payload != []
    ensures AllHoldBytes(init + [last]) && Kept(target, []) == []
    ensures Kept(target, init + [last]) == Kept(target, init) + if Needed(target, last) then [last] else []
  {
    hide Needed;
    assert (init + [last])[..|init|] == init;
  }

  lemma KeptNothing(target: Target, records: seq<WireEvent>)
    requires records == []
    ensures AllHoldBytes(records) && Kept(target, records) == []
  {
  }

  lemma BytesHeld(records: seq<WireEvent>)
    requires records != [] && AllHoldBytes(records)
    ensures AllHoldBytes(records[..|records| - 1]) && records[|records| - 1].payload != []
  {
  }

  /** Pruning a list is pruning its parts: each record is kept or not by itself, and the order of both sides stays. */
  lemma {:induction false} PruningInOrder(target: Target, a: seq<WireEvent>, b: seq<WireEvent>)
    requires AllHoldBytes(a) && AllHoldBytes(b)
    ensures AllHoldBytes(a + b) && Kept(target, a + b) == Kept(target, a) + Kept(target, b)
    ensures |b| == 1 ==> Kept(target, b) == if Needed(target, b[0]) then b else []
  {
    hide Needed, Kept, AllHoldBytes;
    if b == [] {
      assert a + b == a;
      KeptNothing(target, b);
      assert Kept(target, a) + [] == Kept(target, a);
    } else {
      var init, last := b[..|b| - 1], b[|b| - 1];
      BytesHeld(b);
      PruningInOrder(target, a, init);
      assert (a + init) + [last] == a + b && init + [last] == b;
      KeptSnoc(target, a + init, last);
      KeptSnoc(target, init, last);
    }
  }

  lemma {:induction false} DrainedHoldBytes(buf: Octets)
    requires PolicyDrain(buf).Ok?
    ensures forall i :: 0 <= i < |PolicyDrain(buf).value.items| ==> PolicyDrain(buf).value.items[i] != []
    decreases |buf|
  {
    hide PolicyDrain, BigEndian;
    PolicyDrainStep(buf);
    if |buf| >= 5 && |buf| >= 5 + DeclaredLength(buf) {
      var total := 5 + DeclaredLength(buf);
      DrainedHoldBytes(buf[total..]);
      assert |buf[..total]| >= 5;
    }
  }

  lemma {:induction false} ProgressHoldsBytes(chunks: seq<Chunk>)
    requires ProgressAfter(chunks).Ok?
    ensures AllHoldBytes(ProgressAfter(chunks).value.records)
  {
    hide PolicyDrain;
    if chunks != [] {
      var p := ProgressAfter(chunks[..|chunks| - 1]).value;
      var last := chunks[|chunks| - 1];
      ProgressHoldsBytes(chunks[..|chunks| - 1]);
      DrainedHoldBytes(p.pending[last.direction] + last.data);
    }
  }

  /** A complete record holds at least its header. */
  lemma RecordsHoldBytes(events: seq<WireEvent>)
    requires RecordEvents(events).Ok?
    ensures AllHoldBytes(RecordEvents(events).value)
  {
    ProgressHoldsBytes(EventChunks(events));
  }

  /** What _tls_record_events returns. */
  function NeededRecords(events: seq<WireEvent>, target: Target): Result<seq<WireEvent>> {
    var records :- RecordEvents(events);
    RecordsHoldBytes(events);
    Ok(Kept(target, records))
  }

  lemma NoEvents(events: seq<WireEvent>)
    ensures ProgressAfter(EventChunks(events[..0])) == Ok(Progress([], [[], []]))
  {
  }

  /** An event whose bytes are refused is the result. */
  lemma EventRefused(events: seq<WireEvent>, i: nat, before: Progress)
    requires i < |events| && |before.pending| == 2
    requires ProgressAfter(EventChunks(events[..i])) == Ok(before)
    requires PolicyDrain(before.pending[EventChunk(events[i]).direction] + events[i].payload) == Err(RuntimeError)
    ensures RecordEvents(events) == Err(RuntimeError)
  {
    hide PolicyDrain, Labelled, EventChunks, ProgressAfter;
    ProgressNext(events, i);
    ProgressFails(events, i + 1);
  }

  /** An event whose bytes drain to the records found moves both lists on. */
  lemma EventDrained(events: seq<WireEvent>, i: nat, before: Progress, found: seq<Octets>, pending: Octets)
    requires i < |events| && |before.pending| == 2
    requires ProgressAfter(EventChunks(events[..i])) == Ok(before)
    requires PolicyDrain(before.pending[EventChunk(events[i]).direction] + events[i].payload)
        == Ok(Leading(found, pending))
    ensures var d := EventChunk(events[i]).direction;
            ProgressAfter(EventChunks(events[..i + 1]))
            == Ok(Progress(before.records + Labelled(d, found), before.pending[d := pending]))
  {
    hide PolicyDrain, Labelled, EventChunks, ProgressAfter;
    ProgressNext(events, i);
  }

  /** The loop of _tls_record_events: every complete record, before pruning. */
  method CompleteRecords(events: seq<WireEvent>) returns (r: Result<seq<WireEvent>>)
    ensures r == RecordEvents(events)
  {
    hide PolicyDrain, Prepend, Labelled, BigEndian, EventChunks, ProgressAfter, TlsHeader, DeclaredLength;
    var buffers: seq<Octets> := [[], []];
    var records: seq<WireEvent> := [];
    NoEvents(events);
    for i := 0 to |events|
      invariant |buffers| == 2
      invariant ProgressAfter(EventChunks(events[..i])) == Ok(Progress(records, buffers))
    {
      var d := EventChunk(events[i]).direction;
      var pending := buffers[d] + events[i].payload;
      ghost var before := Progress(records, buffers);
      ghost var whole := pending;
      ghost var found: seq<Octets> := [];
      PrependTwice([], [], PolicyDrain(whole));
      LabelledMore(d, [], []);
      assert records + [] == records;
      while |pending| >= 5
        invariant records == before.records + Labelled(d, found)
        invariant PolicyDrain(whole) == Prepend(found, PolicyDrain(pending))
        decreases |pending|
      {
        PolicyDrainStep(pending);
        PrependFields<Octets, Octets>(found, Err(RuntimeError));
        if !TlsHeader(pending) || DeclaredLength(pending) > MAX_RECORD_LENGTH {
          EventRefused(events, i, before);
          return Err(RuntimeError);
        }
        var total := 5 + DeclaredLength(pending);
        if |pending| < total {
          break;
        }
        PrependTwice(found, [pending[..total]], PolicyDrain(pending[total..]));
        LabelledMore(d, found, pending[..total]);
        records := records + [WireEvent(events[i].toServer, pending[..total])];
        found := found + [pending[..total]];
        pending := pending[total..];
      }
      PolicyDrainStep(pending);
      PrependNone(found, pending);
      EventDrained(events, i, before, found, pending);
      buffers := buffers[d := pending];
    }
    assert events[..|events|] == events;
    if buffers[0] != [] || buffers[1] != [] {
      return Err(RuntimeError);
    }
    if records == [] {
      return Err(RuntimeError);
    }
    return Ok(records);
  }

  /** _tls_record_events */
  method TlsRecordEvents(events: seq<WireEvent>, target: Target) returns (r: Result<seq<WireEvent>>)
    ensures r == NeededRecords(events, target)
  {
    var records :- CompleteRecords(events);
    RecordsHoldBytes(events);
    return Ok(Kept(target, records));
  }

  // ----- Agreement with split_tls_records

  predicate Typed(r: Record) {
    20 <= r.contentType < 25 && r.version != [] && r.version[0] == 3
  }

  ghost predicate AllTyped(records: seq<Record>) {
    forall i :: 0 <= i < |records| ==> Typed(records[i])
  }

  /** The same records, one list as wire bytes, the other taken apart. */
  ghost predicate SameRecords(pieces: seq<Octets>, records: seq<Record>) {
    && |pieces| == |records|
    && forall i :: 0 <= i < |records| ==>
         WellFormed(records[i]) && Typed(records[i]) && pieces[i] == Serialise(records[i])
  }

  lemma SameFirst(piece: Octets, r: Record, pieces: seq<Octets>, records: seq<Record>)
    requires WellFormed(r) && Typed(r) && piece == Serialise(r) && SameRecords(pieces, records)
    ensures SameRecords([piece] + pieces, [r] + records)
  {
    hide WellFormed, Typed, Serialise;
  }

  lemma FrontIsTyped(d: Direction, buf: Octets)
    requires |buf| >= 5 && |buf| >= 5 + DeclaredLength(buf) && DeclaredLength(buf) <= MAX_RECORD_LENGTH
    ensures Typed(FirstRecord(d, buf)) <==> TlsHeader(buf)
    ensures buf[..5 + DeclaredLength(buf)] == Serialise(FirstRecord(d, buf)) && WellFormed(FirstRecord(d, buf))
  {
    hide BigEndian;
    FirstRecordOnWire(d, buf);
    var total := 5 + DeclaredLength(buf);
    assert (Serialise(FirstRecord(d, buf)) + buf[total..])[..total] == Serialise(FirstRecord(d, buf));
  }

  lemma DrainStep(d: Direction, buf: Octets)
    ensures Drain(d, buf) ==
            if |buf| < 5 then Ok(Leading([], buf))
            else if DeclaredLength(buf) > MAX_RECORD_LENGTH then Err(ValueError)
            else if |buf| < 5 + DeclaredLength(buf) then Ok(Leading([], buf))
            else Prepend([FirstRecord(d, buf)], Drain(d, buf[5 + DeclaredLength(buf)..]))
  {
  }

  lemma NoRecords()
    ensures SameRecords([], [])
  {
  }

  /** What the policy drains, the other splitter drains too. */
  lemma {:induction false} PolicyDrainsRecords(d: Direction, buf: Octets)
    requires PolicyDrain(buf).Ok?
    ensures Drain(d, buf).Ok? && Drain(d, buf).value.rest == PolicyDrain(buf).value.rest
    ensures SameRecords(PolicyDrain(buf).value.items, Drain(d, buf).value.items)
    decreases |buf|
  {
    hide PolicyDrain, Drain, Prepend, BigEndian, SameRecords, TlsHeader;
    PolicyDrainStep(buf);
    DrainStep(d, buf);
    NoRecords();
    if |buf| >= 5 && |buf| >= 5 + DeclaredLength(buf) {
      var total := 5 + DeclaredLength(buf);
      var tail := buf[total..];
      PrependFields([buf[..total]], PolicyDrain(tail));
      PolicyDrainsRecords(d, tail);
      PrependFields([FirstRecord(d, buf)], Drain(d, tail));
      FrontIsTyped(d, buf);
      SameFirst(buf[..total], FirstRecord(d, buf), PolicyDrain(tail).value.items, Drain(d, tail).value.items);
    }
  }

  /** Bytes that are nothing but typed records are drained by the policy. */
  lemma {:induction false} TypedRecordsDrain(d: Direction, buf: Octets)
    requires Drain(d, buf).Ok? && Drain(d, buf).value.rest == [] && AllTyped(Drain(d, buf).value.items)
    ensures PolicyDrain(buf).Ok?
    decreases |buf|
  {
    hide PolicyDrain, Drain, Prepend, BigEndian, TlsHeader, Typed;
    PolicyDrainStep(buf);
    DrainStep(d, buf);
    if |buf| >= 5 {
      var total := 5 + DeclaredLength(buf);
      var tail := buf[total..];
      PrependFields([FirstRecord(d, buf)], Drain(d, tail));
      FrontIsTyped(d, buf);
      var records := Drain(d, buf).value.items;
      assert Typed(records[0]);
      forall i | 0 <= i < |Drain(d, tail).value.items|
        ensures Typed(Drain(d, tail).value.items[i])
      {
        assert Typed(records[i + 1]);
      }
      TypedRecordsDrain(d, tail);
      PrependFields([buf[..total]], PolicyDrain(tail));
    }
  }

  /** The wire form of records, as the policy archive keeps them. */
  function OnWire(records: seq<Record>): (events: seq<WireEvent>)
    requires AllWellFormed(records)
    ensures |events| == |records|
    ensures forall i :: 0 <= i < |records| ==> events[i] == WireEvent(records[i].direction == 0, Serialise(records[i]))
  {
    seq(|records|, i requires 0 <= i < |records| => WireEvent(records[i].direction == 0, Serialise(records[i])))
  }

  /** Both splitters are at the same point. */
  ghost predicate InStep(p: Progress, s: SplitState) {
    && p.pending == s.pending
    && AllWellFormed(s.records) && AllTyped(s.records)
    && p.records == OnWire(s.records)
  }

  lemma InStepNext(p: Progress, s: SplitState, d: Direction, pieces: Pieces, drained: Drained)
    requires InStep(p, s) && |p.pending| == 2 && pieces.rest == drained.rest
    requires SameRecords(pieces.items, drained.items) && DirectionIs(drained.items, d)
    ensures InStep(Progress(p.records + Labelled(d, pieces.items), p.pending[d := pieces.rest]),
                   SplitState(s.records + drained.items, s.pending[d := drained.rest]))
  {
    hide WellFormed, Typed, Serialise;
    var all := s.records + drained.items;
    forall i | 0 <= i < |all|
      ensures WellFormed(all[i]) && Typed(all[i])
    {
      if i >= |s.records| {
        assert all[i] == drained.items[i - |s.records|];
      }
    }
    forall i | 0 <= i < |all|
      ensures (p.records + Labelled(d, pieces.items))[i] == OnWire(all)[i]
    {
      if i >= |s.records| {
        assert all[i] == drained.items[i - |s.records|];
        assert pieces.items[i - |s.records|] == Serialise(all[i]);
      }
    }
  }

  lemma StartInStep()
    ensures InStep(Progress([], [[], []]), SplitState([], [[], []]))
  {
  }

  lemma SamePending(p: Progress, s: SplitState)
    requires InStep(p, s)
    ensures p.pending == s.pending
  {
  }

  lemma {:induction false} SplitKeepsStep(chunks: seq<Chunk>)
    requires ProgressAfter(chunks).Ok?
    ensures SplitPrefix(chunks).Ok? && InStep(ProgressAfter(chunks).value, SplitPrefix(chunks).value)
  {
    hide PolicyDrain, Drain, InStep, Labelled, SameRecords;
    if chunks == [] {
      StartInStep();
    } else {
      var init, last := chunks[..|chunks| - 1], chunks[|chunks| - 1];
      SplitKeepsStep(init);
      var p, s, d := ProgressAfter(init).value, SplitPrefix(init).value, last.direction;
      SamePending(p, s);
      var buf := p.pending[d] + last.data;
      PolicyDrainsRecords(d, buf);
      DrainConserves(d, buf);
      InStepNext(p, s, d, PolicyDrain(buf).value, Drain(d, buf).value);
    }
  }

  lemma StreamExtends(chunks: seq<Chunk>)
    requires chunks != []
    ensures forall d: Direction :: StreamOf(chunks, d) ==
              var init, last := chunks[..|chunks| - 1], chunks[|chunks| - 1];
              if d == last.direction then StreamOf(init, d) + last.data else StreamOf(init, d)
  {
  }

  /** How the policy splitter stands depends only on each direction's bytes so far. */
  lemma {:induction false} PolicyStreams(chunks: seq<Chunk>)
    ensures ProgressAfter(chunks).Ok? ==>
              forall d: Direction :: PolicyDrain(StreamOf(chunks, d)).Ok?
                                     && PolicyDrain(StreamOf(chunks, d)).value.rest
                                     == ProgressAfter(chunks).value.pending[d]
    ensures ProgressAfter(chunks).Err? ==>
              PolicyDrain(StreamOf(chunks, 0)).Err? || PolicyDrain(StreamOf(chunks, 1)).Err?
  {
    hide PolicyDrain, Labelled, Prepend;
    if chunks == [] {
      PolicyDrainStep([]);
    } else {
      var init, last := chunks[..|chunks| - 1], chunks[|chunks| - 1];
      var c := last.direction;
      PolicyStreams(init);
      PolicyDrainAppend(StreamOf(init, c), last.data);
      StreamExtends(chunks);
      if ProgressAfter(init).Ok? {
        var before := PolicyDrain(StreamOf(init, c)).value;
        PrependFields(before.items, PolicyDrain(before.rest + last.data));
      }
    }
  }

  lemma {:induction false} TypedInDirection(records: seq<Record>, d: Direction)
    requires AllTyped(records)
    ensures AllTyped(RecordsOf(records, d))
  {
    hide Typed;
    if records != [] {
      TypedInDirection(records[..|records| - 1], d);
    }
  }

  lemma {:induction false} DrainRefused(buf: Octets)
    ensures PolicyDrain(buf).Err? ==> PolicyDrain(buf) == Err(RuntimeError)
  {
    PolicyDrainAppend(buf, []);
  }

  lemma {:induction false} ProgressRefused(chunks: seq<Chunk>)
    ensures ProgressAfter(chunks).Err? ==> ProgressAfter(chunks) == Err(RuntimeError)
  {
    hide PolicyDrain;
    if chunks != [] {
      var init, last := chunks[..|chunks| - 1], chunks[|chunks| - 1];
      ProgressRefused(init);
      if ProgressAfter(init).Ok? {
        DrainRefused(ProgressAfter(init).value.pending[last.direction] + last.data);
      }
    }
  }

  /**
   * The policy splitter accepts exactly the captures that split_tls_records splits into at least one record, all
   * of a TLS content type and major version, and then keeps those very records in the same order.
   */
  lemma RecordSplittersAgree(events: seq<WireEvent>)
    ensures RecordEvents(events).Ok? <==>
            Split(EventChunks(events)).Ok? && Split(EventChunks(events)).value != []
                && AllTyped(Split(EventChunks(events)).value)
    ensures RecordEvents(events).Ok? ==>
              AllWellFormed(Split(EventChunks(events)).value)
                  && RecordEvents(events).value == OnWire(Split(EventChunks(events)).value)
    ensures RecordEvents(events).Err? ==> RecordEvents(events) == Err(RuntimeError)
  {
    hide ProgressAfter, SplitPrefix, EventChunks, PolicyDrain, Drain, Typed, WellFormed, Serialise;
    var chunks := EventChunks(events);
    ProgressRefused(chunks);
    if ProgressAfter(chunks).Ok? {
      SplitKeepsStep(chunks);
    } else if Split(chunks).Ok? && AllTyped(Split(chunks).value) {
      PolicyStreams(chunks);
      StreamsDecide(chunks);
      var d: Direction :| PolicyDrain(StreamOf(chunks, d)).Err?;
      TypedInDirection(SplitPrefix(chunks).value.records, d);
      TypedRecordsDrain(d, StreamOf(chunks, d));
    }
  }
}
