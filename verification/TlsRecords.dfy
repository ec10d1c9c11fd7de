/** TLS record reassembly (split_tls_records in minarx/protocols/common.py). */
module TlsRecords {
  import opened Bytes
  import opened Chunks

  const MAX_RECORD_LENGTH: nat := 18432

  /** A record as the source keeps it: direction, outer type, the two version octets, and the fragment. */
  datatype Record = Record(direction: Direction, contentType: Byte, version: Octets, fragment: Octets)

  ghost predicate WellFormed(r: Record) {
    |r.version| == 2 && |r.fragment| <= 18432
  }

  ghost predicate AllWellFormed(records: seq<Record>) {
    forall i :: 0 <= i < |records| ==> WellFormed(records[i])
  }

  ghost predicate DirectionIs(records: seq<Record>, d: Direction) {
    forall i :: 0 <= i < |records| ==> records[i].direction == d
  }

  /** The record on the wire (section 6.2.1 of RFC 5246). */
  function Serialise(r: Record): Octets
    requires WellFormed(r)
  {
    [r.contentType] + r.version + U16(|r.fragment|) + r.fragment
  }

  function SerialiseAll(records: seq<Record>): Octets
    requires AllWellFormed(records)
  {
    if records == [] then [] else Serialise(records[0]) + SerialiseAll(records[1..])
  }

  // ----- One direction's buffer

  type Drained = Leading<Record, Octets>

  function DeclaredLength(buf: Octets): nat
    requires |buf| >= 5
  {
    BigEndian(buf[3..5])
  }

  /** The record at the front of a buffer that holds it completely. */
  function FirstRecord(d: Direction, buf: Octets): Record
    requires |buf| >= 5 && |buf| >= 5 + DeclaredLength(buf)
  {
    Record(d, buf[0], buf[1..3], buf[5..5 + DeclaredLength(buf)])
  }

  /** Every complete record at the front of a buffer, and what stays pending. */
  function Drain(d: Direction, buf: Octets): Result<Drained> {
    if |buf| < 5 then Ok(Leading([], buf))
    else if DeclaredLength(buf) > MAX_RECORD_LENGTH then Err(ValueError)
    else if |buf| < 5 + DeclaredLength(buf) then Ok(Leading([], buf))
    else Prepend([FirstRecord(d, buf)], Drain(d, buf[5 + DeclaredLength(buf)..]))
  }

  // ----- Both directions, chunk by chunk

  datatype SplitState = SplitState(records: seq<Record>, pending: seq<Octets>)

  function SplitStep(s: SplitState, chunk: Chunk): (r: Result<SplitState>)
    requires |s.pending| == 2
    ensures r.Ok? ==> |r.value.pending| == 2
  {
    var t :- Drain(chunk.direction, s.pending[chunk.direction] + chunk.data);
    Ok(SplitState(s.records + t.items, s.pending[chunk.direction := t.rest]))
  }

  function SplitPrefix(chunks: seq<Chunk>): (r: Result<SplitState>)
    ensures r.Ok? ==> |r.value.pending| == 2
  {
    if chunks == [] then Ok(SplitState([], [[], []]))
    else
      var s :- SplitPrefix(chunks[..|chunks| - 1]);
      SplitStep(s, chunks[|chunks| - 1])
  }

  function Split(chunks: seq<Chunk>): Result<seq<Record>> {
    var s :- SplitPrefix(chunks);
    if s.pending[0] != [] || s.pending[1] != [] then Err(ValueError) else Ok(s.records)
  }

  lemma SplitPrefixStep(chunks: seq<Chunk>, i: nat)
    requires i < |chunks|
    requires SplitPrefix(chunks[..i]).Ok?
    ensures SplitPrefix(chunks[..i + 1]) == SplitStep(SplitPrefix(chunks[..i]).value, chunks[i])
  {
    assert chunks[..i + 1][..i] == chunks[..i];
  }

  lemma {:induction false} DrainError(d: Direction, buf: Octets)
    ensures Drain(d, buf).Err? ==> Drain(d, buf).error == ValueError
    decreases |buf|
  {
    if |buf| >= 5 && |buf| >= 5 + DeclaredLength(buf) {
      DrainError(d, buf[5 + DeclaredLength(buf)..]);
    }
  }

  lemma {:induction false} DrainErrors(chunks: seq<Chunk>)
    ensures SplitPrefix(chunks).Err? ==> SplitPrefix(chunks).error == ValueError
  {
    if chunks != [] {
      DrainErrors(chunks[..|chunks| - 1]);
      var s := SplitPrefix(chunks[..|chunks| - 1]);
      if s.Ok? {
        var last := chunks[|chunks| - 1];
        DrainError(last.direction, s.value.pending[last.direction] + last.data);
      }
    }
  }

  /** An overlong length and bytes left over are refused alike. */
  lemma SplitRefused(chunks: seq<Chunk>)
    ensures Split(chunks).Err? ==> Split(chunks) == Err(ValueError)
  {
    hide SplitPrefix;
    DrainErrors(chunks);
  }

  /** Chunks after a bad header cannot repair it. */
  lemma {:induction false} SplitPrefixFails(chunks: seq<Chunk>, i: nat)
    requires i <= |chunks|
    requires SplitPrefix(chunks[..i]).Err?
    ensures SplitPrefix(chunks) == Err(ValueError)
    decreases |chunks| - i
  {
    DrainErrors(chunks[..i]);
    if i == |chunks| {
      assert chunks[..i] == chunks;
    } else {
      assert chunks[..i + 1][..i] == chunks[..i];
      SplitPrefixFails(chunks, i + 1);
    }
  }

  method SplitTlsRecords(chunks: seq<Chunk>) returns (r: Result<seq<Record>>)
    ensures r == Split(chunks)
  {
    var pending: seq<Octets> := [[], []];
    var records: seq<Record> := [];
    for i := 0 to |chunks|
      invariant |pending| == 2
      invariant SplitPrefix(chunks[..i]) == Ok(SplitState(records, pending))
    {
      var chunk := chunks[i];
      var d := chunk.direction;
      var buf := pending[d] + chunk.data;
      ghost var before := records;
      ghost var whole := buf;
      assert chunks[..i + 1][..i] == chunks[..i];
      SplitPrefixStep(chunks, i);
      ghost var found: seq<Record> := [];
      PrependTwice([], [], Drain(d, whole));
      while |buf| >= 5
        invariant records == before + found
        invariant Drain(d, whole) == Prepend(found, Drain(d, buf))
        decreases |buf|
      {
        var length := DeclaredLength(buf);
        if length > MAX_RECORD_LENGTH {
          SplitPrefixFails(chunks, i + 1);
          return Err(ValueError);
        }
        if |buf| < 5 + length {
          break;
        }
        PrependTwice(found, [FirstRecord(d, buf)], Drain(d, buf[5 + length..]));
        records := records + [Record(d, buf[0], buf[1..3], buf[5..5 + length])];
        found := found + [FirstRecord(d, buf)];
        buf := buf[5 + length..];
      }
      assert Drain(d, buf) == Ok(Leading([], buf));
      assert found + [] == found;
      pending := pending[d := buf];
    }
    assert chunks[..|chunks|] == chunks;
    if pending[0] != [] || pending[1] != [] {
      return Err(ValueError);
    }
    return Ok(records);
  }

  // ----- Draining in pieces is draining at once

  /** Draining is incremental: what a longer buffer yields is what the shorter one yields, then the rest. */
  lemma {:induction false} DrainAppend(d: Direction, a: Octets, b: Octets)
    ensures Drain(d, a + b) == if Drain(d, a).Err? then Err(ValueError)
                               else Prepend(Drain(d, a).value.items, Drain(d, Drain(d, a).value.rest + b))
    decreases |a|
  {
    if |a| < 5 {
      PrependTwice([], [], Drain(d, a + b));
    } else {
      var length := DeclaredLength(a);
      assert (a + b)[3..5] == a[3..5];
      if length > MAX_RECORD_LENGTH {
      } else if |a| < 5 + length {
        PrependTwice([], [], Drain(d, a + b));
      } else {
        assert (a + b)[1..3] == a[1..3] && (a + b)[5..5 + length] == a[5..5 + length];
        assert (a + b)[5 + length..] == a[5 + length..] + b;
        DrainAppend(d, a[5 + length..], b);
        var m := Drain(d, a[5 + length..]);
        if m.Ok? {
          PrependTwice([FirstRecord(d, a)], m.value.items, Drain(d, m.value.rest + b));
        }
      }
    }
  }

  /** What stays pending holds no complete record. */
  lemma {:induction false} DrainRestIsStuck(d: Direction, buf: Octets)
    requires Drain(d, buf).Ok?
    ensures var rest := Drain(d, buf).value.rest; Drain(d, rest) == Ok(Leading([], rest))
    decreases |buf|
  {
    if |buf| >= 5 && |buf| >= 5 + DeclaredLength(buf) {
      DrainRestIsStuck(d, buf[5 + DeclaredLength(buf)..]);
    }
  }

  lemma FirstRecordOnWire(d: Direction, buf: Octets)
    requires |buf| >= 5 && |buf| >= 5 + DeclaredLength(buf)
    requires DeclaredLength(buf) <= MAX_RECORD_LENGTH
    ensures WellFormed(FirstRecord(d, buf)) && FirstRecord(d, buf).direction == d
    ensures buf == Serialise(FirstRecord(d, buf)) + buf[5 + DeclaredLength(buf)..]
  {
    BigEndian2(buf[3..5]);
    assert buf == [buf[0]] + buf[1..3] + buf[3..5] + buf[5..5 + DeclaredLength(buf)] + buf[5 + DeclaredLength(buf)..];
  }

  lemma SerialiseCons(first: Record, rest: seq<Record>)
    requires WellFormed(first) && AllWellFormed(rest)
    ensures AllWellFormed([first] + rest)
    ensures SerialiseAll([first] + rest) == Serialise(first) + SerialiseAll(rest)
  {
    assert ([first] + rest)[1..] == rest;
  }

  /** Nothing is lost or invented: the records put back on the wire, then the pending bytes, are the buffer. */
  lemma {:induction false} DrainConserves(d: Direction, buf: Octets)
    requires Drain(d, buf).Ok?
    ensures var t := Drain(d, buf).value;
            && AllWellFormed(t.items)
            && DirectionIs(t.items, d)
            && buf == SerialiseAll(t.items) + t.rest
    decreases |buf|
  {
    hide Serialise, FirstRecord;
    if |buf| >= 5 && |buf| >= 5 + DeclaredLength(buf) {
      var tail := buf[5 + DeclaredLength(buf)..];
      FirstRecordOnWire(d, buf);
      DrainConserves(d, tail);
      var first, m := FirstRecord(d, buf), Drain(d, tail).value;
      SerialiseCons(first, m.items);
      assert Drain(d, buf).value == Leading([first] + m.items, m.rest);
      assert Serialise(first) + (SerialiseAll(m.items) + m.rest) == SerialiseAll([first] + m.items) + m.rest;
    } else {
      assert SerialiseAll([]) + buf == buf;
    }
  }

  lemma DrainOne(r: Record, tail: Octets)
    requires WellFormed(r)
    ensures Drain(r.direction, Serialise(r) + tail) == Prepend([r], Drain(r.direction, tail))
  {
    var buf := Serialise(r) + tail;
    assert buf[3..5] == U16(|r.fragment|);
    assert buf[1..3] == r.version;
    assert buf[5..5 + |r.fragment|] == r.fragment;
    assert buf[5 + |r.fragment|..] == tail;
  }

  /** The converse: well-formed records written one after another are read back, whatever follows them. */
  lemma {:induction false} DrainSerialised(d: Direction, records: seq<Record>, rest: Octets)
    requires AllWellFormed(records)
    requires DirectionIs(records, d)
    ensures Drain(d, SerialiseAll(records) + rest) == Prepend(records, Drain(d, rest))
  {
    if records == [] {
      assert SerialiseAll(records) + rest == rest;
      PrependTwice([], [], Drain(d, rest));
    } else {
      var tail := SerialiseAll(records[1..]) + rest;
      assert SerialiseAll(records) + rest == Serialise(records[0]) + tail;
      DrainOne(records[0], tail);
      DrainSerialised(d, records[1..], rest);
      PrependTwice([records[0]], records[1..], Drain(d, rest));
      assert records == [records[0]] + records[1..];
    }
  }

  // ----- Re-segmentation

  function RecordsOf(records: seq<Record>, d: Direction): seq<Record> {
    if records == [] then []
    else
      RecordsOf(records[..|records| - 1], d)
      + if records[|records| - 1].direction == d then [records[|records| - 1]] else []
  }

  lemma RecordsOfSnoc(records: seq<Record>, last: Record, d: Direction)
    ensures RecordsOf(records + [last], d) == RecordsOf(records, d) + if last.direction == d then [last] else []
    ensures RecordsOf([], d) == []
  {
    assert (records + [last])[..|records|] == records;
  }

  lemma {:induction false} RecordsOfAppend(a: seq<Record>, b: seq<Record>, d: Direction)
    ensures RecordsOf(a + b, d) == RecordsOf(a, d) + RecordsOf(b, d)
  {
    hide RecordsOf;
    if b == [] {
      assert a + b == a;
      RecordsOfSnoc([], Record(0, 0, [], []), d);
    } else {
      var init, last := b[..|b| - 1], b[|b| - 1];
      RecordsOfAppend(a, init, d);
      RecordsOfSnoc(a + init, last, d);
      RecordsOfSnoc(init, last, d);
      assert a + b == (a + init) + [last] && b == init + [last];
    }
  }

  lemma {:induction false} RecordsOfOneDirection(records: seq<Record>, d: Direction, e: Direction)
    requires DirectionIs(records, d)
    ensures RecordsOf(records, e) == if e == d then records else []
  {
    if records != [] {
      RecordsOfOneDirection(records[..|records| - 1], d, e);
      assert records == records[..|records| - 1] + [records[|records| - 1]];
    }
  }

  lemma StepPerDirection(s: SplitState, t: Drained, init: seq<Chunk>, last: Chunk)
    requires |s.pending| == 2
    requires Drain(last.direction, s.pending[last.direction] + last.data) == Ok(t)
    requires forall d: Direction :: Drain(d, StreamOf(init, d)) == Ok(Leading(RecordsOf(s.records, d), s.pending[d]))
    requires forall d: Direction :: RecordsOf(s.records + t.items, d)
                                    == RecordsOf(s.records, d) + if d == last.direction then t.items else []
    ensures forall d: Direction :: Drain(d, StreamOf(init + [last], d))
              == Ok(Leading(RecordsOf(s.records + t.items, d), s.pending[last.direction := t.rest][d]))
  {
    assert (init + [last])[..|init|] == init;
    forall d: Direction
      ensures Drain(d, StreamOf(init + [last], d))
              == Ok(Leading(RecordsOf(s.records + t.items, d), s.pending[last.direction := t.rest][d]))
    {
      if d == last.direction {
        assert StreamOf(init + [last], d) == StreamOf(init, d) + last.data;
        assert s.pending[last.direction := t.rest][d] == t.rest;
        DrainAppend(d, StreamOf(init, d), last.data);
        assert Drain(d, StreamOf(init, d)).value == Leading(RecordsOf(s.records, d), s.pending[d]);
        assert Drain(d, StreamOf(init, d) + last.data) == Prepend(RecordsOf(s.records, d), Ok(t));
      } else {
        assert StreamOf(init + [last], d) == StreamOf(init, d);
        assert RecordsOf(s.records, d) + [] == RecordsOf(s.records, d);
      }
    }
  }

  /**
   * Splitting succeeds exactly when each direction's whole stream drains, and then each direction's records
   * and pending bytes are those of its whole stream: how the stream was cut into chunks does not matter.
   */
  lemma {:induction false} StreamsDecide(chunks: seq<Chunk>)
    ensures SplitPrefix(chunks).Ok? <==> Drain(0, StreamOf(chunks, 0)).Ok? && Drain(1, StreamOf(chunks, 1)).Ok?
    ensures SplitPrefix(chunks).Ok? ==>
              forall d: Direction :: Drain(d, StreamOf(chunks, d))
                == Ok(Leading(RecordsOf(SplitPrefix(chunks).value.records, d), SplitPrefix(chunks).value.pending[d]))
  {
    if chunks != [] {
      var init := chunks[..|chunks| - 1];
      var last := chunks[|chunks| - 1];
      var c := last.direction;
      StreamsDecide(init);
      var s := SplitPrefix(init);
      forall d: Direction
        ensures StreamOf(chunks, d) == if d == c then StreamOf(init, d) + last.data else StreamOf(init, d)
      {
      }
      DrainAppend(c, StreamOf(init, c), last.data);
      if s.Ok? {
        var t := Drain(c, s.value.pending[c] + last.data);
        if t.Ok? {
          DrainConserves(c, s.value.pending[c] + last.data);
          forall d: Direction
            ensures RecordsOf(s.value.records + t.value.items, d)
                    == RecordsOf(s.value.records, d) + if d == c then t.value.items else []
          {
            RecordsOfAppend(s.value.records, t.value.items, d);
            RecordsOfOneDirection(t.value.items, c, d);
          }
          StepPerDirection(s.value, t.value, init, last);
        }
      } else {
        assert Drain(0, StreamOf(init, 0)).Err? || Drain(1, StreamOf(init, 1)).Err?;
      }
    }
  }

  /**
   * The re-segmentation law: two captures whose directions carry the same bytes are both accepted or both
   * refused, and give the same records per direction.
   */
  lemma ResegmentationInvariance(a: seq<Chunk>, b: seq<Chunk>)
    requires forall d: Direction :: StreamOf(a, d) == StreamOf(b, d)
    ensures Split(a).Ok? <==> Split(b).Ok?
    ensures Split(a).Ok? ==> forall d: Direction :: RecordsOf(Split(a).value, d) == RecordsOf(Split(b).value, d)
  {
    StreamsDecide(a);
    StreamsDecide(b);
    assert StreamOf(a, 0) == StreamOf(b, 0) && StreamOf(a, 1) == StreamOf(b, 1);
    if SplitPrefix(a).Ok? {
      forall d: Direction
        ensures SplitPrefix(a).value.pending[d] == SplitPrefix(b).value.pending[d]
        ensures RecordsOf(SplitPrefix(a).value.records, d) == RecordsOf(SplitPrefix(b).value.records, d)
      {
        assert StreamOf(a, d) == StreamOf(b, d);
      }
    }
  }

  /** Records come out in completion order: what a shorter capture yields is the start of what a longer one yields. */
  lemma {:induction false} CompletionOrder(chunks: seq<Chunk>, k: nat)
    requires k <= |chunks| && SplitPrefix(chunks).Ok?
    ensures SplitPrefix(chunks[..k]).Ok?
    ensures SplitPrefix(chunks[..k]).value.records <= SplitPrefix(chunks).value.records
  {
    if k == |chunks| {
      assert chunks[..k] == chunks;
    } else {
      var init := chunks[..|chunks| - 1];
      CompletionOrder(init, k);
      assert init[..k] == chunks[..k];
    }
  }

  lemma {:induction false} BothDirectionsWellFormed(records: seq<Record>)
    requires AllWellFormed(RecordsOf(records, 0)) && AllWellFormed(RecordsOf(records, 1))
    ensures AllWellFormed(records)
  {
    if records != [] {
      var init, last := records[..|records| - 1], records[|records| - 1];
      var mine := RecordsOf(records, last.direction);
      assert mine[|mine| - 1] == last;
      forall d: Direction
        ensures AllWellFormed(RecordsOf(init, d))
      {
        assert RecordsOf(init, d) <= RecordsOf(records, d);
        assert AllWellFormed(RecordsOf(records, d)) by {
          assert d == 0 || d == 1;
        }
        forall i | 0 <= i < |RecordsOf(init, d)|
          ensures WellFormed(RecordsOf(init, d)[i])
        {
          assert RecordsOf(init, d)[i] == RecordsOf(records, d)[i];
        }
      }
      BothDirectionsWellFormed(init);
    }
  }

  /** An accepted capture is, in each direction, whole well-formed records and nothing more. */
  lemma SplitConserves(chunks: seq<Chunk>)
    requires Split(chunks).Ok?
    ensures AllWellFormed(Split(chunks).value)
    ensures forall d: Direction ::
              && AllWellFormed(RecordsOf(Split(chunks).value, d))
              && StreamOf(chunks, d) == SerialiseAll(RecordsOf(Split(chunks).value, d))
  {
    StreamsDecide(chunks);
    var state := SplitPrefix(chunks).value;
    forall d: Direction
      ensures AllWellFormed(RecordsOf(state.records, d))
      ensures StreamOf(chunks, d) == SerialiseAll(RecordsOf(state.records, d))
    {
      DrainConserves(d, StreamOf(chunks, d));
      assert state.pending[d] == [];
    }
    BothDirectionsWellFormed(state.records);
  }

  lemma DrainWhole(d: Direction, records: seq<Record>)
    requires AllWellFormed(records) && DirectionIs(records, d)
    ensures Drain(d, SerialiseAll(records)) == Ok(Leading(records, []))
  {
    DrainSerialised(d, records, []);
    assert SerialiseAll(records) + [] == SerialiseAll(records);
    assert records + [] == records;
  }

  /** The converse: any interleaving of two serialised record lists is accepted and gives those lists back. */
  lemma SplitAccepts(chunks: seq<Chunk>, client: seq<Record>, server: seq<Record>)
    requires AllWellFormed(client) && DirectionIs(client, 0) && StreamOf(chunks, 0) == SerialiseAll(client)
    requires AllWellFormed(server) && DirectionIs(server, 1) && StreamOf(chunks, 1) == SerialiseAll(server)
    ensures Split(chunks).Ok?
    ensures RecordsOf(Split(chunks).value, 0) == client
    ensures RecordsOf(Split(chunks).value, 1) == server
  {
    StreamsDecide(chunks);
    DrainWhole(0, client);
    DrainWhole(1, server);
  }

  // ----- Records as chunks, and coalescing

  /** Each record as one chunk of its own wire bytes. */
  function RecordChunks(records: seq<Record>): (chunks: seq<Chunk>)
    requires AllWellFormed(records)
    ensures |chunks| == |records|
    ensures forall i :: 0 <= i < |records| ==> chunks[i] == Chunk(records[i].direction, Serialise(records[i]))
  {
    seq(|records|, i requires 0 <= i < |records| => Chunk(records[i].direction, Serialise(records[i])))
  }

  lemma StepOneRecord(before: seq<Record>, r: Record)
    requires WellFormed(r)
    ensures SplitStep(SplitState(before, [[], []]), Chunk(r.direction, Serialise(r)))
            == Ok(SplitState(before + [r], [[], []]))
  {
    var pending: seq<Octets> := [[], []];
    DrainWhole(r.direction, [r]);
    assert [r][1..] == [] && SerialiseAll([r]) == Serialise(r) + [];
    assert pending[r.direction] + Serialise(r) == SerialiseAll([r]);
    assert pending[r.direction := []] == pending;
  }

  lemma {:induction false} SplitRecordChunks(records: seq<Record>)
    requires AllWellFormed(records)
    ensures SplitPrefix(RecordChunks(records)) == Ok(SplitState(records, [[], []]))
    ensures Split(RecordChunks(records)) == Ok(records)
  {
    hide Serialise, Drain;
    if records != [] {
      var init, last := records[..|records| - 1], records[|records| - 1];
      SplitRecordChunks(init);
      var chunks := RecordChunks(records);
      assert chunks[..|chunks| - 1] == RecordChunks(init);
      assert chunks[|chunks| - 1] == Chunk(last.direction, Serialise(last));
      assert records == init + [last];
      StepOneRecord(init, last);
    }
  }

  lemma {:induction false} PendingIsStuck(chunks: seq<Chunk>)
    requires SplitPrefix(chunks).Ok?
    ensures var p := SplitPrefix(chunks).value.pending;
            forall d: Direction :: Drain(d, p[d]) == Ok(Leading([], p[d]))
  {
    StreamsDecide(chunks);
    var p := SplitPrefix(chunks).value.pending;
    forall d: Direction
      ensures Drain(d, p[d]) == Ok(Leading([], p[d]))
    {
      DrainRestIsStuck(d, StreamOf(chunks, d));
    }
  }

  lemma StepResult(s: SplitState, d: Direction, data: Octets, t: Drained)
    requires |s.pending| == 2
    requires Drain(d, s.pending[d] + data) == Ok(t)
    ensures SplitStep(s, Chunk(d, data)) == Ok(SplitState(s.records + t.items, s.pending[d := t.rest]))
  {
  }

  lemma StatesMeet(s: SplitState, d: Direction, first: Drained, second: Drained)
    requires |s.pending| == 2
    ensures SplitState(s.records + (first.items + second.items), s.pending[d := second.rest])
            == SplitState((s.records + first.items) + second.items,
                          s.pending[d := first.rest][d := second.rest])
    ensures s.pending[d := first.rest][d] == first.rest
  {
  }

  lemma StepTwice(s: SplitState, d: Direction, a: Octets, b: Octets)
    requires |s.pending| == 2
    ensures SplitStep(s, Chunk(d, a + b)) == var t := SplitStep(s, Chunk(d, a));
                                             if t.Err? then Err(ValueError) else SplitStep(t.value, Chunk(d, b))
  {
    var p := s.pending[d];
    assert p + (a + b) == (p + a) + b;
    DrainAppend(d, p + a, b);
    var first := Drain(d, p + a);
    DrainError(d, p + a);
    if first.Ok? {
      var second := Drain(d, first.value.rest + b);
      StepResult(s, d, a, first.value);
      var t := SplitState(s.records + first.value.items, s.pending[d := first.value.rest]);
      StatesMeet(s, d, first.value, if second.Ok? then second.value else first.value);
      if second.Ok? {
        StepResult(t, d, b, second.value);
        StepResult(s, d, a + b, Leading(first.value.items + second.value.items, second.value.rest));
      }
    }
  }

  lemma StepNothing(s: SplitState, d: Direction)
    requires |s.pending| == 2
    requires Drain(d, s.pending[d]) == Ok(Leading([], s.pending[d]))
    ensures SplitStep(s, Chunk(d, [])) == Ok(s)
  {
    assert s.pending[d] + [] == s.pending[d];
    assert s.records + [] == s.records;
    assert s.pending[d := s.pending[d]] == s.pending;
  }

  lemma SplitAppendPayload(chunks: seq<Chunk>, d: Direction, data: Octets)
    ensures SplitPrefix(AppendPayload(chunks, d, data)) == SplitPrefix(chunks + [Chunk(d, data)])
  {
    var longer := chunks + [Chunk(d, data)];
    assert longer[..|longer| - 1] == chunks;
    var s := SplitPrefix(chunks);
    if data == [] {
      if s.Ok? {
        PendingIsStuck(chunks);
        StepNothing(s.value, d);
      }
    } else if chunks != [] && chunks[|chunks| - 1].direction == d {
      var init, last := chunks[..|chunks| - 1], chunks[|chunks| - 1];
      var merged := AppendPayload(chunks, d, data);
      assert merged[..|merged| - 1] == init;
      var t := SplitPrefix(init);
      assert last == Chunk(d, last.data);
      if t.Ok? {
        StepTwice(t.value, d, last.data, data);
        DrainErrors(chunks);
      }
    }
  }

  /** Coalescing a capture never changes which records it holds or their completion order. */
  lemma {:induction false} SplitIgnoresCoalescing(chunks: seq<Chunk>)
    ensures SplitPrefix(Coalesce(chunks)) == SplitPrefix(chunks)
    ensures Split(Coalesce(chunks)) == Split(chunks)
  {
    if chunks != [] {
      var init, last := chunks[..|chunks| - 1], chunks[|chunks| - 1];
      SplitIgnoresCoalescing(init);
      SplitAppendPayload(Coalesce(init), last.direction, last.data);
      var longer := Coalesce(init) + [last];
      assert longer[..|longer| - 1] == Coalesce(init);
      assert last == Chunk(last.direction, last.data);
    }
  }
}
