/** Whole TLS archives: several captures in one layout, one shared opaque stream (minarx/protocols/common.py). */
module TlsArchive {
  import opened Bytes
  import opened Binary
  import opened Chunks
  import opened Envelope
  import opened TlsRecords
  import opened TlsCodec

  // ----- One record through both cursors

  lemma TagFields(d: Direction, isOpaque: bool, vc: nat, cc: nat)
    requires vc < 8 && cc < 8
    ensures var tag := Tag(d, isOpaque, vc, cc);
            tag % 8 == cc && tag / 8 % 8 == vc && (tag / 64 % 2 == 1 <==> isOpaque) && tag / 128 == d
  {
  }

  lemma CodesInvert(r: Record)
    requires WellFormed(r)
    ensures ContentCode(r.contentType) != 7 ==> CodeContent(ContentCode(r.contentType)) == Some(r.contentType)
    ensures VersionCode(r.version) != 7 ==> CodeVersion(VersionCode(r.version)) == Some(r.version)
  {
  }

  lemma TagTakenApart(d: Direction, isOpaque: bool, vc: nat, cc: nat, rest: Octets, hidden: Octets)
    requires vc < 8 && cc < 8
    ensures DecodeRecord([Tag(d, isOpaque, vc, cc)] + rest, hidden) == DecodeTagged(d, isOpaque, vc, cc, rest, hidden)
  {
    TagFields(d, isOpaque, vc, cc);
    assert ([Tag(d, isOpaque, vc, cc)] + rest)[1..] == rest;
  }

  function HeadTail(r: Record): Octets {
    (if ContentCode(r.contentType) == 7 then [r.contentType] else [])
    + (if VersionCode(r.version) == 7 then r.version else [])
  }

  lemma HeadRoundTrip(r: Record, rest: Octets)
    requires WellFormed(r)
    ensures var s := HeadTail(r) + rest;
            && var ct := ReadContentType(ContentCode(r.contentType), s);
            && ct.result == Ok(Some(r.contentType))
            && var ver := ReadVersion(VersionCode(r.version), Skip(s, ct.used));
            && ver.result == Ok(Some(r.version))
            && Skip(Skip(s, ct.used), ver.used) == rest
  {
    CodesInvert(r);
    var s := HeadTail(r) + rest;
    var s2 := (if VersionCode(r.version) == 7 then r.version else []) + rest;
    if ContentCode(r.contentType) == 7 {
      assert s[1..] == s2;
    } else {
      assert s[0..] == s2;
    }
    if VersionCode(r.version) == 7 {
      assert s2[..2] == r.version && s2[2..] == rest;
    } else {
      assert s2[0..] == rest;
    }
  }

  lemma FragmentRoundTrip(fragment: Octets, isOpaque: bool, restL: Octets, restO: Octets)
    requires |fragment| <= MAX_RECORD_LENGTH
    ensures ReadFragment(isOpaque, (if isOpaque then UVarint(|fragment|) else Blob(fragment)) + restL,
                         (if isOpaque then fragment else []) + restO)
            == Ok((fragment, restL, restO))
  {
    if isOpaque {
      UVarintRoundTrip(|fragment|, restL, MAX_RECORD_LENGTH);
      assert (fragment + restO)[..|fragment|] == fragment && (fragment + restO)[|fragment|..] == restO;
    } else {
      BlobRoundTrip(fragment, restL, MAX_RECORD_LENGTH);
      assert [] + restO == restO;
    }
  }

  lemma TaggedRoundTrip(r: Record, isOpaque: bool, restL: Octets, restO: Octets)
    requires WellFormed(r)
    ensures DecodeTagged(r.direction, isOpaque, VersionCode(r.version), ContentCode(r.contentType),
                         HeadTail(r) + ((if isOpaque then UVarint(|r.fragment|) else Blob(r.fragment)) + restL),
                         (if isOpaque then r.fragment else []) + restO)
            == Ok(Leading([Chunk(r.direction, Serialise(r))], Cursors(restL, restO)))
  {
    hide ReadContentType, ReadVersion, ReadFragment, ContentCode, VersionCode, Blob, UVarint, HeadTail;
    HeadRoundTrip(r, (if isOpaque then UVarint(|r.fragment|) else Blob(r.fragment)) + restL);
    FragmentRoundTrip(r.fragment, isOpaque, restL, restO);
  }

  lemma RegroupRecord(tag: Octets, contentType: Octets, version: Octets, body: Octets, rest: Octets)
    ensures (((tag + contentType) + version) + body) + rest == tag + ((contentType + version) + (body + rest))
  {
  }

  lemma RecordRoundTrip(r: Record, isOpaque: bool, restL: Octets, restO: Octets)
    requires WellFormed(r)
    ensures DecodeRecord(RecordLayout(r, isOpaque) + restL, (if isOpaque then r.fragment else []) + restO)
            == Ok(Leading([Chunk(r.direction, Serialise(r))], Cursors(restL, restO)))
  {
    hide Tag, ContentCode, VersionCode, DecodeTagged, DecodeRecord, Serialise, Blob, UVarint;
    var cc, vc := ContentCode(r.contentType), VersionCode(r.version);
    var body := if isOpaque then UVarint(|r.fragment|) else Blob(r.fragment);
    var rest := HeadTail(r) + (body + restL);
    RegroupRecord([Tag(r.direction, isOpaque, vc, cc)], if cc == 7 then [r.contentType] else [],
                  if vc == 7 then r.version else [], body, restL);
    TagTakenApart(r.direction, isOpaque, vc, cc, rest, (if isOpaque then r.fragment else []) + restO);
    TaggedRoundTrip(r, isOpaque, restL, restO);
  }

  lemma DecodeStep(n: nat, layout: Octets, hidden: Octets, one: Decoded, more: Decoded)
    requires n > 0
    requires DecodeRecord(layout, hidden) == Ok(one)
    requires DecodeMany(n - 1, one.rest.layout, one.rest.hidden) == Ok(more)
    ensures DecodeMany(n, layout, hidden) == Ok(Leading(one.items + more.items, more.rest))
  {
  }

  lemma RecordChunksStep(records: seq<Record>, i: nat)
    requires i < |records| && AllWellFormed(records)
    ensures [Chunk(records[i].direction, Serialise(records[i]))] + RecordChunks(records)[i + 1..]
            == RecordChunks(records)[i..]
  {
  }

  lemma {:induction false} RecordsRoundTrip(records: seq<Record>, i: nat, restL: Octets, restO: Octets)
    requires i <= |records| && AllWellFormed(records)
    ensures DecodeMany(|records| - i, LayoutFrom(records, i) + restL, OpaqueFrom(records, i) + restO)
            == Ok(Leading(RecordChunks(records)[i..], Cursors(restL, restO)))
    decreases |records| - i
  {
    hide RecordLayout, DecodeRecord, OpaqueAt, Serialise, RecordChunks;
    var chunks := RecordChunks(records);
    if i == |records| {
      assert [] + restL == restL && [] + restO == restO && chunks[i..] == [];
    } else {
      var isOpaque := OpaqueAt(records, i);
      var head := RecordLayout(records[i], isOpaque);
      var part := if isOpaque then records[i].fragment else [];
      var moreL, moreO := LayoutFrom(records, i + 1) + restL, OpaqueFrom(records, i + 1) + restO;
      Regroup(head, LayoutFrom(records, i + 1), restL);
      Regroup(part, OpaqueFrom(records, i + 1), restO);
      RecordRoundTrip(records[i], isOpaque, moreL, moreO);
      RecordsRoundTrip(records, i + 1, restL, restO);
      var one := Leading([Chunk(records[i].direction, Serialise(records[i]))], Cursors(moreL, moreO));
      DecodeStep(|records| - i, head + moreL, part + moreO, one, Leading(chunks[i + 1..], Cursors(restL, restO)));
      RecordChunksStep(records, i);
    }
  }

  lemma AfterCount(layout: Octets, hidden: Octets, n: nat, body: Octets, chunks: seq<Chunk>, restO: Octets)
    requires ReadUVarint(layout, MAX_RECORDS).result == Ok(n)
    requires Skip(layout, ReadUVarint(layout, MAX_RECORDS).used) == body
    requires DecodeMany(n, body, hidden) == Ok(Leading(chunks, Cursors([], restO)))
    ensures DecodeCapture(layout, hidden) == Ok((chunks, restO))
  {
  }

  lemma CaptureRoundTrip(records: seq<Record>, restO: Octets)
    requires AllWellFormed(records)
    ensures DecodeCapture(CaptureLayout(records), OpaqueFrom(records, 0) + restO).Ok? <==> |records| <= MAX_RECORDS
    ensures |records| <= MAX_RECORDS ==>
              DecodeCapture(CaptureLayout(records), OpaqueFrom(records, 0) + restO)
                  == Ok((RecordChunks(records), restO))
  {
    var layout, hidden := LayoutFrom(records, 0), OpaqueFrom(records, 0) + restO;
    UVarintRoundTrip(|records|, layout, MAX_RECORDS);
    if |records| <= MAX_RECORDS {
      RecordsRoundTrip(records, 0, [], restO);
      LeftAndRightUnit(layout);
      assert RecordChunks(records)[0..] == RecordChunks(records);
      AfterCount(CaptureLayout(records), hidden, |records|, layout, RecordChunks(records), restO);
    }
  }

  // ----- What the decoder refuses

  /**
   * A tag with a reserved type code (5 or 6) or version code (4 to 6) is refused whatever follows it, and so is a
   * record that is longer than the limit.
   */
  lemma RefusedRecords(tag: Byte, rest: Octets, hidden: Octets, layout: Octets)
    requires layout == [tag] + rest
    ensures 5 <= tag % 8 <= 6 || 4 <= tag / 8 % 8 <= 6 ==> DecodeRecord(layout, hidden).Err?
    ensures DecodeRecord(layout, hidden).Ok? ==>
              var items := DecodeRecord(layout, hidden).value.items;
              && |items| == 1 && items[0].direction == tag / 128
              && 5 <= |items[0].data| == 5 + BigEndian(items[0].data[3..5]) <= 5 + 18432
  {
    hide ReadUVarint, ReadFragment, BigEndian;
    assert layout[0] == tag && layout[1..] == rest;
  }

  lemma OneFails(layout: Octets, hidden: Octets)
    ensures DecodeRecord(layout, hidden).Err? ==> DecodeRecord(layout, hidden) == Err(DecodeError)
  {
    hide ReadUVarint, ReadBlob;
    forall s: Octets, n: nat
      ensures ReadUVarint(s, n).result.Err? ==> ReadUVarint(s, n).result == Err(DecodeError)
      ensures ReadBlob(s, n).result.Err? ==> ReadBlob(s, n).result == Err(DecodeError)
    {
      ReadsFailExactly(s, 0, n);
    }
  }

  lemma NothingDecoded(layout: Octets, hidden: Octets)
    ensures DecodeMany(0, layout, hidden).Ok?
  {
  }

  lemma {:induction false} ManyFail(count: nat, layout: Octets, hidden: Octets)
    ensures DecodeMany(count, layout, hidden).Err? ==> DecodeMany(count, layout, hidden) == Err(DecodeError)
    decreases count
  {
    hide DecodeRecord, DecodeMany;
    OneFails(layout, hidden);
    if count > 0 {
      DecodeManyStep(count, layout, hidden);
      var one := DecodeRecord(layout, hidden);
      if one.Ok? {
        ManyFail(count - 1, one.value.rest.layout, one.value.rest.hidden);
      }
    } else {
      NothingDecoded(layout, hidden);
    }
  }

  lemma CaptureFails(layout: Octets, hidden: Octets)
    ensures DecodeCapture(layout, hidden).Err? ==> DecodeCapture(layout, hidden) == Err(DecodeError)
  {
    hide DecodeMany, ReadUVarint;
    ReadsFailExactly(layout, 0, MAX_RECORDS);
    var n := ReadUVarint(layout, MAX_RECORDS);
    if n.result.Ok? {
      ManyFail(n.result.value, Skip(layout, n.used), hidden);
    }
  }

  /** Whatever is wrong with an archive's layout or its opaque bytes, the failure is a decode error. */
  lemma ArchiveFails(layout: Octets, hidden: Octets, names: nat)
    ensures var r := Materialize(DecodeCapture, layout, hidden, names);
            r.Err? ==> r == Err(DecodeError)
  {
    hide DecodeCapture, Materialize;
    forall layout, hidden
      ensures DecodeCapture(layout, hidden).Err? ==> DecodeCapture(layout, hidden) == Err(DecodeError)
    {
      CaptureFails(layout, hidden);
    }
    MaterializeFails(DecodeCapture, layout, hidden, names);
  }

  // ----- Several captures

  /** Every capture split, or the first refusal. */
  function SplitAll(captures: seq<seq<Chunk>>): (r: Result<seq<seq<Record>>>)
    ensures r.Ok? ==> |r.value| == |captures|
  {
    if captures == [] then Ok([])
    else
      var before :- SplitAll(captures[..|captures| - 1]);
      var last :- Split(captures[|captures| - 1]);
      Ok(before + [last])
  }

  function PartOf(records: seq<Record>): Part {
    Part(CaptureLayout(records), OpaqueFrom(records, 0))
  }

  function PartsOf(captures: seq<seq<Record>>): (parts: seq<Part>)
    ensures |parts| == |captures|
    ensures forall k :: 0 <= k < |parts| ==> parts[k] == PartOf(captures[k])
  {
    seq(|captures|, i requires 0 <= i < |captures| => PartOf(captures[i]))
  }

  /** The measurements of every capture, in order. */
  function StatsAll(captures: seq<seq<Chunk>>, records: seq<seq<Record>>): (stats: seq<Stats>)
    requires |records| == |captures|
    ensures |stats| == |captures|
    ensures forall k :: 0 <= k < |captures| ==> stats[k] == StatsOf(captures[k], records[k])
  {
    seq(|captures|, i requires 0 <= i < |captures| => StatsOf(captures[i], records[i]))
  }

  function CompactedTls(captures: seq<seq<Chunk>>): Result<Compacted<Stats>> {
    var split := SplitAll(captures);
    if split.Err? then Err(ValueError)
    else
      var parts := PartsOf(split.value);
      Ok(Compacted(ArchiveLayout(parts), ArchiveHidden(parts), StatsAll(captures, split.value)))
  }

  lemma PartsStep(done: seq<seq<Record>>, records: seq<Record>)
    ensures PartsOf(done + [records]) == PartsOf(done) + [PartOf(records)]
    ensures PartOf(records) == Part(CaptureLayout(records), OpaqueFrom(records, 0))
  {
  }

  lemma SplitAllStep(captures: seq<seq<Chunk>>, i: nat)
    requires i < |captures| && SplitAll(captures[..i]).Ok?
    ensures Split(captures[i]).Err? ==> SplitAll(captures[..i + 1]).Err?
    ensures Split(captures[i]).Ok? ==>
              SplitAll(captures[..i + 1]) == Ok(SplitAll(captures[..i]).value + [Split(captures[i]).value])
  {
    assert captures[..i + 1][..i] == captures[..i];
  }

  lemma {:induction false} SplitAllFails(captures: seq<seq<Chunk>>, i: nat)
    requires i <= |captures| && SplitAll(captures[..i]).Err?
    ensures SplitAll(captures).Err?
    decreases |captures| - i
  {
    if i == |captures| {
      assert captures[..i] == captures;
    } else {
      assert captures[..i + 1][..i] == captures[..i];
      SplitAllFails(captures, i + 1);
    }
  }

  lemma NothingCompacted(captures: seq<seq<Chunk>>)
    ensures SplitAll(captures[..0]) == Ok([]) && PartsOf([]) == [] && StatsAll(captures[..0], []) == []
  {
  }

  lemma StatsStep(captures: seq<seq<Chunk>>, i: nat, done: seq<seq<Record>>, records: seq<Record>)
    requires i < |captures| && |done| == i
    ensures StatsAll(captures[..i + 1], done + [records])
        == StatsAll(captures[..i], done) + [StatsOf(captures[i], records)]
  {
    hide StatsOf;
  }

  /** compact_tls_pcaps, from the chunk lists the captures hold. */
  method CompactTls(captures: seq<seq<Chunk>>) returns (r: Result<Compacted<Stats>>)
    ensures r == CompactedTls(captures)
    ensures r.Err? ==> r == Err(ValueError)
  {
    hide StatsOf, StatsAll, SplitAll, PartsOf, PartOf, LayoutsFrom, HiddenFrom, UVarint, CaptureLayout;
    var count := EncodeUVarint(|captures|);
    var out := count.value;
    var hidden: Octets := [];
    var measurements: seq<Stats> := [];
    ghost var done: seq<seq<Record>> := [];
    NothingCompacted(captures);
    PartAppended(out, [], Part([], []));
    for i := 0 to |captures|
      invariant SplitAll(captures[..i]) == Ok(done) && |done| == i
      invariant out == UVarint(|captures|) + LayoutsFrom(PartsOf(done), 0)
      invariant hidden == HiddenFrom(PartsOf(done), 0)
      invariant measurements == StatsAll(captures[..i], done)
    {
      var encoded := EncodeTlsRecords(captures[i]);
      SplitAllStep(captures, i);
      if encoded.Err? {
        SplitAllFails(captures, i + 1);
        return Err(ValueError);
      }
      ghost var records := Split(captures[i]).value;
      PartAppended(UVarint(|captures|), PartsOf(done), PartOf(records));
      PartsStep(done, records);
      StatsStep(captures, i, done, records);
      var length := EncodeUVarint(|encoded.value.layout|);
      done := done + [records];
      out := out + (length.value + encoded.value.layout);
      hidden := hidden + encoded.value.opaqueBytes;
      measurements := measurements + [encoded.value.stats];
    }
    assert captures[..|captures|] == captures;
    return Ok(Compacted(out, hidden, measurements));
  }

  /** materialize_tls_pcaps, up to the chunk lists handed to the PCAP writer. */
  method MaterializeTls(layout: Octets, hidden: Octets, names: nat) returns (r: Result<seq<seq<Chunk>>>)
    ensures r == Materialize(DecodeCapture, layout, hidden, names)
  {
    var reader := new Reader(layout);
    var opaqueReader := new Reader(hidden);
    var count :- reader.NextUVarint(MAX_CAPTURES);
    if count != names {
      return Err(DecodeError);
    }
    var captures: seq<seq<Chunk>> := [];
    ghost var whole := MaterializeMany(DecodeCapture, names, reader.Rest(), opaqueReader.Rest());
    PrependTwice([], [], whole);
    for i := 0 to names
      invariant reader.Valid() && opaqueReader.Valid()
      invariant whole == Prepend(captures,
          MaterializeMany(DecodeCapture, names - i, reader.Rest(), opaqueReader.Rest()))
    {
      var blob :- reader.NextBlob(MAX_FIELD_SIZE);
      var chunks :- DecodeTlsRecords(blob, opaqueReader);
      PrependTwice(captures, [chunks],
          MaterializeMany(DecodeCapture, names - i - 1, reader.Rest(), opaqueReader.Rest()));
      captures := captures + [chunks];
    }
    assert captures + [] == captures;
    var _ :- reader.Finish();
    var _ :- opaqueReader.Finish();
    return Ok(captures);
  }

  // ----- The two-cursor round trip

  predicate WithinLimits(captures: seq<seq<Record>>) {
    && |captures| <= 32
    && forall k :: 0 <= k < |captures| ==>
         |captures[k]| <= 10_000_000 && |CaptureLayout(captures[k])| <= 0x8000_0000
  }

  ghost predicate AllRecordsWellFormed(captures: seq<seq<Record>>) {
    forall k :: 0 <= k < |captures| ==> AllWellFormed(captures[k])
  }

  function AllRecordChunks(captures: seq<seq<Record>>): (chunks: seq<seq<Chunk>>)
    requires AllRecordsWellFormed(captures)
    ensures |chunks| == |captures|
    ensures forall k :: 0 <= k < |captures| ==> chunks[k] == RecordChunks(captures[k])
  {
    seq(|captures|, i requires 0 <= i < |captures| => RecordChunks(captures[i]))
  }

  lemma CapturePartUndone(records: seq<Record>)
    requires AllWellFormed(records)
    ensures Undoes(DecodeCapture, PartOf(records), |records| <= MAX_RECORDS, RecordChunks(records))
  {
    forall rest: Octets
      ensures var r := DecodeCapture(CaptureLayout(records), OpaqueFrom(records, 0) + rest);
              if |records| <= MAX_RECORDS then r == Ok((RecordChunks(records), rest)) else r.Err?
    {
      CaptureRoundTrip(records, rest);
    }
  }

  lemma LimitsAgree(captures: seq<seq<Record>>, accepted: seq<bool>)
    requires |accepted| == |captures|
    requires forall k :: 0 <= k < |captures| ==> accepted[k] == (|captures[k]| <= MAX_RECORDS)
    ensures |captures| <= MAX_CAPTURES && AllFit(PartsOf(captures), accepted, 0) <==> WithinLimits(captures)
  {
    var parts := PartsOf(captures);
    forall k | 0 <= k < |captures|
      ensures PartFits(parts[k], accepted[k])
              <==> |captures[k]| <= MAX_RECORDS && |CaptureLayout(captures[k])| <= MAX_FIELD_SIZE
    {
    }
  }

  /**
   * Materializing what was compacted succeeds exactly within the code's own limits (32 captures, ten million
   * records and 2 GiB of layout each). It then gives back every capture's records in completion order, and
   * the layout reader, every nested reader and the shared opaque reader all end exactly at their ends.
   */
  lemma TwoCursorRoundTrip(captures: seq<seq<Record>>)
    requires AllRecordsWellFormed(captures)
    ensures var parts := PartsOf(captures);
            var r := Materialize(DecodeCapture, ArchiveLayout(parts), ArchiveHidden(parts), |captures|);
            && (r.Ok? <==> WithinLimits(captures))
            && (r.Ok? ==> r.value == AllRecordChunks(captures))
  {
    var parts := PartsOf(captures);
    var accepted := seq(|captures|, i requires 0 <= i < |captures| => |captures[i]| <= MAX_RECORDS);
    forall k | 0 <= k < |captures|
      ensures Undoes(DecodeCapture, parts[k], accepted[k], AllRecordChunks(captures)[k])
    {
      CapturePartUndone(captures[k]);
    }
    ArchiveRoundTrip(DecodeCapture, parts, accepted, AllRecordChunks(captures));
    LimitsAgree(captures, accepted);
  }
}
