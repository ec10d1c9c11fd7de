/**
 * The TLS projection of minarx/protocols/common.py: records become a layout stream and a separate opaque
 * stream, and the decoder walks both with two cursors.
 */
module TlsCodec {
  import opened Bytes
  import opened Binary
  import opened Chunks
  import opened Envelope
  import opened TlsRecords

  const MAX_RECORDS: nat := 10_000_000
  const CHANGE_CIPHER_SPEC: Byte := 20
  const HANDSHAKE: Byte := 22
  const APPLICATION_DATA: Byte := 23

  // ----- Codes

  function ContentCode(contentType: Byte): (code: nat)
    ensures code < 8
  {
    if 20 <= contentType <= 24 then contentType - 20 else 7
  }

  function CodeContent(code: nat): Option<Byte> {
    if code <= 4 then Some(20 + code) else None
  }

  function VersionCode(version: Octets): (code: nat)
    ensures code < 8
  {
    if version == [3, 3] then 0 else if version == [3, 1] then 1
    else if version == [3, 2] then 2 else if version == [3, 4] then 3 else 7
  }

  function CodeVersion(code: nat): Option<Octets> {
    if code == 0 then Some([3, 3]) else if code == 1 then Some([3, 1])
    else if code == 2 then Some([3, 2]) else if code == 3 then Some([3, 4]) else None
  }

  /** direction in bit 7, opacity in bit 6, version code in bits 5-3, content code in bits 2-0. */
  function Tag(d: Direction, isOpaque: bool, versionCode: nat, contentCode: nat): Byte
    requires versionCode < 8 && contentCode < 8
  {
    d * 128 + (if isOpaque then 64 else 0) + versionCode * 8 + contentCode
  }

  // ----- Encoding

  predicate ActiveBefore(records: seq<Record>, i: nat, d: Direction)
    requires i <= |records|
  {
    exists j :: 0 <= j < i && records[j].direction == d && records[j].contentType == CHANGE_CIPHER_SPEC
  }

  /** The protection rule: application data, and everything after a ChangeCipherSpec of the same direction. */
  predicate OpaqueAt(records: seq<Record>, i: nat)
    requires i < |records|
  {
    records[i].contentType == APPLICATION_DATA || ActiveBefore(records, i, records[i].direction)
  }

  /**
   * Protected are the records of type 23, and those that follow a record of type 20 of their own direction;
   * section 6 of RFC 5246.
   */
  lemma OpaqueExactly(records: seq<Record>, i: nat)
    requires i < |records|
    ensures OpaqueAt(records, i) <==>
            || records[i].contentType == 23
            || exists j :: 0 <= j < i && records[j].direction == records[i].direction && records[j].contentType == 20
  {
  }

  function RecordHead(r: Record, isOpaque: bool): Octets {
    var cc, vc := ContentCode(r.contentType), VersionCode(r.version);
    [Tag(r.direction, isOpaque, vc, cc)]
    + (if cc == 7 then [r.contentType] else [])
    + (if vc == 7 then r.version else [])
  }

  function RecordLayout(r: Record, isOpaque: bool): Octets {
    RecordHead(r, isOpaque) + if isOpaque then UVarint(|r.fragment|) else Blob(r.fragment)
  }

  /** The position of each known protocol version in the layout's tag, from TLS 1.2 on. */
  function KnownVersions(): seq<Octets> {
    [[3, 3], [3, 1], [3, 2], [3, 4]]
  }

  /** A record of a known type and version has one byte of header in the layout; any other adds what is not known. */
  lemma RecordBytes(r: Record, isOpaque: bool, vc: nat)
    requires vc < 4 ==> r.version == KnownVersions()[vc]
    requires vc >= 4 ==> vc == 7 && r.version !in KnownVersions()
    ensures var known := 20 <= r.contentType < 25;
            var tag := 128 * r.direction + (if isOpaque then 64 else 0) + 8 * vc
                       + (if known then r.contentType as int - 20 else 7);
            RecordLayout(r, isOpaque) ==
            [tag] + (if known then [] else [r.contentType]) + (if vc == 7 then r.version else [])
            + UVarint(|r.fragment|) + (if isOpaque then [] else r.fragment)
  {
    hide UVarint;
    if vc == 7 {
      assert forall v :: v in [[3, 3], [3, 1], [3, 2], [3, 4]] <==> v in KnownVersions();
    }
  }

  function LayoutFrom(records: seq<Record>, i: nat): Octets
    requires i <= |records|
    decreases |records| - i
  {
    if i == |records| then []
    else RecordLayout(records[i], OpaqueAt(records, i)) + LayoutFrom(records, i + 1)
  }

  function OpaqueFrom(records: seq<Record>, i: nat): Octets
    requires i <= |records|
    decreases |records| - i
  {
    if i == |records| then []
    else (if OpaqueAt(records, i) then records[i].fragment else []) + OpaqueFrom(records, i + 1)
  }

  function CaptureLayout(records: seq<Record>): Octets {
    UVarint(|records|) + LayoutFrom(records, 0)
  }

  /** The running counters of the encoder. */
  datatype Tally = Tally(protectedBytes: nat, clearBytes: nat, handshakeBytes: nat)

  function CountRecord(t: Tally, r: Record, isOpaque: bool): Tally {
    Tally(
      if isOpaque then t.protectedBytes + |r.fragment| else t.protectedBytes,
      if isOpaque then t.clearBytes else t.clearBytes + |r.fragment|,
      if r.contentType == HANDSHAKE then t.handshakeBytes + |r.fragment| else t.handshakeBytes)
  }

  function TallyFrom(records: seq<Record>, i: nat, t: Tally): Tally
    requires i <= |records|
    decreases |records| - i
  {
    if i == |records| then t else TallyFrom(records, i + 1, CountRecord(t, records[i], OpaqueAt(records, i)))
  }

  datatype Stats = Stats(recordCount: nat, headerBytesRemoved: nat, tally: Tally, transportBytes: nat)

  datatype Encoded = Encoded(layout: Octets, opaqueBytes: Octets, stats: Stats)

  function StatsOf(chunks: seq<Chunk>, records: seq<Record>): Stats {
    Stats(|records|, 5 * |records|, TallyFrom(records, 0, Tally(0, 0, 0)), TotalBytes(chunks))
  }

  /** The encoder's two flags: whether each direction has sent its ChangeCipherSpec. */
  ghost predicate Tracks(active: seq<bool>, records: seq<Record>, i: nat)
    requires i <= |records|
  {
    |active| == 2 && forall d: Direction :: active[d] == ActiveBefore(records, i, d)
  }

  lemma NothingEncoded(records: seq<Record>)
    ensures Tracks([false, false], records, 0)
  {
  }

  lemma OpaqueRule(records: seq<Record>, i: nat, active: seq<bool>)
    requires i < |records| && Tracks(active, records, i)
    ensures |active| == 2
    ensures OpaqueAt(records, i) <==> records[i].contentType == APPLICATION_DATA || active[records[i].direction]
  {
    hide ActiveBefore;
  }

  lemma TallyStep(records: seq<Record>, i: nat, t: Tally)
    requires i < |records|
    ensures TallyFrom(records, i, t) == TallyFrom(records, i + 1, CountRecord(t, records[i], OpaqueAt(records, i)))
  {
    hide OpaqueAt, CountRecord;
  }

  lemma AllEncoded(records: seq<Record>, t: Tally)
    ensures LayoutFrom(records, |records|) == [] && OpaqueFrom(records, |records|) == []
    ensures TallyFrom(records, |records|, t) == t
  {
  }

  lemma EncodeStep(records: seq<Record>, i: nat, out: Octets, hidden: Octets)
    requires i < |records|
    ensures out + LayoutFrom(records, i)
            == (out + RecordLayout(records[i], OpaqueAt(records, i))) + LayoutFrom(records, i + 1)
    ensures hidden + OpaqueFrom(records, i)
            == (if OpaqueAt(records, i) then hidden + records[i].fragment else hidden) + OpaqueFrom(records, i + 1)
  {
    Regroup(out, RecordLayout(records[i], OpaqueAt(records, i)), LayoutFrom(records, i + 1));
    Regroup(hidden, records[i].fragment, OpaqueFrom(records, i + 1));
    LeftAndRightUnit(OpaqueFrom(records, i + 1));
  }

  /** The loop body's writes to the layout. */
  method EncodeRecord(rec: Record, isOpaque: bool) returns (out: Octets)
    ensures out == RecordLayout(rec, isOpaque)
  {
    var cc, vc := ContentCode(rec.contentType), VersionCode(rec.version);
    out := [Tag(rec.direction, isOpaque, vc, cc)];
    if cc == 7 {
      out := out + [rec.contentType];
    }
    if vc == 7 {
      out := out + rec.version;
    }
    assert out == RecordHead(rec, isOpaque);
    var length := EncodeUVarint(|rec.fragment|);
    if isOpaque {
      out := out + length.value;
    } else {
      out := out + (length.value + rec.fragment);
    }
  }

  lemma ActiveStep(records: seq<Record>, i: nat, active: seq<bool>)
    requires i < |records| && |active| == 2 && Tracks(active, records, i)
    ensures Tracks(if records[i].contentType == CHANGE_CIPHER_SPEC then active[records[i].direction := true]
                   else active, records, i + 1)
  {
    forall d: Direction
      ensures ActiveBefore(records, i + 1, d)
              == (ActiveBefore(records, i, d)
                  || (records[i].direction == d && records[i].contentType == CHANGE_CIPHER_SPEC))
    {
      if ActiveBefore(records, i, d) {
        var j :| 0 <= j < i && records[j].direction == d && records[j].contentType == CHANGE_CIPHER_SPEC;
        assert 0 <= j < i + 1;
      }
    }
  }

  /** _encode_tls_records */
  method EncodeTlsRecords(chunks: seq<Chunk>) returns (r: Result<Encoded>)
    ensures r.Ok? <==> Split(chunks).Ok?
    ensures r.Ok? ==>
              var records := Split(chunks).value;
              r.value == Encoded(CaptureLayout(records), OpaqueFrom(records, 0), StatsOf(chunks, records))
    ensures r.Err? ==> r == Err(ValueError)
  {
    var split := SplitTlsRecords(chunks);
    if split.Err? {
      DrainErrors(chunks);
      return Err(ValueError);
    }
    hide Split, OpaqueAt, Tracks, LayoutFrom, OpaqueFrom, TallyFrom, RecordLayout, UVarint, CountRecord,
      TotalBytes;
    var records := split.value;
    var count := EncodeUVarint(|records|);
    var out := count.value;
    var hidden: Octets := [];
    var tally := Tally(0, 0, 0);
    var active := [false, false];
    NothingEncoded(records);
    LeftAndRightUnit(OpaqueFrom(records, 0));
    for i := 0 to |records|
      invariant Tracks(active, records, i)
      invariant out + LayoutFrom(records, i) == CaptureLayout(records)
      invariant hidden + OpaqueFrom(records, i) == OpaqueFrom(records, 0)
      invariant TallyFrom(records, i, tally) == TallyFrom(records, 0, Tally(0, 0, 0))
    {
      var rec := records[i];
      OpaqueRule(records, i, active);
      var isOpaque := rec.contentType == APPLICATION_DATA || active[rec.direction];
      EncodeStep(records, i, out, hidden);
      TallyStep(records, i, tally);
      var layout := EncodeRecord(rec, isOpaque);
      out := out + layout;
      if isOpaque {
        hidden := hidden + rec.fragment;
      }
      tally := CountRecord(tally, rec, isOpaque);
      ActiveStep(records, i, active);
      if rec.contentType == CHANGE_CIPHER_SPEC {
        active := active[rec.direction := true];
      }
    }
    AllEncoded(records, tally);
    LeftAndRightUnit(out);
    LeftAndRightUnit(hidden);
    return Ok(Encoded(out, hidden, Stats(|records|, 5 * |records|, tally, TotalBytes(chunks))));
  }

  // ----- Decoding

  type Decoded = Leading<Chunk, Cursors>

  function ReadContentType(code: nat, s: Octets): (r: Read<Option<Byte>>)
    ensures r.used <= |s|
  {
    if code == 7 then
      var b := ReadByte(s);
      Read(if b.result.Ok? then Ok(Some(b.result.value)) else Err(DecodeError), b.used)
    else Read(Ok(CodeContent(code)), 0)
  }

  function ReadVersion(code: nat, s: Octets): (r: Read<Option<Octets>>)
    ensures r.used <= |s|
  {
    if code == 7 then
      var v := ReadTake(s, 2);
      Read(if v.result.Ok? then Ok(Some(v.result.value)) else Err(DecodeError), v.used)
    else Read(Ok(CodeVersion(code)), 0)
  }

  /** The fragment, from the opaque stream or from the layout; both cursors' remainders come back with it. */
  function ReadFragment(isOpaque: bool, layout: Octets, hidden: Octets): (r: Result<(Octets, Octets, Octets)>)
    ensures r.Ok? ==> |r.value.0| <= MAX_RECORD_LENGTH
  {
    if isOpaque then
      var n := ReadUVarint(layout, MAX_RECORD_LENGTH);
      var length :- n.result;
      var f := ReadTake(hidden, length);
      var fragment :- f.result;
      Ok((fragment, Skip(layout, n.used), Skip(hidden, f.used)))
    else
      var f := ReadBlob(layout, MAX_RECORD_LENGTH);
      var fragment :- f.result;
      Ok((fragment, Skip(layout, f.used), hidden))
  }

  /** The rest of the record once its tag has been taken apart. */
  function DecodeTagged(d: Direction, isOpaque: bool, vc: nat, cc: nat, layout: Octets,
      hidden: Octets): Result<Decoded> {
    var ct := ReadContentType(cc, layout);
    var contentType :- ct.result;
    var ver := ReadVersion(vc, Skip(layout, ct.used));
    var version :- ver.result;
    if contentType.None? || version.None? then Err(DecodeError)
    else
      var f :- ReadFragment(isOpaque, Skip(Skip(layout, ct.used), ver.used), hidden);
      Ok(Leading([Chunk(d, [contentType.value] + version.value + U16(|f.0|) + f.0)], Cursors(f.1, f.2)))
  }

  function DecodeRecord(layout: Octets, hidden: Octets): Result<Decoded> {
    var tag :- ReadByte(layout).result;
    DecodeTagged(tag / 128, tag / 64 % 2 == 1, tag / 8 % 8, tag % 8, layout[1..], hidden)
  }

  function DecodeMany(count: nat, layout: Octets, hidden: Octets): Result<Decoded> {
    if count == 0 then Ok(Leading([], Cursors(layout, hidden)))
    else
      var one :- DecodeRecord(layout, hidden);
      Prepend(one.items, DecodeMany(count - 1, one.rest.layout, one.rest.hidden))
  }

  /** One capture: record count, records, and nothing left in its own layout. */
  function DecodeCapture(layout: Octets, hidden: Octets): Result<(seq<Chunk>, Octets)> {
    var n := ReadUVarint(layout, MAX_RECORDS);
    var count :- n.result;
    var t :- DecodeMany(count, Skip(layout, n.used), hidden);
    if t.rest.layout != [] then Err(DecodeError) else Ok((t.items, t.rest.hidden))
  }

  lemma DecodeManyStep(n: nat, layout: Octets, hidden: Octets)
    requires n > 0
    ensures DecodeMany(0, layout, hidden) == Ok(Leading([], Cursors(layout, hidden)))
    ensures DecodeMany(n, layout, hidden) ==
            var one := DecodeRecord(layout, hidden);
            if one.Err? then Err(one.error)
            else Prepend(one.value.items, DecodeMany(n - 1, one.value.rest.layout, one.value.rest.hidden))
  {
    hide DecodeRecord;
  }

  method NextContentType(reader: Reader, code: nat) returns (r: Result<Option<Byte>>)
    requires reader.Valid()
    modifies reader
    ensures reader.Valid()
    ensures r == ReadContentType(code, old(reader.Rest())).result
    ensures reader.Rest() == Skip(old(reader.Rest()), ReadContentType(code, old(reader.Rest())).used)
  {
    if code == 7 {
      var b :- reader.NextByte();
      return Ok(Some(b));
    }
    return Ok(CodeContent(code));
  }

  method NextVersion(reader: Reader, code: nat) returns (r: Result<Option<Octets>>)
    requires reader.Valid()
    modifies reader
    ensures reader.Valid()
    ensures r == ReadVersion(code, old(reader.Rest())).result
    ensures reader.Rest() == Skip(old(reader.Rest()), ReadVersion(code, old(reader.Rest())).used)
  {
    if code == 7 {
      var v :- reader.Take(2);
      return Ok(Some(v));
    }
    return Ok(CodeVersion(code));
  }

  method NextFragment(isOpaque: bool, reader: Reader, opaqueReader: Reader) returns (r: Result<Octets>)
    requires reader != opaqueReader && reader.Valid() && opaqueReader.Valid()
    modifies reader, opaqueReader
    ensures reader.Valid() && opaqueReader.Valid()
    ensures var spec := ReadFragment(isOpaque, old(reader.Rest()), old(opaqueReader.Rest()));
            if spec.Err? then r == Err(spec.error)
            else r.Ok? && spec.value == (r.value, reader.Rest(), opaqueReader.Rest())
  {
    if isOpaque {
      var length :- reader.NextUVarint(MAX_RECORD_LENGTH);
      r := opaqueReader.Take(length);
    } else {
      r := reader.NextBlob(MAX_RECORD_LENGTH);
    }
  }

  /** The decoder's loop body: one record off both cursors. */
  method DecodeOne(reader: Reader, opaqueReader: Reader) returns (r: Result<Chunk>)
    requires reader != opaqueReader && reader.Valid() && opaqueReader.Valid()
    modifies reader, opaqueReader
    ensures reader.Valid() && opaqueReader.Valid()
    ensures var spec := DecodeRecord(old(reader.Rest()), old(opaqueReader.Rest()));
            if spec.Err? then r == Err(spec.error)
            else r.Ok? && spec.value == Leading([r.value], Cursors(reader.Rest(), opaqueReader.Rest()))
  {
    hide ReadContentType, ReadVersion, ReadFragment;
    var tag :- reader.NextByte();
    var contentType :- NextContentType(reader, tag % 8);
    var version :- NextVersion(reader, tag / 8 % 8);
    if contentType.None? || version.None? {
      return Err(DecodeError);
    }
    var fragment :- NextFragment(tag / 64 % 2 == 1, reader, opaqueReader);
    return Ok(Chunk(tag / 128, [contentType.value] + version.value + U16(|fragment|) + fragment));
  }

  /** _decode_tls_records */
  method DecodeTlsRecords(layout: Octets, opaqueReader: Reader) returns (r: Result<seq<Chunk>>)
    requires opaqueReader.Valid()
    modifies opaqueReader
    ensures opaqueReader.Valid()
    ensures var spec := DecodeCapture(layout, old(opaqueReader.Rest()));
            if spec.Err? then r == Err(spec.error) else r == Ok(spec.value.0) && opaqueReader.Rest() == spec.value.1
  {
    hide DecodeRecord, DecodeMany, Prepend, ReadUVarint;
    var reader := new Reader(layout);
    var count :- reader.NextUVarint(MAX_RECORDS);
    var records: seq<Chunk> := [];
    ghost var whole := DecodeMany(count, reader.Rest(), opaqueReader.Rest());
    PrependTwice([], [], whole);
    for i := 0 to count
      invariant reader.Valid() && opaqueReader.Valid()
      invariant whole == Prepend(records, DecodeMany(count - i, reader.Rest(), opaqueReader.Rest()))
    {
      DecodeManyStep(count - i, reader.Rest(), opaqueReader.Rest());
      PrependNone(records, Cursors([], []));
      var chunk :- DecodeOne(reader, opaqueReader);
      PrependTwice(records, [chunk], DecodeMany(count - i - 1, reader.Rest(), opaqueReader.Rest()));
      records := records + [chunk];
    }
    DecodeManyStep(1, reader.Rest(), opaqueReader.Rest());
    PrependNone(records, Cursors(reader.Rest(), opaqueReader.Rest()));
    var _ :- reader.Finish();
    return Ok(records);
  }
}
