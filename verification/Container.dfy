/**
 * The MinARX v1 container (minarx/format.py) and its byte accounting (minarx/archive.py). Compression and
 * SHA-256 are parameters; what is assumed of them is the predicate Sound.
 */
module Container {
  import opened Bytes

  /** b"MINARX\r\n" */
  const MAGIC: Octets := [0x4D, 0x49, 0x4E, 0x41, 0x52, 0x58, 0x0D, 0x0A]
  const VERSION: Byte := 1
  const HEADER_SIZE: nat := 34
  const DIGEST_SIZE: nat := 32
  const MAX_ARCHIVE_PAYLOAD: nat := 0x8000_0000
  const FIELD_LIMIT: nat := 0x1_0000_0000

  /** The registry numbers its profiles 1 to 16. */
  const PROFILE_COUNT: nat := 16

  datatype Codecs = Codecs(
    deflate: Octets -> Octets,
    inflate: (Octets, nat) -> Option<Octets>,   // None: not one complete stream within the size limit
    lzma: Octets -> Octets,
    unlzma: (Octets, nat) -> Option<Octets>,
    sha256: Octets -> Octets)

  /** Decompression undoes compression when allowed one byte more than the result; digests are 32 bytes. */
  ghost predicate Sound(c: Codecs) {
    && (forall x: Octets :: c.inflate(c.deflate(x), |x| + 1) == Some(x))
    && (forall x: Octets :: c.unlzma(c.lzma(x), |x| + 1) == Some(x))
    && (forall x: Octets :: |c.sha256(x)| == DIGEST_SIZE)
  }

  datatype Request = RequestNone | RequestDeflate | RequestLzma | RequestAuto | RequestUnknown

  function Shorter(a: (nat, Octets), b: (nat, Octets)): (nat, Octets) {
    if |b.1| < |a.1| then b else a
  }

  /** _compress: the layout only; "auto" keeps the first shortest of the three. */
  function Compress(c: Codecs, layout: Octets, request: Request): Result<(nat, Octets)> {
    match request
    case RequestNone => Ok((0, layout))
    case RequestDeflate => Ok((1, c.deflate(layout)))
    case RequestLzma => Ok((2, c.lzma(layout)))
    case RequestAuto => Ok(Shorter(Shorter((0, layout), (1, c.deflate(layout))), (2, c.lzma(layout))))
    case RequestUnknown => Err(ValueError)
  }

  datatype Content = Content(profileId: nat, serverPort: nat, raw: nat, transport: nat, layout: Octets,
      opaqueBytes: Octets)

  predicate Consistent(m: Content) {
    |m.opaqueBytes| <= m.transport <= m.raw <= MAX_ARCHIVE_PAYLOAD
  }

  function Header(m: Content, compressionId: nat, stored: nat): (h: Octets)
    requires m.profileId < 256 && compressionId < 256 && m.serverPort < 65536
    requires m.raw < FIELD_LIMIT && m.transport < FIELD_LIMIT && stored < FIELD_LIMIT
    requires |m.layout| < FIELD_LIMIT && |m.opaqueBytes| < FIELD_LIMIT
    ensures |h| == HEADER_SIZE
  {
    MAGIC + [VERSION, m.profileId, compressionId, 0] + U16(m.serverPort)
    + U32(m.raw) + U32(m.transport) + U32(stored) + U32(|m.layout|) + U32(|m.opaqueBytes|)
  }

  function Seal(c: Codecs, body: Octets): Octets {
    body + c.sha256(body)
  }

  /** write_container, up to the bytes written. */
  function Write(c: Codecs, m: Content, request: Request): Result<Octets> {
    if !(1 <= m.profileId <= PROFILE_COUNT) then Err(ValueError)
    else if !(0 < m.serverPort <= 65535) then Err(ValueError)
    else if !Consistent(m) then Err(ValueError)
    else if |m.layout| > MAX_ARCHIVE_PAYLOAD then Err(ValueError)
    else
      var stored :- Compress(c, m.layout, request);
      if |stored.1| >= FIELD_LIMIT then Err(StructError)
      else Ok(Seal(c, Header(m, stored.0, |stored.1|) + stored.1 + m.opaqueBytes))
  }

  datatype Opened = Opened(content: Content, compressionId: nat, archiveBytes: nat, storedLayoutBytes: nat)

  function Expand(c: Codecs, compressionId: nat, stored: Octets, plain: nat): Result<Octets> {
    if compressionId == 0 then Ok(stored)
    else
      var layout := if compressionId == 1 then c.inflate(stored, plain + 1) else c.unlzma(stored, plain + 1);
      if layout.None? then Err(FormatError) else Ok(layout.value)
  }

  function ReadBody(c: Codecs, body: Octets, size: nat, maxPayload: nat): Result<Opened>
    requires |body| >= HEADER_SIZE
  {
    var profileId, compressionId := body[9], body[10];
    var serverPort := BigEndian(body[12..14]);
    var raw, transport := BigEndian(body[14..18]), BigEndian(body[18..22]);
    var storedLength, plainLength, opaqueLength := BigEndian(body[22..26]), BigEndian(body[26..30]),
        BigEndian(body[30..34]);
    if body[..8] != MAGIC || body[8] != VERSION then Err(FormatError)
    else if !(1 <= profileId <= PROFILE_COUNT) || compressionId > 2 || body[11] != 0 then Err(FormatError)
    else if serverPort == 0 || !(opaqueLength <= transport <= raw) then Err(FormatError)
    else if raw > maxPayload || transport > maxPayload || storedLength > maxPayload || plainLength > maxPayload
            || opaqueLength > maxPayload then Err(FormatError)
    else if HEADER_SIZE + storedLength + opaqueLength != |body| then Err(FormatError)
    else
      var stored := body[HEADER_SIZE..HEADER_SIZE + storedLength];
      var layout :- Expand(c, compressionId, stored, plainLength);
      if |layout| != plainLength then Err(FormatError)
      else Ok(Opened(Content(profileId, serverPort, raw, transport, layout, body[HEADER_SIZE + storedLength..]),
                     compressionId, size, storedLength))
  }

  /** read_container, from the bytes of the file. */
  function Read(c: Codecs, encoded: Octets, maxPayload: nat): Result<Opened> {
    if |encoded| < HEADER_SIZE + DIGEST_SIZE then Err(FormatError)
    else
      var body, digest := encoded[..|encoded| - DIGEST_SIZE], encoded[|encoded| - DIGEST_SIZE..];
      if c.sha256(body) != digest then Err(FormatError) else ReadBody(c, body, |encoded|, maxPayload)
  }

  // ----- What compression chooses

  /** The three forms "auto" compares, in the order in which ties are decided. */
  function Candidates(c: Codecs, layout: Octets): seq<Octets> {
    [layout, c.deflate(layout), c.lzma(layout)]
  }

  /**
   * The identifier is the position of the stored form: 0 as it is, 1 deflated, 2 as LZMA. "auto" stores the first
   * candidate than which none is shorter.
   */
  lemma CompressExactly(c: Codecs, layout: Octets, request: Request)
    ensures Compress(c, layout, request).Err? <==> request.RequestUnknown?
    ensures request.RequestUnknown? ==> Compress(c, layout, request) == Err(ValueError)
    ensures Compress(c, layout, request).Ok? ==>
              var (id, stored) := Compress(c, layout, request).value;
              && id < 3 && stored == Candidates(c, layout)[id]
              && (request.RequestNone? ==> id == 0) && (request.RequestDeflate? ==> id == 1)
              && (request.RequestLzma? ==> id == 2)
              && (request.RequestAuto? ==>
                    && (forall j :: 0 <= j < 3 ==> |stored| <= |Candidates(c, layout)[j]|)
                    && (forall j :: 0 <= j < id ==> |stored| < |Candidates(c, layout)[j]|))
  {
  }

  // ----- Reading back what was written

  lemma CompressFacts(c: Codecs, layout: Octets, request: Request)
    requires Sound(c) && Compress(c, layout, request).Ok?
    ensures var s := Compress(c, layout, request).value;
            && s.0 <= 2
            && Expand(c, s.0, s.1, |layout|) == Ok(layout)
            && (request == RequestNone || request == RequestAuto ==> |s.1| <= |layout|)
            && (request == RequestAuto ==> |s.1| <= |c.deflate(layout)| && |s.1| <= |c.lzma(layout)|)
  {
  }

  /** The fixed header at its offsets. */
  lemma HeaderFields(m: Content, compressionId: nat, stored: Octets, body: Octets)
    requires m.profileId < 256 && compressionId < 256 && m.serverPort < 65536
    requires m.raw < FIELD_LIMIT && m.transport < FIELD_LIMIT && |stored| < FIELD_LIMIT
    requires |m.layout| < FIELD_LIMIT && |m.opaqueBytes| < FIELD_LIMIT
    requires body == Header(m, compressionId, |stored|) + stored + m.opaqueBytes
    ensures |body| == HEADER_SIZE + |stored| + |m.opaqueBytes|
    ensures body[..8] == MAGIC && body[8] == VERSION && body[9] == m.profileId && body[10] == compressionId
        && body[11] == 0
    ensures BigEndian(body[12..14]) == m.serverPort
    ensures BigEndian(body[14..18]) == m.raw && BigEndian(body[18..22]) == m.transport
    ensures BigEndian(body[22..26]) == |stored| && BigEndian(body[26..30]) == |m.layout|
    ensures BigEndian(body[30..34]) == |m.opaqueBytes|
    ensures body[HEADER_SIZE..HEADER_SIZE + |stored|] == stored
    ensures body[HEADER_SIZE + |stored|..] == m.opaqueBytes
  {
    hide U16, U32, BigEndian, MAGIC;
    var h := Header(m, compressionId, |stored|);
    assert h[..8] == MAGIC;
    assert h[12..14] == U16(m.serverPort);
    assert h[14..18] == U32(m.raw) && h[18..22] == U32(m.transport);
    assert h[22..26] == U32(|stored|) && h[26..30] == U32(|m.layout|) && h[30..34] == U32(|m.opaqueBytes|);
    assert body == h + (stored + m.opaqueBytes);
    assert body[..8] == h[..8] && body[12..14] == h[12..14];
    assert body[14..18] == h[14..18] && body[18..22] == h[18..22] && body[22..26] == h[22..26];
    assert body[26..30] == h[26..30] && body[30..34] == h[30..34];
    assert body[HEADER_SIZE..HEADER_SIZE + |stored|] == stored;
    assert body[HEADER_SIZE + |stored|..] == m.opaqueBytes;
  }

  /** What the reader's limit must admit, given a consistent header. */
  predicate Admits(m: Content, stored: Octets, maxPayload: nat) {
    m.raw <= maxPayload && |stored| <= maxPayload && |m.layout| <= maxPayload
  }

  lemma BodyReads(c: Codecs, m: Content, compressionId: nat, stored: Octets, size: nat, maxPayload: nat)
    requires 1 <= m.profileId <= PROFILE_COUNT && compressionId <= 2 && 0 < m.serverPort < 65536
    requires |m.opaqueBytes| <= m.transport <= m.raw < FIELD_LIMIT
    requires |m.layout| < FIELD_LIMIT && |stored| < FIELD_LIMIT
    requires Expand(c, compressionId, stored, |m.layout|) == Ok(m.layout)
    ensures var r := ReadBody(c, Header(m, compressionId, |stored|) + stored + m.opaqueBytes, size, maxPayload);
            r == if Admits(m, stored, maxPayload) then Ok(Opened(m, compressionId, size, |stored|))
                else Err(FormatError)
  {
    hide Header, Expand, BigEndian, MAGIC;
    HeaderFields(m, compressionId, stored, Header(m, compressionId, |stored|) + stored + m.opaqueBytes);
  }

  /**
   * The container inverse: a written archive reads back as exactly what was stored, precisely when the caller's
   * limit admits its counters and its stored layout.
   */
  lemma ReadInvertsWrite(c: Codecs, m: Content, request: Request, maxPayload: nat)
    requires Sound(c) && Write(c, m, request).Ok?
    ensures var encoded := Write(c, m, request).value;
            var stored := Compress(c, m.layout, request).value;
            && |encoded| == 66 + |stored.1| + |m.opaqueBytes|
            && (Read(c, encoded, maxPayload).Ok? <==> Admits(m, stored.1, maxPayload))
            && (Read(c, encoded, maxPayload).Ok? ==>
                  Read(c, encoded, maxPayload).value == Opened(m, stored.0, |encoded|, |stored.1|))
  {
    hide Header, Compress, Expand, ReadBody, Admits;
    var stored := Compress(c, m.layout, request).value;
    CompressFacts(c, m.layout, request);
    var body := Header(m, stored.0, |stored.1|) + stored.1 + m.opaqueBytes;
    var encoded := Write(c, m, request).value;
    assert encoded[..|encoded| - DIGEST_SIZE] == body;
    assert encoded[|encoded| - DIGEST_SIZE..] == c.sha256(body);
    BodyReads(c, m, stored.0, stored.1, |encoded|, maxPayload);
  }

  /** At the default limit an archive always reads back when its layout was not made longer by compression. */
  lemma DefaultLimitSuffices(c: Codecs, m: Content, request: Request)
    requires Sound(c) && Write(c, m, request).Ok?
    ensures Read(c, Write(c, m, request).value, MAX_ARCHIVE_PAYLOAD).Ok? <==>
              |Compress(c, m.layout, request).value.1| <= MAX_ARCHIVE_PAYLOAD
    ensures request == RequestNone || request == RequestAuto ==>
              Read(c, Write(c, m, request).value, MAX_ARCHIVE_PAYLOAD).Ok?
  {
    hide Read, Header;
    ReadInvertsWrite(c, m, request, MAX_ARCHIVE_PAYLOAD);
    CompressFacts(c, m.layout, request);
  }

  function Shortened(x: Octets): Option<Octets> {
    if x == [] then None else Some(x[..|x| - 1])
  }

  /** Codecs that are Sound, and whose compressed form is always one byte longer. */
  function AppendingCodecs(): Codecs {
    var append, drop := (x: Octets) => x + [0], (x: Octets, limit: nat) => Shortened(x);
    Codecs(append, drop, append, drop, x => Zeros(DIGEST_SIZE))
  }

  lemma AppendingIsSound()
    ensures Sound(AppendingCodecs())
  {
    forall x: Octets
      ensures Shortened(x + [0]) == Some(x)
    {
      assert (x + [0])[..|x + [0]| - 1] == x;
    }
  }

  /** A layout of exactly the limit. */
  function LimitContent(): Content {
    Content(1, 443, 0, 0, Zeros(MAX_ARCHIVE_PAYLOAD), [])
  }

  /** A concrete archive that is written with an explicit compression choice and that the reader then refuses. */
  lemma WrittenButRefused()
    ensures Sound(AppendingCodecs())
    ensures Write(AppendingCodecs(), LimitContent(), RequestDeflate).Ok?
    ensures var written := Write(AppendingCodecs(), LimitContent(), RequestDeflate).value;
            Read(AppendingCodecs(), written, MAX_ARCHIVE_PAYLOAD).Err?
  {
    hide Sound, Read, Header, Zeros;
    var c, m := AppendingCodecs(), LimitContent();
    AppendingIsSound();
    assert |c.deflate(m.layout)| == MAX_ARCHIVE_PAYLOAD + 1;
    DefaultLimitSuffices(c, m, RequestDeflate);
  }

  lemma BodyIsHeader(body: Octets, m: Content, compressionId: nat, stored: Octets)
    requires |body| >= HEADER_SIZE
    requires body[..8] == MAGIC && body[8] == VERSION && body[9] == m.profileId && body[10] == compressionId
    requires body[11] == 0
    requires BigEndian(body[12..14]) == m.serverPort
    requires BigEndian(body[14..18]) == m.raw && BigEndian(body[18..22]) == m.transport
    requires BigEndian(body[22..26]) == |stored| && BigEndian(body[26..30]) == |m.layout|
    requires BigEndian(body[30..34]) == |m.opaqueBytes|
    ensures m.serverPort < 65536 && m.raw < FIELD_LIMIT && m.transport < FIELD_LIMIT && |stored| < FIELD_LIMIT
    ensures |m.layout| < FIELD_LIMIT && |m.opaqueBytes| < FIELD_LIMIT
    ensures body[..HEADER_SIZE] == Header(m, compressionId, |stored|)
  {
    hide U16, U32, BigEndian, MAGIC;
    BigEndian2(body[12..14]);
    BigEndian4(body[14..18]);
    BigEndian4(body[18..22]);
    BigEndian4(body[22..26]);
    BigEndian4(body[26..30]);
    BigEndian4(body[30..34]);
    assert body[..HEADER_SIZE] == body[..8] + body[8..12] + body[12..14] + body[14..18] + body[18..22]
                                  + body[22..26] + body[26..30] + body[30..34];
    assert body[8..12] == [VERSION, m.profileId, compressionId, 0];
  }

  /** The other inverse: an accepted archive stored without compression is rewritten byte for byte. */
  lemma WriteInvertsRead(c: Codecs, encoded: Octets)
    requires Read(c, encoded, MAX_ARCHIVE_PAYLOAD).Ok?
    requires Read(c, encoded, MAX_ARCHIVE_PAYLOAD).value.compressionId == 0
    ensures Write(c, Read(c, encoded, MAX_ARCHIVE_PAYLOAD).value.content, RequestNone) == Ok(encoded)
  {
    hide Header, BigEndian;
    var body := encoded[..|encoded| - DIGEST_SIZE];
    var archive := Read(c, encoded, MAX_ARCHIVE_PAYLOAD).value;
    var m := archive.content;
    BodyIsHeader(body, m, 0, m.layout);
    assert body == body[..HEADER_SIZE] + m.layout + m.opaqueBytes;
    assert encoded == body + encoded[|encoded| - DIGEST_SIZE..];
  }

  // ----- The file, byte for byte

  /** Fixed fields in network byte order, the stored layout, the opaque bytes, and the digest of all of them. */
  ghost predicate FramedAs(c: Codecs, encoded: Octets, m: Content, compressionId: nat, stored: Octets) {
    && 1 <= m.profileId <= 16 && compressionId <= 2 && 0 < m.serverPort < 65536
    && |m.opaqueBytes| <= m.transport <= m.raw < 0x1_0000_0000
    && |stored| < 0x1_0000_0000 && |m.layout| < 0x1_0000_0000
    && var body := [0x4D, 0x49, 0x4E, 0x41, 0x52, 0x58, 0x0D, 0x0A, 1, m.profileId, compressionId, 0]
                   + U16(m.serverPort) + U32(m.raw) + U32(m.transport) + U32(|stored|) + U32(|m.layout|)
                   + U32(|m.opaqueBytes|) + stored + m.opaqueBytes;
       encoded == body + c.sha256(body)
  }

  /** The stored form gives the layout: as it is, inflated, or from LZMA, with one byte allowed beyond its length. */
  predicate Unpacks(c: Codecs, compressionId: nat, stored: Octets, layout: Octets) {
    match compressionId
    case 0 => stored == layout
    case 1 => c.inflate(stored, |layout| + 1) == Some(layout)
    case _ => c.unlzma(stored, |layout| + 1) == Some(layout)
  }

  ghost predicate Digests(c: Codecs) {
    forall x: Octets :: |c.sha256(x)| == 32
  }

  lemma FramedHeader(m: Content, compressionId: nat, stored: Octets, body: Octets)
    requires m.profileId < 256 && compressionId < 256 && m.serverPort < 65536
    requires m.raw < 0x1_0000_0000 && m.transport < 0x1_0000_0000 && |stored| < 0x1_0000_0000
    requires |m.layout| < 0x1_0000_0000 && |m.opaqueBytes| < 0x1_0000_0000
    requires body == [0x4D, 0x49, 0x4E, 0x41, 0x52, 0x58, 0x0D, 0x0A, 1, m.profileId, compressionId, 0]
                     + U16(m.serverPort) + U32(m.raw) + U32(m.transport) + U32(|stored|) + U32(|m.layout|)
                     + U32(|m.opaqueBytes|) + stored + m.opaqueBytes
    ensures body == Header(m, compressionId, |stored|) + stored + m.opaqueBytes
    ensures |body| == 34 + |stored| + |m.opaqueBytes| && body[34..34 + |stored|] == stored
  {
    hide U16, U32;
  }

  lemma HeaderIsFrame(c: Codecs, m: Content, compressionId: nat, stored: Octets, encoded: Octets)
    requires 1 <= m.profileId <= 16 && compressionId <= 2 && 0 < m.serverPort < 65536
    requires |m.opaqueBytes| <= m.transport <= m.raw < 0x1_0000_0000
    requires |stored| < 0x1_0000_0000 && |m.layout| < 0x1_0000_0000
    requires var body := Header(m, compressionId, |stored|) + stored + m.opaqueBytes;
             encoded == body + c.sha256(body)
    ensures FramedAs(c, encoded, m, compressionId, stored)
  {
    hide U16, U32;
    FramedHeader(m, compressionId, stored,
                 [0x4D, 0x49, 0x4E, 0x41, 0x52, 0x58, 0x0D, 0x0A, 1, m.profileId, compressionId, 0]
                 + U16(m.serverPort) + U32(m.raw) + U32(m.transport) + U32(|stored|) + U32(|m.layout|)
                 + U32(|m.opaqueBytes|) + stored + m.opaqueBytes);
  }

  /** What may be written, and the bytes that are. */
  lemma WrittenExactly(c: Codecs, m: Content, request: Request)
    ensures Write(c, m, request).Ok? <==>
            && 1 <= m.profileId <= 16 && 0 < m.serverPort < 65536
            && |m.opaqueBytes| <= m.transport <= m.raw <= 0x8000_0000 && |m.layout| <= 0x8000_0000
            && !request.RequestUnknown? && |Compress(c, m.layout, request).value.1| < 0x1_0000_0000
    ensures Write(c, m, request).Ok? ==>
              var (id, stored) := Compress(c, m.layout, request).value;
              FramedAs(c, Write(c, m, request).value, m, id, stored)
    ensures Write(c, m, request).Err? ==>
              var stored := Compress(c, m.layout, request);
              Write(c, m, request) == Err(ValueError)
              || (stored.Ok? && |stored.value.1| >= 0x1_0000_0000 && Write(c, m, request) == Err(StructError))
  {
    CompressExactly(c, m.layout, request);
    hide Compress, Header, FramedAs;
    if Write(c, m, request).Ok? {
      var stored := Compress(c, m.layout, request).value;
      HeaderIsFrame(c, m, stored.0, stored.1, Write(c, m, request).value);
    }
  }

  lemma ThreeParts(body: Octets, n: nat)
    requires 34 + n <= |body|
    ensures body == body[..34] + body[34..34 + n] + body[34 + n..]
  {
  }

  /** The fields of an accepted body give back its bytes. */
  lemma ReadBodyFields(c: Codecs, body: Octets, size: nat, maxPayload: nat)
    requires |body| >= 34 && ReadBody(c, body, size, maxPayload).Ok?
    ensures var a := ReadBody(c, body, size, maxPayload).value;
            var n, m := a.storedLayoutBytes, a.content;
            && 34 + n <= |body| && 1 <= m.profileId <= 16 && a.compressionId <= 2 && 0 < m.serverPort
            && |m.opaqueBytes| <= m.transport <= m.raw && a.archiveBytes == size
            && body == body[..34] + body[34..34 + n] + m.opaqueBytes
            && m.raw < 0x1_0000_0000 && n < 0x1_0000_0000 && |m.layout| < 0x1_0000_0000 && m.serverPort < 65536
            && body[..34] == Header(m, a.compressionId, n)
            && Unpacks(c, a.compressionId, body[34..34 + n], m.layout)
            && m.raw <= maxPayload && n <= maxPayload && |m.layout| <= maxPayload
  {
    hide Header, BigEndian;
    var a := ReadBody(c, body, size, maxPayload).value;
    var n := a.storedLayoutBytes;
    BodyIsHeader(body, a.content, a.compressionId, body[34..34 + n]);
    assert a.content.opaqueBytes == body[34 + n..];
    ThreeParts(body, n);
  }

  lemma FramedReads(c: Codecs, encoded: Octets, maxPayload: nat, m: Content, compressionId: nat, stored: Octets)
    requires Digests(c) && FramedAs(c, encoded, m, compressionId, stored)
    requires Unpacks(c, compressionId, stored, m.layout)
    ensures Read(c, encoded, maxPayload) ==
            if Admits(m, stored, maxPayload) then Ok(Opened(m, compressionId, |encoded|, |stored|))
            else Err(FormatError)
  {
    hide Header, ReadBody, U16, U32, Admits;
    var body := encoded[..|encoded| - 32];
    FramedHeader(m, compressionId, stored, body);
    BodyReads(c, m, compressionId, stored, |encoded|, maxPayload);
    assert encoded[|encoded| - 32..] == c.sha256(body);
  }

  lemma ReadErrors(c: Codecs, encoded: Octets, maxPayload: nat)
    ensures Read(c, encoded, maxPayload).Err? ==> Read(c, encoded, maxPayload) == Err(FormatError)
  {
    hide BigEndian;
  }

  /** The reader accepts exactly the files so framed, within the caller's limit, and reports what they hold. */
  lemma ReadExactly(c: Codecs, encoded: Octets, maxPayload: nat, m: Content, compressionId: nat, n: nat)
    requires Digests(c) && 34 + n <= |encoded|
    ensures var stored := encoded[34..34 + n];
            Read(c, encoded, maxPayload) == Ok(Opened(m, compressionId, |encoded|, n)) <==>
            && FramedAs(c, encoded, m, compressionId, stored) && Unpacks(c, compressionId, stored, m.layout)
            && m.raw <= maxPayload && n <= maxPayload && |m.layout| <= maxPayload
    ensures Read(c, encoded, maxPayload).Err? ==> Read(c, encoded, maxPayload) == Err(FormatError)
  {
    hide Header, ReadBody, U16, U32;
    ReadErrors(c, encoded, maxPayload);
    var stored := encoded[34..34 + n];
    if |encoded| >= 66 {
      var body := encoded[..|encoded| - 32];
      assert encoded == body + encoded[|encoded| - 32..];
      if Read(c, encoded, maxPayload) == Ok(Opened(m, compressionId, |encoded|, n)) {
        ReadBodyFields(c, body, |encoded|, maxPayload);
        assert stored == body[34..34 + n];
        assert body == Header(m, compressionId, n) + stored + m.opaqueBytes;
        HeaderIsFrame(c, m, compressionId, stored, encoded);
      }
    }
    if FramedAs(c, encoded, m, compressionId, stored) && Unpacks(c, compressionId, stored, m.layout) {
      FramedReads(c, encoded, maxPayload, m, compressionId, stored);
    }
  }

  // ----- Byte accounting

  /** The profile stands for its protocol, mode and category, which both reports also name. */
  datatype Report = Report(
    profileId: nat, rawBytes: nat, transportBytes: nat, layoutBytes: nat, storedLayoutBytes: nat, opaqueBytes: nat,
    archiveBytes: nat, fixedContainerBytes: int, captureEnvelopeBytes: int, clearProtocolBytes: int,
    projectionSaving: int, structuralBaseline: int, structuralBefore: int, structuralAfter: int,
    deterministicPruning: int, netSavingBeforeCompression: int, layoutSaving: int, totalStructuralSaving: int)

  /** compact_capture's report, from the captures' totals and the archive just written and read. */
  function CompactReport(m: Content, archiveBytes: nat, storedLayoutBytes: nat): Report {
    var o, l := |m.opaqueBytes|, |m.layout|;
    var fixedBytes := archiveBytes - o - storedLayoutBytes;
    var clear := m.transport - o;
    var after := archiveBytes - o;
    var before := after + (l - storedLayoutBytes);
    var baseline := m.raw - o;
    Report(m.profileId, m.raw, m.transport, l, storedLayoutBytes, o, archiveBytes,
           fixedBytes, m.raw - m.transport, clear, clear - l,
           baseline, before, after, baseline - before,
           m.raw - (o + fixedBytes + l), l - storedLayoutBytes, baseline - after)
  }

  /** inspect_archive's report, from the file alone. */
  function InspectReport(a: Opened): Report {
    var o, l := |a.content.opaqueBytes|, |a.content.layout|;
    var baseline := a.content.raw - o;
    var before := a.archiveBytes - o + l - a.storedLayoutBytes;
    var after := a.archiveBytes - o;
    var fixedBytes := a.archiveBytes - o - a.storedLayoutBytes;
    var clear := a.content.transport - o;
    Report(a.content.profileId, a.content.raw, a.content.transport, l, a.storedLayoutBytes, o, a.archiveBytes,
           fixedBytes, a.content.raw - a.content.transport, clear, clear - l,
           baseline, before, after, baseline - before,
           a.content.raw - (o + fixedBytes + l), l - a.storedLayoutBytes, baseline - after)
  }

  /**
   * The reports agree, the framing always costs 66 bytes, and what an archive saves is exactly the envelope, the
   * projection and the layout compression less that cost; pruning and compression make up the structural saving.
   */
  lemma ReportsAgree(c: Codecs, m: Content, request: Request)
    requires Sound(c) && Write(c, m, request).Ok?
    requires Read(c, Write(c, m, request).value, MAX_ARCHIVE_PAYLOAD).Ok?
    ensures var archive := Read(c, Write(c, m, request).value, MAX_ARCHIVE_PAYLOAD).value;
            var report := CompactReport(m, |Write(c, m, request).value|, archive.storedLayoutBytes);
            && report == InspectReport(archive)
            && report.fixedContainerBytes == 66
            && report.rawBytes - report.archiveBytes
               == report.captureEnvelopeBytes + report.projectionSaving + report.layoutSaving - 66
            && report.totalStructuralSaving == report.deterministicPruning + report.layoutSaving
            && report.archiveBytes == report.opaqueBytes + report.structuralAfter
  {
    hide Read, Write, Header, Compress;
    ReadInvertsWrite(c, m, request, MAX_ARCHIVE_PAYLOAD);
  }

  /** Archive size under any compression choice depends on the layout bytes and the opaque length alone. */
  lemma SizeIgnoresOpaqueContent(c: Codecs, m: Content, n: Content, request: Request)
    requires Sound(c)
    requires m.profileId == n.profileId && m.serverPort == n.serverPort && m.raw == n.raw && m.transport == n.transport
    requires m.layout == n.layout && |m.opaqueBytes| == |n.opaqueBytes|
    ensures Write(c, m, request).Ok? <==> Write(c, n, request).Ok?
    ensures Write(c, m, request).Ok? ==> |Write(c, m, request).value| == |Write(c, n, request).value|
  {
    hide Header, Compress;
  }
}
