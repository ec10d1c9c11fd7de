/** The clear front of an SSH stream (parse_ssh_transport_stream in decryptor/core/ssh_crypto.py). */
module SshWire {
  import opened Bytes

  const KEXINIT: Byte := 20
  const NEWKEYS: Byte := 21
  const ECDH_INIT: Byte := 30
  const ECDH_REPLY: Byte := 31

  const SSH_DASH: Octets := [83, 83, 72, 45]
  const LINE_FEED: Byte := 10
  const CARRIAGE_RETURN: Byte := 13
  const COMMA: Byte := 44

  /** An algorithm name, as the bytes of its ASCII text. */
  type Name = Octets

  /** The bytes of a literal. */
  function Text(s: string): (bs: Octets)
    requires forall i :: 0 <= i < |s| ==> s[i] < 128 as char
    ensures |bs| == |s| && forall i :: 0 <= i < |s| ==> bs[i] == s[i] as nat
  {
    seq(|s|, i requires 0 <= i < |s| => s[i] as nat)
  }

  // ----- bytes.find and bytes.rstrip

  predicate At(s: Octets, pattern: Octets, i: nat) {
    i + |pattern| <= |s| && s[i..i + |pattern|] == pattern
  }

  function Find(s: Octets, pattern: Octets, start: nat): (r: Option<nat>)
    ensures r.Some? ==> start <= r.value && At(s, pattern, r.value)
    ensures r.Some? ==> forall j :: start <= j < r.value ==> !At(s, pattern, j)
    ensures r.None? ==> forall j :: start <= j ==> !At(s, pattern, j)
    decreases |s| - start
  {
    if start + |pattern| > |s| then None
    else if At(s, pattern, start) then Some(start)
    else Find(s, pattern, start + 1)
  }

  function TrimRight(s: Octets, b: Byte): (r: Octets)
    ensures |r| <= |s| && r == s[..|r|]
    ensures forall i :: |r| <= i < |s| ==> s[i] == b
    ensures r != [] ==> r[|r| - 1] != b
  {
    if s != [] && s[|s| - 1] == b then TrimRight(s[..|s| - 1], b) else s
  }

  // ----- The identification line

  datatype Identified = Identified(version: Octets, rest: Octets)

  function Identification(stream: Octets): Result<Identified> {
    match Find(stream, SSH_DASH, 0)
    case None => Err(ValueError)
    case Some(start) =>
      match Find(stream, [LINE_FEED], start)
      case None => Err(ValueError)
      case Some(end) => Ok(Identified(TrimRight(stream[start..end], CARRIAGE_RETURN), Skip(stream, end + 1)))
  }

  /** A version string as it is found: from the first "SSH-", without line feed or trailing carriage return. */
  ghost predicate Announced(before: Octets, version: Octets) {
    && [83, 83, 72, 45] <= version && 10 !in version && version[|version| - 1] != 13
    && forall j :: 0 <= j < |before| ==> !At(before + [83, 83, 72, 45], [83, 83, 72, 45], j)
  }

  function Returns(n: nat): (r: Octets)
    ensures |r| == n && forall i :: 0 <= i < n ==> r[i] == 13
  {
    seq(n, _ => CARRIAGE_RETURN)
  }

  /** The version string, n carriage returns and a line feed. */
  function IdentificationLine(version: Octets, n: nat): (line: Octets)
    ensures |line| == |version| + n + 1 && version <= line && line[|version| + n] == 10
    ensures line[..|version| + n] == version + Returns(n)
  {
    version + Returns(n) + [LINE_FEED]
  }

  lemma IdentificationStarts(before: Octets, line: Octets, rest: Octets)
    requires SSH_DASH <= line
    requires forall j :: 0 <= j < |before| ==> !At(before + SSH_DASH, SSH_DASH, j)
    ensures var stream := before + line + rest;
            At(stream, SSH_DASH, |before|) && forall j :: 0 <= j < |before| ==> !At(stream, SSH_DASH, j)
  {
    var stream := before + line + rest;
    assert stream[|before|..|before| + 4] == line[..4];
    forall j | 0 <= j < |before|
      ensures !At(stream, SSH_DASH, j)
    {
      assert stream[j..j + 4] == (before + SSH_DASH)[j..j + 4];
      assert !At(before + SSH_DASH, SSH_DASH, j);
    }
  }

  lemma LineEnds(before: Octets, version: Octets, n: nat, rest: Octets)
    requires LINE_FEED !in version
    ensures var stream := before + IdentificationLine(version, n) + rest;
            var end := |before| + |version| + n;
            && At(stream, [LINE_FEED], end)
            && (forall j :: |before| <= j < end ==> !At(stream, [LINE_FEED], j))
            && stream[|before|..end] == version + Returns(n)
            && Skip(stream, end + 1) == rest
  {
    hide IdentificationLine;
    var line := IdentificationLine(version, n);
    var stream := before + line + rest;
    var end := |before| + |version| + n;
    assert stream[end..end + 1] == [line[|version| + n]];
    forall j | |before| <= j < end
      ensures !At(stream, [LINE_FEED], j)
    {
      assert stream[j..j + 1][0] == stream[j] == line[j - |before|];
      assert line[j - |before|] == (version + Returns(n))[j - |before|];
    }
    assert stream[|before|..end] == line[..|version| + n];
  }

  lemma FindsFirst(s: Octets, pattern: Octets, start: nat, i: nat)
    requires start <= i && At(s, pattern, i) && forall j :: start <= j < i ==> !At(s, pattern, j)
    ensures Find(s, pattern, start) == Some(i)
  {
    hide Find, At;
  }

  lemma TrimmedReturns(s: Octets, n: nat)
    requires s != [] && s[|s| - 1] != CARRIAGE_RETURN
    ensures TrimRight(s + Returns(n), CARRIAGE_RETURN) == s
  {
    hide TrimRight;
    var t := s + Returns(n);
    var r := TrimRight(t, CARRIAGE_RETURN);
    assert t[|s| - 1] == s[|s| - 1];
    assert t[..|s|] == s;
  }

  /**
   * Whatever lines precede it, the first "SSH-" starts the version string, and its line ending, with or without
   * carriage returns, is not part of it; section 4.2 of RFC 4253.
   */
  lemma IdentificationFound(before: Octets, version: Octets, n: nat, rest: Octets)
    requires Announced(before, version)
    ensures Identification(before + IdentificationLine(version, n) + rest) == Ok(Identified(version, rest))
  {
    hide Find, TrimRight, At, IdentificationLine;
    var line := IdentificationLine(version, n);
    var stream := before + line + rest;
    IdentificationStarts(before, line, rest);
    LineEnds(before, version, n, rest);
    var start, end := |before|, |before| + |version| + n;
    FindsFirst(stream, SSH_DASH, 0, start);
    FindsFirst(stream, [LINE_FEED], start, end);
    TrimmedReturns(version, n);
  }

  lemma NoFeedBefore(stream: Octets, start: nat, end: nat)
    requires start <= end < |stream| && forall j :: start <= j < end ==> !At(stream, [LINE_FEED], j)
    ensures LINE_FEED !in stream[start..end]
  {
    forall j | start <= j < end
      ensures stream[j] != LINE_FEED
    {
      assert !At(stream, [LINE_FEED], j);
      assert stream[j..j + 1] == [stream[j]];
    }
  }

  /** The four bytes found are neither cut off by the line feed nor stripped. */
  lemma VersionStarts(stream: Octets, start: nat, end: nat)
    requires At(stream, SSH_DASH, start) && start <= end < |stream| && stream[end] == LINE_FEED
    ensures SSH_DASH <= TrimRight(stream[start..end], CARRIAGE_RETURN)
  {
    hide TrimRight;
    var line := stream[start..end];
    assert end >= start + 4;
    assert line[..4] == stream[start..start + 4];
    assert line[3] == SSH_DASH[3];
  }

  lemma FirstDash(stream: Octets, start: nat)
    requires At(stream, SSH_DASH, start) && forall j :: 0 <= j < start ==> !At(stream, SSH_DASH, j)
    ensures forall j :: 0 <= j < start ==> !At(stream[..start] + SSH_DASH, SSH_DASH, j)
  {
    forall j | 0 <= j < start
      ensures !At(stream[..start] + SSH_DASH, SSH_DASH, j)
    {
      assert !At(stream, SSH_DASH, j);
      assert stream[..start] + SSH_DASH == stream[..start + 4];
      assert (stream[..start] + SSH_DASH)[j..j + 4] == stream[j..j + 4];
    }
  }

  /** A line cut at its feed, stripped of its returns, is the identification line of what is left. */
  lemma LineWasSent(stream: Octets, start: nat, end: nat, version: Octets)
    requires start <= end < |stream| && stream[end] == LINE_FEED && |version| <= end - start
    requires version == stream[start..end][..|version|]
    requires forall i :: |version| <= i < end - start ==> stream[start..end][i] == CARRIAGE_RETURN
    ensures stream == stream[..start] + IdentificationLine(version, end - start - |version|) + Skip(stream, end + 1)
  {
    var line := stream[start..end];
    assert line == version + Returns(|line| - |version|);
    assert stream[end..end + 1] == [LINE_FEED];
    assert stream == stream[..start] + (line + stream[end..end + 1]) + Skip(stream, end + 1);
  }

  /** Conversely an identification that is found stood there as a line, and no "SSH-" stood before it. */
  lemma IdentificationWasSent(stream: Octets) returns (before: Octets, n: nat)
    requires Identification(stream).Ok?
    ensures Announced(before, Identification(stream).value.version)
    ensures stream == before + IdentificationLine(Identification(stream).value.version, n)
                      + Identification(stream).value.rest
  {
    hide Find, TrimRight, IdentificationLine, Skip;
    var start := Find(stream, SSH_DASH, 0).value;
    var end := Find(stream, [LINE_FEED], start).value;
    var version := TrimRight(stream[start..end], CARRIAGE_RETURN);
    before, n := stream[..start], end - start - |version|;
    assert stream[end..end + 1] == [LINE_FEED];
    NoFeedBefore(stream, start, end);
    VersionStarts(stream, start, end);
    FirstDash(stream, start);
    LineWasSent(stream, start, end, version);
  }

  // ----- Clear packets through NEWKEYS

  /** One packet as its sender chose it. */
  datatype Sent = Sent(payload: Octets, padding: Octets)

  /** Sections 5.3 and 6 of RFC 4253: a payload, four to 255 bytes of padding, a length field that holds their size. */
  predicate Sendable(p: Sent) {
    p.payload != [] && 4 <= |p.padding| < 256 && 1 + |p.payload| + |p.padding| < 4294967296
  }

  function Body(p: Sent): (b: Octets)
    requires Sendable(p)
    ensures |b| == 1 + |p.payload| + |p.padding|
    ensures b[0] == |p.padding| && b[1..|b| - |p.padding|] == p.payload && Skip(b, |b| - |p.padding|) == p.padding
  {
    [|p.padding|] + p.payload + p.padding
  }

  function ClearPacket(p: Sent): Octets
    requires Sendable(p)
  {
    U32(|Body(p)|) + Body(p)
  }

  function Payloads(sent: seq<Sent>): (ps: seq<Octets>)
    ensures |ps| == |sent| && forall i :: 0 <= i < |ps| ==> ps[i] == sent[i].payload
  {
    seq(|sent|, i requires 0 <= i < |sent| => sent[i].payload)
  }

  ghost predicate AllSendable(sent: seq<Sent>) {
    forall i :: 0 <= i < |sent| ==> Sendable(sent[i])
  }

  function ClearStream(sent: seq<Sent>): Octets
    requires AllSendable(sent)
  {
    if sent == [] then [] else ClearPacket(sent[0]) + ClearStream(sent[1..])
  }

  /** NEWKEYS ends the list and occurs nowhere else in it. */
  predicate EndsInNewkeys(payloads: seq<Octets>) {
    && payloads != []
    && (forall i :: 0 <= i < |payloads| ==> payloads[i] != [])
    && (forall i :: 0 <= i < |payloads| ==> (payloads[i][0] == 21 <==> i == |payloads| - 1))
  }

  datatype Scan = Stopped(packets: seq<Octets>, rest: Octets) | BadPadding

  function Before(payload: Octets, later: Scan): Scan {
    match later
    case BadPadding => BadPadding
    case Stopped(packets, rest) => Stopped([payload] + packets, rest)
  }

  /** What stands at the front of the clear bytes: no complete packet, a malformed one, or a packet. */
  datatype Clear = NoPacket | Malformed | Packet(payload: Octets, rest: Octets)

  function ClearFront(s: Octets): (front: Clear)
    ensures front.Packet? ==> front.payload != [] && |front.rest| < |s|
  {
    if |s| < 5 then NoPacket
    else
      var n := BigEndian(s[..4]);
      if n < 6 || 4 + n > |s| then NoPacket
      else
        var padding := s[4];
        if padding < 4 || 4 + n - padding <= 5 then Malformed
        else Packet(s[5..4 + n - padding], s[4 + n..])
  }

  /** The loop over plaintext packets. */
  function ScanClear(s: Octets): Scan
    decreases |s|
  {
    match ClearFront(s)
    case NoPacket => Stopped([], s)
    case Malformed => BadPadding
    case Packet(payload, rest) =>
      if payload[0] == NEWKEYS then Stopped([payload], rest) else Before(payload, ScanClear(rest))
  }

  datatype Transport = Transport(version: Octets, packets: seq<Octets>, encrypted: Octets)

  function Transported(stream: Octets): Result<Transport> {
    var id :- Identification(stream);
    match ScanClear(id.rest)
    case BadPadding => Err(ValueError)
    case Stopped(packets, rest) =>
      if packets == [] || packets[|packets| - 1] == [] || packets[|packets| - 1][0] != NEWKEYS then Err(ValueError)
      else Ok(Transport(id.version, packets, rest))
  }

  lemma ScanStep(s: Octets)
    ensures ScanClear(s) ==
            match ClearFront(s)
            case NoPacket => Stopped([], s)
            case Malformed => BadPadding
            case Packet(payload, rest) =>
              if payload[0] == NEWKEYS then Stopped([payload], rest) else Before(payload, ScanClear(rest))
  {
    hide ClearFront;
  }

  ghost predicate NonEmpty(packets: seq<Octets>) {
    forall i :: 0 <= i < |packets| ==> packets[i] != []
  }

  /** The packets found so far, then what the rest of the scan finds. */
  function Onto(packets: seq<Octets>, later: Scan): Scan {
    match later
    case BadPadding => BadPadding
    case Stopped(more, rest) => Stopped(packets + more, rest)
  }

  lemma OntoStep(packets: seq<Octets>, payload: Octets, later: Scan)
    ensures Onto(packets, Before(payload, later)) == Onto(packets + [payload], later)
    ensures Onto([], later) == later
    ensures Onto(packets, Stopped([payload], [])).packets == packets + [payload]
  {
    if later.Stopped? {
      assert packets + ([payload] + later.packets) == packets + [payload] + later.packets;
    }
  }

  lemma OntoStopped(packets: seq<Octets>, last: seq<Octets>, rest: Octets)
    ensures Onto(packets, Stopped(last, rest)) == Stopped(packets + last, rest)
    ensures Onto(packets, Stopped([], rest)) == Stopped(packets, rest)
    ensures Onto(packets, BadPadding) == BadPadding
  {
  }

  lemma ClearFrontOf(s: Octets)
    ensures ClearFront(s) ==
            if |s| < 5 then NoPacket
            else
              var n := BigEndian(s[0..4]);
              if n < 6 || 4 + n > |s| then NoPacket
              else if s[4] < 4 || 4 + n - s[4] <= 5 then Malformed
              else Packet(s[5..4 + n - s[4]], s[4 + n..])
  {
    hide BigEndian;
    if |s| >= 5 {
      assert s[0..4] == s[..4];
    }
  }

  /** The packet at an offset, in terms of the whole stream. */
  lemma FrontAt(s: Octets, offset: nat)
    requires offset <= |s|
    ensures ClearFront(Skip(s, offset)) ==
            if offset + 5 > |s| then NoPacket
            else
              var packetLength := BigEndian(s[offset..offset + 4]);
              var packetEnd := offset + 4 + packetLength;
              if packetLength < 6 || packetEnd > |s| then NoPacket
              else if s[offset + 4] < 4 || packetEnd - s[offset + 4] <= offset + 5 then Malformed
              else Packet(s[offset + 5..packetEnd - s[offset + 4]], Skip(s, packetEnd))
  {
    hide BigEndian, Skip, ClearFront;
    var rest := Skip(s, offset);
    ClearFrontOf(rest);
    if offset + 5 <= |s| {
      SkipSlice(s, offset, 0, 4);
      SkipSlice(s, offset, 4, 5);
      var n, padding := BigEndian(rest[0..4]), rest[4];
      if n >= 6 && 4 + n <= |rest| {
        SkipSlice(s, offset, 0, 4 + n);
        if 4 + n - padding > 5 {
          SkipSlice(s, offset, 5, 4 + n - padding);
        }
      }
    }
  }

  /** parse_ssh_transport_stream */
  method ParseSshTransportStream(stream: Octets) returns (r: Result<Transport>)
    ensures r == Transported(stream)
  {
    hide ScanClear, ClearFront, BigEndian, Onto, Before, Identification, Skip;
    var id := Identification(stream);
    if id.Err? {
      return Err(id.error);
    }
    var s := id.value.rest;
    var packets: seq<Octets> := [];
    var offset := 0;
    OntoStep([], [], ScanClear(s));
    SkipEnds(s);
    while offset + 5 <= |s|
      invariant offset <= |s|
      invariant NonEmpty(packets)
      invariant ScanClear(s) == Onto(packets, ScanClear(Skip(s, offset)))
      decreases |s| - offset
    {
      ScanStep(Skip(s, offset));
      FrontAt(s, offset);
      var packetLength := BigEndian(s[offset..offset + 4]);
      var packetEnd := offset + 4 + packetLength;
      if packetLength < 6 || packetEnd > |s| {
        break;
      }
      var paddingLength := s[offset + 4];
      var payloadEnd := packetEnd - paddingLength;
      if paddingLength < 4 || payloadEnd <= offset + 5 {
        OntoStopped(packets, [], []);
        return Err(ValueError);
      }
      var payload := s[offset + 5..payloadEnd];
      OntoStopped(packets, [payload], Skip(s, packetEnd));
      OntoStep(packets, payload, ScanClear(Skip(s, packetEnd)));
      packets := packets + [payload];
      offset := packetEnd;
      if payload[0] == NEWKEYS {
        break;
      }
    }
    if offset + 5 > |s| {
      ScanStep(Skip(s, offset));
      FrontAt(s, offset);
    }
    OntoStopped(packets, [], Skip(s, offset));
    assert ScanClear(s) == Stopped(packets, Skip(s, offset));
    if packets == [] || packets[|packets| - 1][0] != NEWKEYS {
      return Err(ValueError);
    }
    return Ok(Transport(id.value.version, packets, Skip(s, offset)));
  }

  /** Every refusal is a value error. */
  lemma TransportRefused(stream: Octets)
    ensures Identification(stream).Err? ==> Identification(stream) == Err(ValueError)
    ensures Transported(stream).Err? ==> Transported(stream) == Err(ValueError)
  {
    hide ScanClear, TrimRight;
  }

  // ----- The scan against the sender's framing

  lemma ClearPacketFields(p: Sent, rest: Octets)
    requires Sendable(p)
    ensures ClearFront(ClearPacket(p) + rest) == Packet(p.payload, rest)
  {
    hide Body, BigEndian;
    var s, b := ClearPacket(p) + rest, Body(p);
    assert s[..4] == U32(|b|);
    assert s[4] == b[0];
    assert s[5..4 + |b| - s[4]] == b[1..|b| - |p.padding|];
    assert s[4 + |b|..] == rest;
  }

  /** One packet at the front of a stream is found whole. */
  lemma ScanFinds(p: Sent, rest: Octets)
    requires Sendable(p)
    ensures ScanClear(ClearPacket(p) + rest) ==
            if p.payload[0] == NEWKEYS then Stopped([p.payload], rest) else Before(p.payload, ScanClear(rest))
  {
    hide ClearPacket, ScanClear, Before, ClearFront;
    ClearPacketFields(p, rest);
    ScanStep(ClearPacket(p) + rest);
  }

  lemma NewkeysLater(payloads: seq<Octets>)
    requires |payloads| > 1
    ensures EndsInNewkeys(payloads) <==> payloads[0] != [] && payloads[0][0] != NEWKEYS && EndsInNewkeys(payloads[1..])
  {
    if payloads[0] != [] && payloads[0][0] != NEWKEYS && EndsInNewkeys(payloads[1..]) {
      forall i | 0 <= i < |payloads|
        ensures payloads[i] != [] && (payloads[i][0] == NEWKEYS <==> i == |payloads| - 1)
      {
        if i > 0 {
          assert payloads[i] == payloads[1..][i - 1];
        }
      }
    }
  }

  lemma {:induction false} ScanFindsAll(sent: seq<Sent>, rest: Octets)
    requires AllSendable(sent) && EndsInNewkeys(Payloads(sent))
    ensures ScanClear(ClearStream(sent) + rest) == Stopped(Payloads(sent), rest)
  {
    hide ClearPacket, ScanClear;
    var more := sent[1..];
    Regroup(ClearPacket(sent[0]), ClearStream(more), rest);
    ScanFinds(sent[0], ClearStream(more) + rest);
    assert Payloads(sent)[0] == sent[0].payload;
    if more == [] {
      LeftAndRightUnit(rest);
      assert Payloads(sent) == [sent[0].payload];
    } else {
      assert Payloads(sent) == [sent[0].payload] + Payloads(more);
      NewkeysLater(Payloads(sent));
      ScanFindsAll(more, rest);
    }
  }

  /** What a sender frames, the parser returns: version, payloads up to NEWKEYS, and the first encrypted byte. */
  lemma TransportRoundTrip(before: Octets, version: Octets, n: nat, sent: seq<Sent>, encrypted: Octets)
    requires Announced(before, version)
    requires AllSendable(sent) && EndsInNewkeys(Payloads(sent))
    ensures Transported(before + IdentificationLine(version, n) + (ClearStream(sent) + encrypted))
            == Ok(Transport(version, Payloads(sent), encrypted))
  {
    hide Identification, IdentificationLine, ScanClear, ClearStream;
    IdentificationFound(before, version, n, ClearStream(sent) + encrypted);
    ScanFindsAll(sent, encrypted);
  }

  /** The packet that a scan step reads, with the padding it ignores. */
  lemma FrontPacket(s: Octets) returns (p: Sent)
    requires ClearFront(s).Packet?
    ensures Sendable(p) && p.payload == ClearFront(s).payload && s == ClearPacket(p) + ClearFront(s).rest
  {
    hide BigEndian;
    var n := BigEndian(s[..4]);
    BigEndian4(s[..4]);
    p := Sent(s[5..4 + n - s[4]], s[4 + n - s[4]..4 + n]);
    assert s[4..4 + n] == [s[4]] + p.payload + p.padding;
    assert Body(p) == s[4..4 + n];
    assert U32(|Body(p)|) == s[..4];
    assert s == s[..4] + s[4..4 + n] + s[4 + n..];
  }

  lemma FramedBefore(p: Sent, more: seq<Sent>, left: Octets, rest: Octets)
    requires Sendable(p) && AllSendable(more) && left == ClearStream(more) + rest
    ensures AllSendable([p] + more) && ClearStream([p] + more) + rest == ClearPacket(p) + left
    ensures Payloads([p] + more) == [p.payload] + Payloads(more)
  {
    hide ClearPacket;
    assert ([p] + more)[1..] == more;
    Regroup(ClearPacket(p), ClearStream(more), rest);
  }

  lemma BeforeFields(front: Clear)
    ensures front.Packet? ==>
              var later := ScanClear(front.rest);
              && Before(front.payload, later).Stopped? == later.Stopped?
              && (later.Stopped? ==>
                    Before(front.payload, later) == Stopped([front.payload] + later.packets, later.rest))
  {
    hide ScanClear;
  }

  lemma NothingFramed(s: Octets)
    ensures ClearStream([]) + s == s
  {
  }

  /** Conversely every packet found is one some sender framed, and no byte before the rest is skipped. */
  lemma {:induction false} ScannedWasFramed(s: Octets) returns (sent: seq<Sent>)
    requires ScanClear(s).Stopped?
    ensures AllSendable(sent) && Payloads(sent) == ScanClear(s).packets
    ensures s == ClearStream(sent) + ScanClear(s).rest
    ensures forall i :: 0 <= i < |sent| - 1 ==> sent[i].payload[0] != NEWKEYS
    decreases |s|
  {
    hide ClearPacket, ScanClear, ClearFront, ClearStream, Before;
    ScanStep(s);
    BeforeFields(ClearFront(s));
    if !ClearFront(s).Packet? {
      sent := [];
      NothingFramed(s);
    } else {
      var p := FrontPacket(s);
      var left := ClearFront(s).rest;
      var more: seq<Sent> := [];
      if p.payload[0] == NEWKEYS {
        NothingFramed(left);
      } else {
        more := ScannedWasFramed(left);
      }
      FramedBefore(p, more, left, ScanClear(s).rest);
      sent := [p] + more;
    }
  }

  /**
   * An accepted stream is what TransportRoundTrip describes: other lines, the first "SSH-" line with the version that
   * is returned, packets framed by some sender ending in its NEWKEYS, and the rest.
   */
  lemma AcceptedWasSent(stream: Octets) returns (before: Octets, n: nat, sent: seq<Sent>)
    requires Transported(stream).Ok?
    ensures var t := Transported(stream).value;
            && Announced(before, t.version)
            && AllSendable(sent) && EndsInNewkeys(Payloads(sent))
            && t.packets == Payloads(sent)
            && stream == before + IdentificationLine(t.version, n) + (ClearStream(sent) + t.encrypted)
  {
    hide ScanClear, ClearStream, Identification, IdentificationLine, Announced;
    before, n := IdentificationWasSent(stream);
    sent := ScannedWasFramed(Identification(stream).value.rest);
    var payloads := Payloads(sent);
    assert payloads[|payloads| - 1] == sent[|sent| - 1].payload;
  }
}
