/** Finding CRYPTO frames in a decrypted QUIC payload (_parse_crypto_frames in decryptor/quic/derive_quic.py). */
module QuicFrames {
  import opened Bytes
  import opened QuicVarint

  const PADDING: nat := 0x00
  const ACK: nat := 0x02
  const ACK_ECN: nat := 0x03
  const CRYPTO: nat := 0x06
  const CONNECTION_CLOSE: nat := 0x1C

  datatype CryptoData = CryptoData(offset: nat, data: Octets)

  /** Moves past a number of varints, raising when one is cut short. */
  function SkipVarints(data: Octets, count: nat): (r: Result<Octets>)
    ensures r.Ok? ==> |r.value| <= |data|
    decreases count
  {
    if count == 0 then Ok(data)
    else
      var v :- Decode(data);
      SkipVarints(data[v.1..], count - 1)
  }

  /** Largest acknowledged, delay, range count and first range, then a gap and a range per count. */
  function SkipAck(data: Octets): (r: Result<Octets>)
    ensures r.Ok? ==> |r.value| <= |data|
  {
    var afterDelay :- SkipVarints(data, 2);
    var count :- Decode(afterDelay);
    SkipVarints(afterDelay[count.1..], 1 + 2 * count.0)
  }

  /** Error code, frame type, reason length and the reason; a reason running past the end just ends the walk. */
  function SkipClose(data: Octets): (r: Result<Octets>)
    ensures r.Ok? ==> |r.value| <= |data|
  {
    var afterType :- SkipVarints(data, 2);
    var length :- Decode(afterType);
    if length.1 + length.0 > |afterType| then Ok([]) else Ok(afterType[length.1 + length.0..])
  }

  /** One CRYPTO body, or None where the parser stops quietly. */
  function TakeCrypto(data: Octets): (r: Option<(CryptoData, Octets)>)
    ensures r.Some? ==> |r.value.1| <= |data|
  {
    var offset := Decode(data);
    if offset.Err? then None
    else
      var rest := data[offset.value.1..];
      var length := Decode(rest);
      if length.Err? || length.value.1 + length.value.0 > |rest| then None
      else
        var body := rest[length.value.1..];
        Some((CryptoData(offset.value.0, body[..length.value.0]), body[length.value.0..]))
  }

  function ParseFrames(data: Octets): Result<seq<CryptoData>>
    decreases |data|
  {
    if data == [] || Decode(data).Err? then Ok([])
    else
      var kind, rest := Decode(data).value.0, data[Decode(data).value.1..];
      if kind == PADDING then ParseFrames(rest)
      else if kind == CRYPTO then
        var c := TakeCrypto(rest);
        if c.None? then Ok([]) else Add([c.value.0], ParseFrames(c.value.1))
      else if kind == ACK || kind == ACK_ECN then
        var after :- SkipAck(rest);
        ParseFrames(after)
      else if kind == CONNECTION_CLOSE then
        var after :- SkipClose(rest);
        ParseFrames(after)
      else Ok([])
  }

  /** What the parser does with a body once the frame type is known. */
  function Dispatch(kind: nat, rest: Octets): Result<seq<CryptoData>> {
    if kind == PADDING then ParseFrames(rest)
    else if kind == CRYPTO then
      var c := TakeCrypto(rest);
      if c.None? then Ok([]) else Add([c.value.0], ParseFrames(c.value.1))
    else if kind == ACK || kind == ACK_ECN then
      var after :- SkipAck(rest);
      ParseFrames(after)
    else if kind == CONNECTION_CLOSE then
      var after :- SkipClose(rest);
      ParseFrames(after)
    else Ok([])
  }

  lemma FrameStep(data: Octets)
    ensures ParseFrames([]) == Ok([])
    ensures ParseFrames(data) ==
            if data == [] || Decode(data).Err? then Ok([])
            else Dispatch(Decode(data).value.0, data[Decode(data).value.1..])
  {
    hide Decode, SkipAck, SkipClose, TakeCrypto, Add;
  }

  // ----- The parser's loop

  method SkipVarintsFrom(data: Octets, count: nat) returns (r: Result<Octets>)
    ensures r == SkipVarints(data, count)
  {
    hide Decode;
    var rest := data;
    for k := 0 to count
      invariant SkipVarints(data, count) == SkipVarints(rest, count - k)
    {
      var v :- DecodeVarint(rest);
      rest := rest[v.1..];
    }
    return Ok(rest);
  }

  lemma DecodeErrors(data: Octets)
    ensures Decode(data).Err? ==> Decode(data) == Err(ValueError)
  {
  }

  lemma {:induction false} SkipErrors(data: Octets, count: nat)
    ensures SkipVarints(data, count).Err? ==> SkipVarints(data, count) == Err(ValueError)
    decreases count
  {
    DecodeErrors(data);
    if count > 0 && Decode(data).Ok? {
      SkipErrors(data[Decode(data).value.1..], count - 1);
    }
  }

  /** _parse_crypto_frames */
  method ParseCryptoFrames(plaintext: Octets) returns (r: Result<seq<CryptoData>>)
    ensures r == ParseFrames(plaintext)
  {
    hide Decode, SkipVarints, Add, ParseFrames;
    var found: seq<CryptoData> := [];
    var rest := plaintext;
    AddTwice([], [], ParseFrames(plaintext));
    while rest != []
      invariant ParseFrames(plaintext) == Add(found, ParseFrames(rest))
      decreases |rest|
    {
      AddNone(found);
      FrameStep(rest);
      var kind := DecodeVarint(rest);
      if kind.Err? {
        break;
      }
      var body := rest[kind.value.1..];
      if kind.value.0 == PADDING {
        rest := body;
      } else if kind.value.0 == CRYPTO {
        var offset := DecodeVarint(body);
        if offset.Err? {
          break;
        }
        var afterOffset := body[offset.value.1..];
        var length := DecodeVarint(afterOffset);
        if length.Err? || length.value.1 + length.value.0 > |afterOffset| {
          break;
        }
        var data := afterOffset[length.value.1..];
        ghost var one := CryptoData(offset.value.0, data[..length.value.0]);
        AddTwice(found, [one], ParseFrames(data[length.value.0..]));
        found := found + [CryptoData(offset.value.0, data[..length.value.0])];
        rest := data[length.value.0..];
      } else if kind.value.0 == ACK || kind.value.0 == ACK_ECN {
        AddNone(found);
        var afterDelay := SkipVarintsFrom(body, 2);
        if afterDelay.Err? {
          SkipErrors(body, 2);
          return Err(ValueError);
        }
        var count := DecodeVarint(afterDelay.value);
        if count.Err? {
          DecodeErrors(afterDelay.value);
          return Err(ValueError);
        }
        var after := SkipVarintsFrom(afterDelay.value[count.value.1..], 1 + 2 * count.value.0);
        if after.Err? {
          SkipErrors(afterDelay.value[count.value.1..], 1 + 2 * count.value.0);
          return Err(ValueError);
        }
        rest := after.value;
      } else if kind.value.0 == CONNECTION_CLOSE {
        AddNone(found);
        var afterType := SkipVarintsFrom(body, 2);
        if afterType.Err? {
          SkipErrors(body, 2);
          return Err(ValueError);
        }
        var length := DecodeVarint(afterType.value);
        if length.Err? {
          DecodeErrors(afterType.value);
          return Err(ValueError);
        }
        if length.value.1 + length.value.0 > |afterType.value| {
          rest := [];
        } else {
          rest := afterType.value[length.value.1 + length.value.0..];
        }
      } else {
        break;
      }
    }
    AddNone(found);
    FrameStep([]);
    return Ok(found);
  }

  // ----- Round trip

  ghost predicate AllValid(vs: seq<Varint>) {
    forall i :: 0 <= i < |vs| ==> vs[i].Valid()
  }

  function EncodeAll(vs: seq<Varint>): Octets
    requires AllValid(vs)
  {
    if vs == [] then [] else Encode(vs[0]) + EncodeAll(vs[1..])
  }

  /** What both ACK types carry after the type (section 19.3 of RFC 9000): a gap and a length for every range. */
  datatype AckBody = AckBody(largest: Varint, delay: Varint, count: Varint, first: Varint, ranges: seq<Varint>) {
    ghost predicate Valid() {
      && largest.Valid() && delay.Valid() && count.Valid() && first.Valid() && AllValid(ranges)
      && |ranges| == 2 * count.value
    }

    function Wire(): Octets
      requires Valid()
    {
      EncodeAll([largest, delay]) + (Encode(count) + EncodeAll([first] + ranges))
    }
  }

  /**
   * The frames of Initial and Handshake packets that the parser knows, by type: PADDING, CRYPTO, ACK without ECN counts
   * and CONNECTION_CLOSE (sections 19.1, 19.6, 19.3 and 19.19 of RFC 9000); every field in any width that holds it.
   */
  datatype Frame =
    | Padding(kind: Varint)
    | Crypto(kind: Varint, offset: Varint, length: Varint, data: Octets)
    | Ack(kind: Varint, ack: AckBody)
    | Close(kind: Varint, code: Varint, cause: Varint, length: Varint, reason: Octets)
  {
    ghost predicate Valid() {
      && kind.Valid()
      && match this
         case Padding(k) => k.value == 0x00
         case Crypto(k, o, n, data) => k.value == 0x06 && o.Valid() && n.Valid() && n.value == |data|
         case Ack(k, ack) => k.value == 0x02 && ack.Valid()
         case Close(k, code, cause, n, reason) =>
           k.value == 0x1C && code.Valid() && cause.Valid() && n.Valid() && n.value == |reason|
    }

    function Wire(): Octets
      requires Valid()
    {
      Encode(kind) + match this
                     case Padding(_) => []
                     case Crypto(_, o, n, data) => Encode(o) + (Encode(n) + data)
                     case Ack(_, ack) => ack.Wire()
                     case Close(_, code, cause, n, reason) => EncodeAll([code, cause]) + (Encode(n) + reason)
    }

    function Carried(): seq<CryptoData> {
      if Crypto? then [CryptoData(offset.value, data)] else []
    }
  }

  function WireAll(frames: seq<Frame>): Octets
    requires forall i :: 0 <= i < |frames| ==> frames[i].Valid()
  {
    if frames == [] then [] else frames[0].Wire() + WireAll(frames[1..])
  }

  function CarriedBy(frames: seq<Frame>): seq<CryptoData> {
    if frames == [] then [] else frames[0].Carried() + CarriedBy(frames[1..])
  }

  lemma {:induction false} SkipEncoded(vs: seq<Varint>, rest: Octets)
    requires AllValid(vs)
    ensures SkipVarints(EncodeAll(vs) + rest, |vs|) == Ok(rest)
  {
    hide Decode, Encode;
    if vs == [] {
      LeftAndRightUnit(rest);
    } else {
      VarintRoundTrip(vs[0], EncodeAll(vs[1..]) + rest, Encode(vs[0]) + (EncodeAll(vs[1..]) + rest));
      Regroup(Encode(vs[0]), EncodeAll(vs[1..]), rest);
      SkipEncoded(vs[1..], rest);
    }
  }

  lemma SkipEncodedAck(ack: AckBody, rest: Octets)
    requires ack.Valid()
    ensures SkipAck(ack.Wire() + rest) == Ok(rest)
  {
    hide Decode, Encode, EncodeAll, SkipVarints;
    var ranges := EncodeAll([ack.first] + ack.ranges);
    var tail := Encode(ack.count) + (ranges + rest);
    Regroup(EncodeAll([ack.largest, ack.delay]), Encode(ack.count) + ranges, rest);
    Regroup(Encode(ack.count), ranges, rest);
    SkipEncoded([ack.largest, ack.delay], tail);
    VarintRoundTrip(ack.count, ranges + rest, Encode(ack.count) + (ranges + rest));
    SkipEncoded([ack.first] + ack.ranges, rest);
  }

  lemma TakeEncodedCrypto(f: Frame, rest: Octets)
    requires f.Crypto? && f.Valid()
    ensures TakeCrypto((Encode(f.offset) + (Encode(f.length) + f.data)) + rest)
        == Some((CryptoData(f.offset.value, f.data), rest))
  {
    hide Decode, Encode;
    Regroup(Encode(f.offset), Encode(f.length) + f.data, rest);
    Regroup(Encode(f.length), f.data, rest);
    var afterOffset := Encode(f.length) + (f.data + rest);
    VarintRoundTrip(f.offset, afterOffset, Encode(f.offset) + afterOffset);
    VarintRoundTrip(f.length, f.data + rest, afterOffset);
    assert (f.data + rest)[..|f.data|] == f.data && (f.data + rest)[|f.data|..] == rest;
  }

  lemma SkipEncodedClose(f: Frame, rest: Octets)
    requires f.Close? && f.Valid()
    ensures SkipClose((EncodeAll([f.code, f.cause]) + (Encode(f.length) + f.reason)) + rest) == Ok(rest)
  {
    hide Decode, Encode, EncodeAll, SkipVarints;
    var tail := Encode(f.length) + (f.reason + rest);
    Regroup(EncodeAll([f.code, f.cause]), Encode(f.length) + f.reason, rest);
    Regroup(Encode(f.length), f.reason, rest);
    SkipEncoded([f.code, f.cause], tail);
    VarintRoundTrip(f.length, f.reason + rest, tail);
    assert tail[f.length.width + f.length.value..] == rest;
  }

  lemma FrameParsed(f: Frame, rest: Octets, data: Octets)
    requires f.Valid() && data == f.Wire() + rest
    ensures ParseFrames(data) == Add(f.Carried(), ParseFrames(rest))
  {
    hide Decode, Encode, EncodeAll, SkipAck, SkipClose, TakeCrypto;
    AddTwice([], [], ParseFrames(rest));
    match f
    case Padding(k) =>
      LeftAndRightUnit(Encode(k));
      VarintRoundTrip(k, rest, Encode(k) + rest);
    case Crypto(k, o, n, data) =>
      var body := Encode(o) + (Encode(n) + data);
      Regroup(Encode(k), body, rest);
      VarintRoundTrip(k, body + rest, Encode(k) + (body + rest));
      TakeEncodedCrypto(f, rest);
    case Ack(k, ack) =>
      Regroup(Encode(k), ack.Wire(), rest);
      VarintRoundTrip(k, ack.Wire() + rest, Encode(k) + (ack.Wire() + rest));
      SkipEncodedAck(ack, rest);
    case Close(k, code, cause, n, reason) =>
      var body := EncodeAll([code, cause]) + (Encode(n) + reason);
      Regroup(Encode(k), body, rest);
      VarintRoundTrip(k, body + rest, Encode(k) + (body + rest));
      SkipEncodedClose(f, rest);
  }

  lemma {:induction false} FramesThenMore(frames: seq<Frame>, rest: Octets, data: Octets)
    requires (forall i :: 0 <= i < |frames| ==> frames[i].Valid()) && data == WireAll(frames) + rest
    ensures ParseFrames(data) == Add(CarriedBy(frames), ParseFrames(rest))
  {
    hide Decode, Encode, ParseFrames, Frame.Wire, Frame.Valid;
    if frames == [] {
      LeftAndRightUnit(rest);
      AddTwice([], [], ParseFrames(rest));
    } else {
      var later := WireAll(frames[1..]) + rest;
      Regroup(frames[0].Wire(), WireAll(frames[1..]), rest);
      FrameParsed(frames[0], later, data);
      FramesThenMore(frames[1..], rest, later);
      AddTwice(frames[0].Carried(), CarriedBy(frames[1..]), ParseFrames(rest));
    }
  }

  /**
   * For any sequence of PADDING, CRYPTO, ACK (type 0x02) and CONNECTION_CLOSE frames, with any number of ACK ranges
   * and any field widths, the parser returns exactly the CRYPTO frames' offsets and data, in order.
   */
  lemma FramesRoundTrip(frames: seq<Frame>, data: Octets)
    requires (forall i :: 0 <= i < |frames| ==> frames[i].Valid()) && data == WireAll(frames)
    ensures ParseFrames(data) == Ok(CarriedBy(frames))
  {
    hide Decode, Encode, Frame.Wire, Frame.Valid;
    LeftAndRightUnit(data);
    FramesThenMore(frames, [], data);
    FrameStep([]);
    AddNone(CarriedBy(frames));
  }

  // ----- How the walk ends

  lemma KindDispatched(v: Varint, rest: Octets, data: Octets)
    requires v.Valid() && data == Encode(v) + rest
    ensures ParseFrames(data) == Dispatch(v.value, rest)
  {
    hide Decode, Encode, SkipAck, SkipClose, TakeCrypto;
    VarintRoundTrip(v, rest, data);
  }

  /**
   * What ends the walk: a frame of any other type, CRYPTO data or a reason cut short, or an ACK of either type with
   * fewer ranges than it counts.
   */
  datatype Ending =
    | OtherFrame(kind: Varint, body: Octets)
    | ShortCrypto(kind: Varint, offset: Varint, length: Varint, data: Octets)
    | ShortReason(kind: Varint, code: Varint, cause: Varint, length: Varint, reason: Octets)
    | ShortAck(kind: Varint, largest: Varint, delay: Varint, count: Varint, present: seq<Varint>)
  {
    ghost predicate Valid() {
      && kind.Valid()
      && match this
         case OtherFrame(k, _) => k.value !in {0x00, 0x02, 0x03, 0x06, 0x1C}
         case ShortCrypto(k, o, n, data) => k.value == 0x06 && o.Valid() && n.Valid() && n.value > |data|
         case ShortReason(k, code, cause, n, reason) =>
           k.value == 0x1C && code.Valid() && cause.Valid() && n.Valid() && n.value > |reason|
         case ShortAck(k, a, b, n, present) =>
           && (k.value == 0x02 || k.value == 0x03) && a.Valid() && b.Valid() && n.Valid()
           && AllValid(present) && |present| < 1 + 2 * n.value
    }

    function Wire(): Octets
      requires Valid()
    {
      Encode(kind) + match this
                     case OtherFrame(_, body) => body
                     case ShortCrypto(_, o, n, data) => Encode(o) + (Encode(n) + data)
                     case ShortReason(_, code, cause, n, reason) => EncodeAll([code, cause]) + (Encode(n) + reason)
                     case ShortAck(_, a, b, n, present) => EncodeAll([a, b]) + (Encode(n) + EncodeAll(present))
    }
  }

  /** Fewer varints than are to be skipped. */
  lemma {:induction false} TooFewVarints(vs: seq<Varint>, count: nat, data: Octets)
    requires AllValid(vs) && |vs| < count && data == EncodeAll(vs)
    ensures SkipVarints(data, count) == Err(ValueError)
    decreases |vs|
  {
    hide Encode;
    if vs != [] {
      VarintRoundTrip(vs[0], EncodeAll(vs[1..]), data);
      hide Decode;
      TooFewVarints(vs[1..], count - 1, EncodeAll(vs[1..]));
    }
  }

  lemma ShortAckRefused(e: Ending, data: Octets)
    requires e.ShortAck? && e.Valid()
    requires data == EncodeAll([e.largest, e.delay]) + (Encode(e.count) + EncodeAll(e.present))
    ensures SkipAck(data) == Err(ValueError)
  {
    hide Decode, Encode, EncodeAll, SkipVarints;
    var ranges := EncodeAll(e.present);
    SkipEncoded([e.largest, e.delay], Encode(e.count) + ranges);
    VarintRoundTrip(e.count, ranges, Encode(e.count) + ranges);
    TooFewVarints(e.present, 1 + 2 * e.count.value, ranges);
  }

  lemma ShortReasonEnds(e: Ending, data: Octets)
    requires e.ShortReason? && e.Valid() && data == EncodeAll([e.code, e.cause]) + (Encode(e.length) + e.reason)
    ensures SkipClose(data) == Ok([])
  {
    hide Decode, Encode, EncodeAll, SkipVarints;
    SkipEncoded([e.code, e.cause], Encode(e.length) + e.reason);
    VarintRoundTrip(e.length, e.reason, Encode(e.length) + e.reason);
  }

  lemma ShortCryptoEnds(e: Ending, data: Octets)
    requires e.ShortCrypto? && e.Valid() && data == Encode(e.offset) + (Encode(e.length) + e.data)
    ensures TakeCrypto(data) == None
  {
    hide Decode, Encode;
    VarintRoundTrip(e.offset, Encode(e.length) + e.data, data);
    VarintRoundTrip(e.length, e.data, Encode(e.length) + e.data);
  }

  lemma EndingParsed(e: Ending, data: Octets)
    requires e.Valid() && data == e.Wire()
    ensures ParseFrames(data) == if e.ShortAck? then Err(ValueError) else Ok([])
  {
    hide Decode, Encode, EncodeAll, SkipAck, SkipClose, TakeCrypto;
    var body := match e
      case OtherFrame(_, body) => body
      case ShortCrypto(_, o, n, data) => Encode(o) + (Encode(n) + data)
      case ShortReason(_, code, cause, n, reason) => EncodeAll([code, cause]) + (Encode(n) + reason)
      case ShortAck(_, a, b, n, present) => EncodeAll([a, b]) + (Encode(n) + EncodeAll(present));
    KindDispatched(e.kind, body, data);
    match e
    case OtherFrame(_, _) =>
    case ShortCrypto(_, _, _, _) => ShortCryptoEnds(e, body);
    case ShortReason(_, _, _, _, _) => ShortReasonEnds(e, body);
      FrameStep([]);
    case ShortAck(_, _, _, _, _) => ShortAckRefused(e, body);
  }

  /** An ACK cut short raises, and all that was found is lost; any other ending leaves what was found before it. */
  lemma WalkEndsExactly(frames: seq<Frame>, e: Ending, data: Octets)
    requires (forall i :: 0 <= i < |frames| ==> frames[i].Valid()) && e.Valid() && data == WireAll(frames) + e.Wire()
    ensures ParseFrames(data) == if e.ShortAck? then Err(ValueError) else Ok(CarriedBy(frames))
  {
    hide Decode, Encode, ParseFrames, Frame.Wire, Frame.Valid, Ending.Wire, Ending.Valid;
    FramesThenMore(frames, e.Wire(), data);
    EndingParsed(e, e.Wire());
    AddNone(CarriedBy(frames));
  }

  // ----- ACK frames of type 0x03: their ECN counts are not skipped

  /** An empty CRYPTO frame at offset 0, the frame that follows the counts below. */
  const PROBE: Octets := [6, 0, 0]
  const TWO_ZEROS: Octets := [0, 0]
  const ONE_ZERO: Octets := [0]

  lemma SmallByte(b: Byte, rest: Octets)
    requires b < 64
    ensures Decode([b] + rest) == Ok((b as nat, 1)) && ([b] + rest)[1..] == rest
  {
    var s := [b] + rest;
    var digits := [s[0] % 64] + s[1..WidthOf(s[0])];
    assert digits == [b] && digits[..0] == [];
    assert BigEndian(digits) == BigEndian(digits[..0]) * 256 + b;
    assert s[1..] == rest;
  }

  lemma ProbeTails()
    ensures Decode(PROBE) == Ok((6, 1)) && PROBE[1..] == TWO_ZEROS
    ensures Decode(TWO_ZEROS) == Ok((0, 1)) && TWO_ZEROS[1..] == ONE_ZERO
    ensures Decode(ONE_ZERO) == Ok((0, 1)) && ONE_ZERO[1..] == []
    ensures ParseFrames([]) == Ok([]) && ParseFrames(ONE_ZERO) == Ok([])
    ensures ParseFrames(PROBE) == Ok([CryptoData(0, [])])
  {
    SmallByte(6, TWO_ZEROS);
    SmallByte(0, ONE_ZERO);
    SmallByte(0, []);
    hide Decode;
    assert PROBE == [6] + TWO_ZEROS && TWO_ZEROS == [0] + ONE_ZERO && ONE_ZERO == [0] + [];
    assert PROBE[1..] == TWO_ZEROS && TWO_ZEROS[1..] == ONE_ZERO && ONE_ZERO[1..] == [];
    assert TakeCrypto(TWO_ZEROS) == Some((CryptoData(0, []), []));
    assert ParseFrames([]) == Ok([]);
    assert ParseFrames(ONE_ZERO) == Ok([]);
    AddNone([CryptoData(0, [])]);
    assert ParseFrames(PROBE) == Add([CryptoData(0, [])], Ok([]));
  }

  predicate IsProbe(r: Result<seq<CryptoData>>) {
    r == Ok([CryptoData(0, [])])
  }

  lemma AddKeepsFirst(one: CryptoData, r: Result<seq<CryptoData>>)
    ensures IsProbe(Add([one], r)) ==> one == CryptoData(0, []) && r == Ok([])
  {
    if r.Ok? {
      assert ([one] + r.value)[0] == one;
    }
  }

  lemma FirstCountAsCrypto(e1: Varint, e2: Varint)
    requires e1.Valid() && e2.Valid()
    ensures !IsProbe(Dispatch(CRYPTO, Encode(e1) + (Encode(e2) + PROBE)))
  {
    ProbeTails();
    VarintRoundTrip(e1, Encode(e2) + PROBE, Encode(e1) + (Encode(e2) + PROBE));
    VarintRoundTrip(e2, PROBE, Encode(e2) + PROBE);
    hide Decode, Encode, ParseFrames;
    var s := Encode(e1) + (Encode(e2) + PROBE);
    if e2.value > 3 {
      assert TakeCrypto(s) == None;
    } else {
      var first := CryptoData(e1.value, PROBE[..e2.value]);
      assert TakeCrypto(s) == Some((first, PROBE[e2.value..]));
      AddKeepsFirst(first, ParseFrames(PROBE[e2.value..]));
      if e2.value == 0 {
        assert PROBE[0..] == PROBE;
      } else {
        assert |first.data| == e2.value;
      }
    }
  }

  lemma SkipTwo(a: Varint, b: Varint, rest: Octets)
    requires a.Valid() && b.Valid()
    ensures SkipVarints(Encode(a) + (Encode(b) + rest), 2) == Ok(rest)
  {
    hide Decode, Encode;
    VarintRoundTrip(a, Encode(b) + rest, Encode(a) + (Encode(b) + rest));
    VarintRoundTrip(b, rest, Encode(b) + rest);
    assert SkipVarints(Encode(b) + rest, 1) == Ok(rest);
  }

  /** A run of varints cannot be longer than the bytes it is read from. */
  lemma {:induction false} SkipPastEnd(data: Octets, count: nat)
    requires count > |data|
    ensures SkipVarints(data, count).Err?
    decreases count
  {
    hide Decode;
    if Decode(data).Ok? {
      SkipPastEnd(data[Decode(data).value.1..], count - 1);
    }
  }

  lemma FirstCountRead(e0: Varint, e1: Varint, e2: Varint)
    requires e0.value != 0 && e1.Valid() && e2.Valid()
    ensures !IsProbe(Dispatch(e0.value, Encode(e1) + (Encode(e2) + PROBE)))
  {
    ProbeTails();
    VarintRoundTrip(e1, Encode(e2) + PROBE, Encode(e1) + (Encode(e2) + PROBE));
    VarintRoundTrip(e2, PROBE, Encode(e2) + PROBE);
    hide Decode, Encode, ParseFrames;
    var s := Encode(e1) + (Encode(e2) + PROBE);
    if e0.value == CRYPTO {
      FirstCountAsCrypto(e1, e2);
    } else if e0.value == ACK || e0.value == ACK_ECN {
      SkipTwo(e1, e2, PROBE);
      SkipPastEnd(TWO_ZEROS, 13);
      assert SkipAck(s).Err?;
    } else if e0.value == CONNECTION_CLOSE {
      SkipTwo(e1, e2, PROBE);
      assert SkipClose(s) == Ok([]);
    }
  }

  lemma SecondCountRead(e1: Varint, e2: Varint)
    requires e1.value != 0 && e2.Valid()
    ensures !IsProbe(Dispatch(e1.value, Encode(e2) + PROBE))
  {
    ProbeTails();
    VarintRoundTrip(e2, PROBE, Encode(e2) + PROBE);
    hide Decode, Encode, ParseFrames;
    var s := Encode(e2) + PROBE;
    assert SkipVarints(PROBE, 1) == Ok(TWO_ZEROS);
    assert SkipVarints(s, 2) == Ok(TWO_ZEROS);
    assert SkipVarints(ONE_ZERO, 1) == Ok([]);
    assert TakeCrypto(s) == None;
  }

  lemma ThirdCountRead(e2: Varint)
    requires e2.value != 0
    ensures !IsProbe(Dispatch(e2.value, PROBE))
  {
    ProbeTails();
    hide Decode, Encode, ParseFrames;
    assert SkipVarints(TWO_ZEROS, 1) == Ok(ONE_ZERO);
    assert SkipVarints(PROBE, 2) == Ok(ONE_ZERO);
    if e2.value == CRYPTO {
      assert TakeCrypto(PROBE) == Some((CryptoData(6, []), ONE_ZERO));
      AddKeepsFirst(CryptoData(6, []), ParseFrames(ONE_ZERO));
    } else if e2.value == ACK || e2.value == ACK_ECN {
      SkipPastEnd([], 1);
      assert SkipAck(PROBE).Err?;
    } else if e2.value == CONNECTION_CLOSE {
      assert SkipClose(PROBE) == Ok([]);
    }
  }

  lemma ZeroCountSkipped(v: Varint, rest: Octets, data: Octets)
    requires v.Valid() && v.value == 0 && data == Encode(v) + rest
    ensures ParseFrames(data) == ParseFrames(rest)
  {
    hide Encode;
    KindDispatched(v, rest, data);
  }

  /** Three counts that the parser passes over when the given bytes follow them. */
  predicate CountsPassed(e0: Varint, e1: Varint, e2: Varint, rest: Octets)
    requires e0.Valid() && e1.Valid() && e2.Valid()
  {
    ParseFrames(Encode(e0) + (Encode(e1) + (Encode(e2) + rest))) == ParseFrames(rest)
  }

  /**
   * The ECN counts that end an ACK frame of type 0x03 are read as further frames. The parser still finds what
   * follows exactly when all three counts are zero, because zeros read as PADDING.
   */
  lemma EcnCountsAreReadAsFrames(e0: Varint, e1: Varint, e2: Varint)
    requires e0.Valid() && e1.Valid() && e2.Valid()
    ensures (forall rest: Octets :: CountsPassed(e0, e1, e2, rest)) <==> e0.value == e1.value == e2.value == 0
  {
    hide Encode, ParseFrames, Dispatch;
    if e0.value == e1.value == e2.value == 0 {
      forall rest: Octets
        ensures CountsPassed(e0, e1, e2, rest)
      {
        var third := Encode(e2) + rest;
        var second := Encode(e1) + third;
        ZeroCountSkipped(e2, rest, third);
        ZeroCountSkipped(e1, third, second);
        ZeroCountSkipped(e0, second, Encode(e0) + second);
      }
    } else {
      var third := Encode(e2) + PROBE;
      var second := Encode(e1) + third;
      var first := Encode(e0) + second;
      ProbeTails();
      KindDispatched(e0, second, first);
      KindDispatched(e1, third, second);
      KindDispatched(e2, PROBE, third);
      if e0.value != 0 {
        FirstCountRead(e0, e1, e2);
      } else {
        ZeroCountSkipped(e0, second, first);
        if e1.value != 0 {
          SecondCountRead(e1, e2);
        } else {
          ZeroCountSkipped(e1, third, second);
          ThirdCountRead(e2);
        }
      }
      assert !CountsPassed(e0, e1, e2, PROBE);
    }
  }

  /** An ACK frame of type 0x03: after what type 0x02 carries, the counts for ECT(0), ECT(1) and ECN-CE. */
  datatype EcnAck = EcnAck(kind: Varint, ack: AckBody, e0: Varint, e1: Varint, e2: Varint) {
    ghost predicate Valid() {
      kind.Valid() && kind.value == 0x03 && ack.Valid() && e0.Valid() && e1.Valid() && e2.Valid()
    }

    function Wire(): Octets
      requires Valid()
    {
      Encode(kind) + (ack.Wire() + (Encode(e0) + (Encode(e1) + Encode(e2))))
    }
  }

  /** The parser stops skipping where the counts begin. */
  lemma EcnAckParsed(f: EcnAck, rest: Octets, data: Octets)
    requires f.Valid() && data == f.Wire() + rest
    ensures ParseFrames(data) == ParseFrames(Encode(f.e0) + (Encode(f.e1) + (Encode(f.e2) + rest)))
  {
    hide Decode, Encode, SkipAck, ParseFrames;
    var counts := Encode(f.e0) + (Encode(f.e1) + Encode(f.e2));
    var tail := Encode(f.e0) + (Encode(f.e1) + (Encode(f.e2) + rest));
    assert counts + rest == tail;
    Regroup(Encode(f.kind), f.ack.Wire() + counts, rest);
    Regroup(f.ack.Wire(), counts, rest);
    SkipEncodedAck(f.ack, tail);
    KindDispatched(f.kind, f.ack.Wire() + tail, Encode(f.kind) + (f.ack.Wire() + tail));
  }

  /** A whole frame that the parser passes over when the given bytes follow it. */
  predicate FramePassed(f: EcnAck, rest: Octets)
    requires f.Valid()
  {
    ParseFrames(f.Wire() + rest) == ParseFrames(rest)
  }

  /** So a whole frame of type 0x03 is passed over, whatever follows it, exactly when its three counts are zero. */
  lemma EcnAckExactly(f: EcnAck)
    requires f.Valid()
    ensures (forall rest: Octets :: FramePassed(f, rest)) <==> f.e0.value == f.e1.value == f.e2.value == 0
  {
    hide Encode, ParseFrames, EcnAck.Wire;
    forall rest: Octets
      ensures FramePassed(f, rest) <==> CountsPassed(f.e0, f.e1, f.e2, rest)
    {
      EcnAckParsed(f, rest, f.Wire() + rest);
    }
    EcnCountsAreReadAsFrames(f.e0, f.e1, f.e2);
  }

  lemma OneByte(n: nat)
    requires n < 64
    ensures Varint(n, 1).Valid() && Encode(Varint(n, 1)) == [n]
  {
    assert Pow256(1) == 256 * Pow256(0);
    assert ToBigEndian(n, 1) == ToBigEndian(n / 256, 0) + [n % 256];
  }

  /** An acknowledgement of packet 0 that counts one packet marked ECT(0). */
  predicate MarkedAck(f: EcnAck) {
    && f.kind == Varint(3, 1)
    && f.ack == AckBody(f.e1, f.e1, f.e1, f.e1, [])
    && f.e0 == Varint(1, 1) && f.e1 == f.e2 == Varint(0, 1)
  }

  lemma MarkedBody(ack: AckBody, zero: Varint)
    requires zero == Varint(0, 1) && ack == AckBody(zero, zero, zero, zero, [])
    ensures ack.Valid() && ack.Wire() == [0, 0, 0, 0]
  {
    OneByte(0);
    hide Encode;
    assert [zero, zero][1..] == [zero] && [zero][1..] == [];
    assert EncodeAll([]) == [] && EncodeAll([zero]) == [0] && EncodeAll([zero, zero]) == [0, 0];
    assert [zero] + [] == [zero];
  }

  lemma MarkedWire(f: EcnAck)
    requires MarkedAck(f)
    ensures f.Valid() && f.Wire() == [3, 0, 0, 0, 0, 1, 0, 0]
  {
    OneByte(0);
    OneByte(1);
    OneByte(3);
    MarkedBody(f.ack, f.e1);
    hide Encode, AckBody.Wire, AckBody.Valid;
    assert [0] + [0] == [0, 0] && [1] + [0, 0] == [1, 0, 0] && [0, 0, 0, 0] + [1, 0, 0] == [0, 0, 0, 0, 1, 0, 0];
    assert [3] + [0, 0, 0, 0, 1, 0, 0] == [3, 0, 0, 0, 0, 1, 0, 0];
  }

  lemma OneCryptoWire(f: Frame)
    requires f == Crypto(Varint(6, 1), Varint(0, 1), Varint(1, 1), [7])
    ensures f.Valid() && f.Wire() == [6, 0, 1, 7] && f.Carried() == [CryptoData(0, [7])]
  {
    OneByte(0);
    OneByte(1);
    OneByte(6);
    hide Encode;
    assert [1] + [7] == [1, 7] && [0] + [1, 7] == [0, 1, 7] && [6] + [0, 1, 7] == [6, 0, 1, 7];
  }

  lemma OneCryptoByte(data: Octets)
    requires data == [6, 0, 1, 7]
    ensures ParseFrames(data) == Ok([CryptoData(0, [7])])
  {
    var f := Crypto(Varint(6, 1), Varint(0, 1), Varint(1, 1), [7]);
    OneCryptoWire(f);
    hide Encode, Decode, ParseFrames, Frame.Wire, Frame.Valid, Frame.Carried;
    assert data + [] == data;
    FrameParsed(f, [], data);
    FrameStep([]);
    AddNone(f.Carried());
  }

  lemma EcnCountsValid(f: EcnAck)
    requires f.Valid()
    ensures f.e0.Valid() && f.e1.Valid() && f.e2.Valid()
  {
  }

  /** A concrete 0x03 frame after which the parser no longer finds the CRYPTO frame that it finds alone. */
  lemma CryptoLostAfterEcnAck(f: EcnAck, crypto: Octets)
    requires MarkedAck(f) && crypto == [6, 0, 1, 7]
    ensures f.Valid() && f.Wire() == [3, 0, 0, 0, 0, 1, 0, 0]
    ensures ParseFrames(crypto) == Ok([CryptoData(0, [7])])
    ensures ParseFrames(f.Wire() + crypto) == Ok([])
  {
    MarkedWire(f);
    OneCryptoByte(crypto);
    hide Encode, ParseFrames, EcnAck.Wire, EcnAck.Valid, AckBody.Wire, AckBody.Valid;
    EcnCountsValid(f);
    EcnAckParsed(f, crypto, f.Wire() + crypto);
    var counts := Encode(f.e1) + (Encode(f.e2) + crypto);
    KindDispatched(f.e0, counts, Encode(f.e0) + counts);
  }
}
