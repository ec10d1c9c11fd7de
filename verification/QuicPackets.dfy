/** Coalesced QUIC packets (_iter_coalesced_packets in decryptor/quic/derive_quic.py; section 12.2 of RFC 9000). */
module QuicPackets {
  import opened Bytes
  import QuicVarint

  const TYPE_INITIAL: nat := 0
  const TYPE_RETRY: nat := 3

  function TypeOf(first: Byte): nat {
    first / 16 % 4
  }

  /** Position after the connection IDs of a long header, or None when the datagram stops before a length byte. */
  function AfterConnectionIds(rest: Octets): Option<nat> {
    if |rest| < 6 then None
    else
      var scidAt := 6 + rest[5] as nat;
      if scidAt >= |rest| then None else Some(scidAt + 1 + rest[scidAt])
  }

  /** Position after an Initial's token, or None when the token length cannot be read. */
  function AfterToken(rest: Octets, pos: nat): Option<nat> {
    if pos >= |rest| then None
    else
      var token := QuicVarint.Decode(rest[pos..]);
      if token.Err? then None else Some(pos + token.value.1 + token.value.0)
  }

  /** Header and payload length of a packet, or None where the splitter takes the rest of the datagram whole. */
  function PacketLength(rest: Octets): (n: Option<nat>)
    requires rest != []
    ensures n.Some? ==> n.value > 0
  {
    if rest[0] < 128 then None
    else
      var ids := AfterConnectionIds(rest);
      if ids.None? || TypeOf(rest[0]) == TYPE_RETRY then None
      else
        var pos := if TypeOf(rest[0]) == TYPE_INITIAL then AfterToken(rest, ids.value) else ids;
        if pos.None? || pos.value >= |rest| then None
        else
          var length := QuicVarint.Decode(rest[pos.value..]);
          if length.Err? then None else Some(pos.value + length.value.1 + length.value.0)
  }

  function Packets(datagram: Octets): seq<Octets>
    decreases |datagram|
  {
    if datagram == [] then []
    else
      var n := PacketLength(datagram);
      if n.None? || n.value >= |datagram| then [datagram]
      else [datagram[..n.value]] + Packets(datagram[n.value..])
  }

  lemma WholeDatagram(datagram: Octets)
    ensures Skip(datagram, 0) == datagram
    ensures [] + Packets(datagram) == Packets(datagram)
  {
  }

  lemma PacketsStep(datagram: Octets, offset: nat)
    requires offset < |datagram|
    ensures var rest := Skip(datagram, offset);
            && rest != []
            && var n := PacketLength(rest);
            Packets(rest) == if n.None? || offset + n.value >= |datagram| then [rest]
                             else [rest[..n.value]] + Packets(Skip(datagram, offset + n.value))
  {
    hide PacketLength, Skip;
    var rest := Skip(datagram, offset);
    var n := PacketLength(rest);
    if n.Some? && offset + n.value < |datagram| {
      SkipSlice(datagram, offset, 0, n.value);
    }
  }

  /** The walk over one long header, one field at a time. */
  method NextPacketLength(rest: Octets) returns (length: Option<nat>)
    requires rest != []
    ensures length == PacketLength(rest)
  {
    hide QuicVarint.Decode;
    var first := rest[0];
    if first < 128 {
      return None;
    }
    var pos := 1;
    if pos + 4 > |rest| {
      return None;
    }
    pos := pos + 4;
    if pos >= |rest| {
      return None;
    }
    pos := pos + 1 + rest[pos];
    if pos >= |rest| {
      return None;
    }
    pos := pos + 1 + rest[pos];
    if TypeOf(first) == TYPE_INITIAL {
      if pos >= |rest| {
        return None;
      }
      var token := QuicVarint.DecodeVarint(rest[pos..]);
      if token.Err? {
        return None;
      }
      pos := pos + token.value.1 + token.value.0;
    } else if TypeOf(first) == TYPE_RETRY {
      return None;
    }
    if pos >= |rest| {
      return None;
    }
    var payload := QuicVarint.DecodeVarint(rest[pos..]);
    if payload.Err? {
      return None;
    }
    return Some(pos + payload.value.1 + payload.value.0);
  }

  lemma PacketsEnd(datagram: Octets)
    ensures Packets(Skip(datagram, |datagram|)) == []
  {
  }

  /** _iter_coalesced_packets */
  method IterCoalescedPackets(datagram: Octets) returns (packets: seq<Octets>)
    ensures packets == Packets(datagram)
  {
    hide PacketLength, Packets, Skip;
    packets := [];
    var offset := 0;
    WholeDatagram(datagram);
    while offset < |datagram|
      invariant 0 <= offset <= |datagram|
      invariant Packets(datagram) == packets + Packets(Skip(datagram, offset))
      decreases |datagram| - offset
    {
      var rest := Skip(datagram, offset);
      PacketsStep(datagram, offset);
      var length := NextPacketLength(rest);
      if length.None? {
        packets := packets + [rest];
        return;
      }
      var end := offset + length.value;
      if end >= |datagram| {
        packets := packets + [rest];
        return;
      }
      assert (packets + [rest[..length.value]]) + Packets(Skip(datagram, end))
             == packets + ([rest[..length.value]] + Packets(Skip(datagram, end)));
      packets := packets + [rest[..length.value]];
      offset := end;
    }
    PacketsEnd(datagram);
    assert packets + [] == packets;
  }

  // ----- Every datagram whatsoever

  /** The packets partition the datagram: none is empty, and together they are the datagram, in order. */
  lemma {:induction false} PacketsPartition(datagram: Octets)
    ensures forall i :: 0 <= i < |Packets(datagram)| ==> Packets(datagram)[i] != []
    ensures Flatten(Packets(datagram)) == datagram
    decreases |datagram|
  {
    hide PacketLength, Flatten;
    if datagram == [] {
      FlattenNothing();
    } else {
      var n := PacketLength(datagram);
      if n.None? || n.value >= |datagram| {
        FlattenCons(datagram, []);
        FlattenNothing();
        assert [datagram] + [] == [datagram];
        LeftAndRightUnit(datagram);
      } else {
        PacketsPartition(datagram[n.value..]);
        FlattenCons(datagram[..n.value], Packets(datagram[n.value..]));
        assert datagram[..n.value] + datagram[n.value..] == datagram;
      }
    }
  }

  // ----- Well-formed datagrams

  /**
   * An Initial (kind 0), 0-RTT (1) or Handshake packet (2); the token belongs to an Initial. The first byte holds the
   * long-header bit, the fixed bit, two bits for the kind and four more; section 17.2 of RFC 9000.
   */
  datatype LongPacket = LongPacket(
    fixed: nat, kind: nat, low: nat, version: Octets, dcid: Octets, scid: Octets,
    tokenWidth: nat, token: Octets, lengthWidth: nat, payload: Octets)
  {
    predicate Valid() {
      && fixed < 2 && kind < 3 && low < 16
      && |version| == 4 && |dcid| < 256 && |scid| < 256
      && QuicVarint.Varint(|token|, tokenWidth).Valid()
      && QuicVarint.Varint(|payload|, lengthWidth).Valid()
    }

    function First(): (b: Byte)
      requires Valid()
    {
      128 + 64 * fixed + 16 * kind + low
    }

    function TokenField(): Octets
      requires Valid()
    {
      if kind == 0 then QuicVarint.Encode(QuicVarint.Varint(|token|, tokenWidth)) + token else []
    }

    function LengthField(): Octets
      requires Valid()
    {
      QuicVarint.Encode(QuicVarint.Varint(|payload|, lengthWidth))
    }

    function Ids(): Octets
      requires Valid()
    {
      [First()] + version + [|dcid|] + dcid + [|scid|] + scid
    }

    function Wire(): (w: Octets)
      requires Valid()
      ensures w != []
    {
      Ids() + (TokenField() + (LengthField() + payload))
    }
  }

  function WireAll(packets: seq<LongPacket>): seq<Octets>
    requires forall i :: 0 <= i < |packets| ==> packets[i].Valid()
  {
    if packets == [] then [] else [packets[0].Wire()] + WireAll(packets[1..])
  }

  /** What may close a datagram: nothing, one short-header packet, or one Retry (kind 3), whatever its other bits. */
  predicate ClosingPacket(last: Octets) {
    last == [] || last[0] < 128 || 176 <= last[0] < 192 || 240 <= last[0]
  }

  /** The kind is where the first byte of a long header has it. */
  lemma KindIsRead(fixed: nat, kind: nat, low: nat)
    requires fixed < 2 && kind < 4 && low < 16
    ensures TypeOf(128 + 64 * fixed + 16 * kind + low) == kind
    ensures kind == 3 <==> ClosingPacket([128 + 64 * fixed + 16 * kind + low])
  {
    assert (128 + 64 * fixed + 16 * kind + low) / 16 == 8 + 4 * fixed + kind;
  }

  lemma IdsRead(p: LongPacket, tail: Octets)
    requires p.Valid() && tail != []
    ensures AfterConnectionIds(p.Ids() + tail) == Some(|p.Ids()|)
    ensures (p.Ids() + tail)[0] == p.First()
    ensures (p.Ids() + tail)[|p.Ids()|..] == tail
  {
    var s := p.Ids() + tail;
    assert s[5] == |p.dcid|;
    assert s[6 + |p.dcid|] == |p.scid|;
  }

  lemma TokenRead(p: LongPacket, before: Octets, tail: Octets)
    requires p.Valid() && p.kind == 0
    ensures AfterToken(before + (p.TokenField() + tail), |before|) == Some(|before| + |p.TokenField()|)
  {
    hide QuicVarint.Decode, QuicVarint.Encode;
    var token := QuicVarint.Varint(|p.token|, p.tokenWidth);
    var s := before + (p.TokenField() + tail);
    assert s[|before|..] == QuicVarint.Encode(token) + (p.token + tail);
    QuicVarint.VarintRoundTrip(token, p.token + tail, QuicVarint.Encode(token) + (p.token + tail));
  }

  lemma PacketRead(p: LongPacket, tail: Octets)
    requires p.Valid()
    ensures PacketLength(p.Wire() + tail) == Some(|p.Wire()|)
    ensures (p.Wire() + tail)[..|p.Wire()|] == p.Wire() && (p.Wire() + tail)[|p.Wire()|..] == tail
  {
    hide QuicVarint.Decode, QuicVarint.Encode, AfterConnectionIds, AfterToken, p.Ids;
    var s := p.Wire() + tail;
    var ids, token, length := p.Ids(), p.TokenField(), p.LengthField();
    var rest := length + (p.payload + tail);
    assert s == ids + (token + rest);
    IdsRead(p, token + rest);
    KindIsRead(p.fixed, p.kind, p.low);
    if p.kind == 0 {
      TokenRead(p, ids, rest);
    }
    var pos := |ids| + |token|;
    assert s[pos..] == rest;
    var size := QuicVarint.Varint(|p.payload|, p.lengthWidth);
    QuicVarint.VarintRoundTrip(size, p.payload + tail, QuicVarint.Encode(size) + (p.payload + tail));
  }

  lemma OnlyTheLast(last: Octets)
    requires ClosingPacket(last)
    ensures Packets(last) == if last == [] then [] else [last]
  {
    hide AfterConnectionIds, AfterToken, TypeOf, QuicVarint.Decode;
    if last != [] && last[0] >= 128 {
      var first := last[0];
      KindIsRead(if first < 192 then 0 else 1, 3, first % 16);
      assert first == 128 + 64 * (if first < 192 then 0 else 1) + 16 * 3 + first % 16;
    }
  }

  lemma FirstComesOff(p: LongPacket, tail: Octets)
    requires p.Valid()
    ensures Packets(p.Wire() + tail) == [p.Wire()] + Packets(tail)
  {
    PacketRead(p, tail);
    hide PacketLength, p.Wire;
    if tail == [] {
      LeftAndRightUnit(p.Wire());
      assert [p.Wire()] + [] == [p.Wire()];
    }
  }

  /**
   * Splitting is exact on well-formed datagrams: any number of Initial, 0-RTT and Handshake packets, then at
   * most one packet without a length, come apart into exactly those packets.
   */
  lemma {:induction false} CoalescedPacketsComeApart(packets: seq<LongPacket>, last: Octets)
    requires forall i :: 0 <= i < |packets| ==> packets[i].Valid()
    requires ClosingPacket(last)
    ensures Packets(Flatten(WireAll(packets)) + last) == WireAll(packets) + if last == [] then [] else [last]
  {
    hide PacketLength, Flatten, Packets;
    if packets == [] {
      FlattenNothing();
      LeftAndRightUnit(last);
      OnlyTheLast(last);
      assert WireAll(packets) + [] == WireAll(packets);
    } else {
      var p := packets[0];
      var tail := Flatten(WireAll(packets[1..])) + last;
      FlattenCons(p.Wire(), WireAll(packets[1..]));
      Regroup(p.Wire(), Flatten(WireAll(packets[1..])), last);
      FirstComesOff(p, tail);
      CoalescedPacketsComeApart(packets[1..], last);
    }
  }
}
