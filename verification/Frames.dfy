/**
 * Synthetic Ethernet/IPv4 frames (minarx/pcap.py and archive_policy.py): every checksum verifies, and a
 * dissector reading the fixed offsets finds the ports, the sequence number and the payload that were put in.
 */
module Frames {
  import opened Bytes
  import opened Checksum

  const ETHERNET: Octets := [2, 0, 0, 0, 0, 2, 2, 0, 0, 0, 0, 1, 8, 0]
  const PROTOCOL_TCP: Byte := 6
  const PROTOCOL_UDP: Byte := 17

  datatype Addresses = Addresses(source: Octets, destination: Octets) {
    predicate Valid() {
      |source| == 4 && |destination| == 4
    }
  }

  // ----- IPv4

  function Ipv4Zeroed(length: nat, protocol: Byte, a: Addresses, ident: nat): (h: Octets)
    requires a.Valid() && 20 + length < 65536
    ensures |h| == 20
  {
    [0x45, 0] + U16(20 + length) + U16(ident % 65536) + U16(0x4000) + [64, protocol] + [0, 0] + a.source + a.destination
  }

  function Ipv4Header(length: nat, protocol: Byte, a: Addresses, ident: nat): (h: Octets)
    requires a.Valid() && 20 + length < 65536
    ensures |h| == 20
  {
    Patch(Ipv4Zeroed(length, protocol, a, ident), 10, ChecksumOf(Ipv4Zeroed(length, protocol, a, ident)))
  }

  /** _ethernet_ipv4; a total length over 16 bits cannot be packed. */
  function EthernetIpv4(payload: Octets, protocol: Byte, a: Addresses, ident: nat): Result<Octets>
    requires a.Valid()
  {
    if 20 + |payload| >= 65536 then Err(StructError)
    else Ok(ETHERNET + Ipv4Header(|payload|, protocol, a, ident) + payload)
  }

  // ----- TCP

  datatype Tcp = Tcp(addresses: Addresses, sourcePort: nat, destinationPort: nat, sequence: nat,
      acknowledgement: nat, flags: Byte)

  predicate TcpFieldsFit(t: Tcp) {
    t.sourcePort < 65536 && t.destinationPort < 65536 && t.sequence < 0x1_0000_0000 && t.acknowledgement < 0x1_0000_0000
  }

  function TcpZeroed(t: Tcp): (h: Octets)
    requires TcpFieldsFit(t)
    ensures |h| == 20 && h[16] == 0 && h[17] == 0
  {
    U16(t.sourcePort) + U16(t.destinationPort) + U32(t.sequence) + U32(t.acknowledgement)
    + [0x50, t.flags] + U16(65535) + [0, 0] + [0, 0]
  }

  function Pseudo(a: Addresses, protocol: Byte, length: nat): (p: Octets)
    requires a.Valid() && length < 65536
    ensures |p| == 12
  {
    a.source + a.destination + [0, protocol] + U16(length)
  }

  function TcpSegment(t: Tcp, data: Octets): Octets
    requires TcpFieldsFit(t) && t.addresses.Valid() && 20 + |data| < 65536
  {
    var tcp := TcpZeroed(t) + data;
    Patch(tcp, 16, ChecksumOf(Pseudo(t.addresses, PROTOCOL_TCP, |tcp|) + tcp))
  }

  /** _tcp_segment and _tcp_packet: the segment inside its frame. */
  function TcpFrame(t: Tcp, data: Octets, ident: nat): Result<Octets>
    requires t.addresses.Valid()
  {
    if !TcpFieldsFit(t) || 20 + |data| >= 65536 then Err(StructError)
    else EthernetIpv4(TcpSegment(t, data), PROTOCOL_TCP, t.addresses, ident)
  }

  // ----- UDP

  datatype Udp = Udp(addresses: Addresses, sourcePort: nat, destinationPort: nat)

  function UdpZeroed(u: Udp, length: nat): (h: Octets)
    requires u.sourcePort < 65536 && u.destinationPort < 65536 && 8 + length < 65536
    ensures |h| == 8 && h[6] == 0 && h[7] == 0
  {
    U16(u.sourcePort) + U16(u.destinationPort) + U16(8 + length) + [0, 0]
  }

  function UdpDatagram(u: Udp, data: Octets): Octets
    requires u.sourcePort < 65536 && u.destinationPort < 65536 && 8 + |data| < 65536 && u.addresses.Valid()
  {
    var udp := UdpZeroed(u, |data|) + data;
    var computed := ChecksumOf(Pseudo(u.addresses, PROTOCOL_UDP, |udp|) + udp);
    Patch(udp, 6, if computed == 0 then 0xFFFF else computed)
  }

  /** _udp_datagram */
  function UdpFrame(u: Udp, data: Octets, ident: nat): Result<Octets>
    requires u.addresses.Valid()
  {
    if u.sourcePort >= 65536 || u.destinationPort >= 65536 || 8 + |data| >= 65536 then Err(StructError)
    else EthernetIpv4(UdpDatagram(u, data), PROTOCOL_UDP, u.addresses, ident)
  }

  // ----- What the receiver sees

  /** The parts of a frame at their fixed offsets: link header, network header, transport bytes. */
  function NetworkHeader(frame: Octets): Octets
    requires |frame| >= 34
  {
    frame[14..34]
  }

  function Transport(frame: Octets): Octets
    requires |frame| >= 34
  {
    frame[34..]
  }

  /** The pseudo-header a receiver builds: addresses, protocol and length all come from the frame's own header. */
  function ReceivedPseudo(frame: Octets): Octets
    requires |frame| >= 34 && BigEndian(frame[16..18]) >= 20
  {
    BigEndian2(frame[16..18]);
    frame[26..30] + frame[30..34] + [0, frame[23]] + U16(BigEndian(frame[16..18]) - 20)
  }

  /** A receiver takes the frame: its length field is right and both checksums verify. */
  predicate Accepted(frame: Octets)
    requires |frame| >= 34
  {
    && BigEndian(frame[16..18]) == |frame| - 14
    && Verifies(NetworkHeader(frame))
    && Verifies(ReceivedPseudo(frame) + Transport(frame))
  }

  /** What the dissector's fields tcp.srcport, tcp.dstport, tcp.seq and tcp.payload report. */
  datatype TcpFields = TcpFields(sourcePort: nat, destinationPort: nat, sequence: nat, payload: Octets)

  function DissectTcp(frame: Octets): TcpFields
    requires |frame| >= 54
  {
    TcpFields(BigEndian(frame[34..36]), BigEndian(frame[36..38]), BigEndian(frame[38..42]), frame[54..])
  }

  datatype UdpFields = UdpFields(sourcePort: nat, destinationPort: nat, length: nat, checksum: nat, payload: Octets)

  function DissectUdp(frame: Octets): UdpFields
    requires |frame| >= 42
  {
    UdpFields(BigEndian(frame[34..36]), BigEndian(frame[36..38]), BigEndian(frame[38..40]), BigEndian(frame[40..42]),
              frame[42..])
  }

  lemma FrameParts(payload: Octets, protocol: Byte, a: Addresses, ident: nat)
    requires a.Valid() && 20 + |payload| < 65536
    ensures var frame := EthernetIpv4(payload, protocol, a, ident).value;
            && |frame| == 34 + |payload|
            && NetworkHeader(frame) == Ipv4Header(|payload|, protocol, a, ident)
            && Transport(frame) == payload
  {
    hide Ipv4Header;
  }

  lemma Ipv4Layout(length: nat, protocol: Byte, a: Addresses, ident: nat)
    requires a.Valid() && 20 + length < 65536
    ensures var h := Ipv4Zeroed(length, protocol, a, ident);
            && h[10] == 0 && h[11] == 0
            && h[2..4] == U16(20 + length) && h[9] == protocol && h[12..16] == a.source && h[16..20] == a.destination
  {
    hide U16;
  }

  lemma Ipv4Verifies(length: nat, protocol: Byte, a: Addresses, ident: nat)
    requires a.Valid() && 20 + length < 65536
    ensures Verifies(Ipv4Header(length, protocol, a, ident))
  {
    hide U16, ChecksumOf, Verifies, Ipv4Zeroed;
    var zeroed := Ipv4Zeroed(length, protocol, a, ident);
    Ipv4Layout(length, protocol, a, ident);
    AcceptedChecksums([], zeroed, 10, ChecksumOf(zeroed));
    assert [] + zeroed == zeroed;
    assert [] + Ipv4Header(length, protocol, a, ident) == Ipv4Header(length, protocol, a, ident);
  }

  lemma SlicesOfParts(h: Octets)
    requires |h| == 20
    ensures h[2..4] == h[..10][2..4] && h[9] == h[..10][9]
    ensures h[12..16] == h[12..][..4] && h[16..20] == h[12..][4..8]
  {
  }

  lemma Ipv4Fields(length: nat, protocol: Byte, a: Addresses, ident: nat)
    requires a.Valid() && 20 + length < 65536
    ensures var header := Ipv4Header(length, protocol, a, ident);
            && BigEndian(header[2..4]) == 20 + length && header[9] == protocol
            && header[12..16] == a.source && header[16..20] == a.destination
  {
    hide U16, ChecksumOf, Ipv4Zeroed, BigEndian, Patch;
    var zeroed := Ipv4Zeroed(length, protocol, a, ident);
    var header := Ipv4Header(length, protocol, a, ident);
    Ipv4Layout(length, protocol, a, ident);
    PatchedFields(zeroed, 10, ChecksumOf(zeroed));
    SlicesOfParts(header);
    SlicesOfParts(zeroed);
  }

  /** The receiver's pseudo-header is the one the checksum was computed over. */
  lemma PseudoReceived(payload: Octets, protocol: Byte, a: Addresses, ident: nat)
    requires a.Valid() && 20 + |payload| < 65536
    ensures var frame := EthernetIpv4(payload, protocol, a, ident).value;
            && BigEndian(frame[16..18]) == |frame| - 14 == 20 + |payload|
            && ReceivedPseudo(frame) == Pseudo(a, protocol, |payload|)
            && Verifies(NetworkHeader(frame))
  {
    hide Ipv4Header, U16, BigEndian, Verifies;
    var frame, header := EthernetIpv4(payload, protocol, a, ident).value, Ipv4Header(|payload|, protocol, a, ident);
    FrameParts(payload, protocol, a, ident);
    Ipv4Fields(|payload|, protocol, a, ident);
    Ipv4Verifies(|payload|, protocol, a, ident);
    assert frame[16..18] == header[2..4] && frame[23] == header[9];
    assert frame[26..30] == header[12..16] && frame[30..34] == header[16..20];
  }

  lemma TcpVerifies(t: Tcp, data: Octets)
    requires TcpFieldsFit(t) && t.addresses.Valid() && 20 + |data| < 65536
    ensures |TcpSegment(t, data)| == 20 + |data|
    ensures Verifies(Pseudo(t.addresses, PROTOCOL_TCP, 20 + |data|) + TcpSegment(t, data))
    ensures TcpSegment(t, data)[..16] == TcpZeroed(t)[..16]
    ensures TcpSegment(t, data)[20..] == data
  {
    hide U16, U32, ChecksumOf, Verifies, Pseudo, TcpZeroed;
    var tcp := TcpZeroed(t) + data;
    var pseudo := Pseudo(t.addresses, PROTOCOL_TCP, |tcp|);
    AcceptedChecksums(pseudo, tcp, 16, ChecksumOf(pseudo + tcp));
  }

  lemma UdpVerifies(u: Udp, data: Octets)
    requires u.sourcePort < 65536 && u.destinationPort < 65536 && 8 + |data| < 65536 && u.addresses.Valid()
    ensures |UdpDatagram(u, data)| == 8 + |data|
    ensures Verifies(Pseudo(u.addresses, PROTOCOL_UDP, 8 + |data|) + UdpDatagram(u, data))
    ensures BigEndian(UdpDatagram(u, data)[..2]) == u.sourcePort
    ensures BigEndian(UdpDatagram(u, data)[2..4]) == u.destinationPort
    ensures BigEndian(UdpDatagram(u, data)[4..6]) == 8 + |data|
    ensures BigEndian(UdpDatagram(u, data)[6..8]) != 0
    ensures UdpDatagram(u, data)[8..] == data
  {
    hide U16, BigEndian, ChecksumOf, Verifies, Pseudo;
    var zeroed := UdpZeroed(u, |data|);
    var udp := zeroed + data;
    var pseudo := Pseudo(u.addresses, PROTOCOL_UDP, |udp|);
    var computed := ChecksumOf(pseudo + udp);
    var stored := if computed == 0 then 0xFFFF else computed;
    var datagram := UdpDatagram(u, data);
    AcceptedChecksums(pseudo, udp, 6, stored);
    assert datagram[6..8] == U16(stored);
    assert datagram[..2] == zeroed[..2] == U16(u.sourcePort);
    assert datagram[2..4] == zeroed[2..4] == U16(u.destinationPort);
    assert datagram[4..6] == zeroed[4..6] == U16(8 + |data|);
  }

  lemma LongFramesRefused(payload: Octets, protocol: Byte, a: Addresses, ident: nat)
    requires a.Valid()
    ensures EthernetIpv4(payload, protocol, a, ident).Ok? <==> 20 + |payload| < 65536
    ensures EthernetIpv4(payload, protocol, a, ident).Err? ==>
              EthernetIpv4(payload, protocol, a, ident) == Err(StructError)
  {
  }

  lemma FieldsAtOffsets(t: Tcp, segment: Octets, frame: Octets)
    requires TcpFieldsFit(t) && |segment| >= 20 && segment[..16] == TcpZeroed(t)[..16]
    requires |frame| == 34 + |segment| && Transport(frame) == segment
    ensures BigEndian(frame[34..36]) == t.sourcePort
    ensures BigEndian(frame[36..38]) == t.destinationPort
    ensures BigEndian(frame[38..42]) == t.sequence
  {
    hide U16, U32;
    var h := TcpZeroed(t);
    assert h[..2] == U16(t.sourcePort) && h[2..4] == U16(t.destinationPort) && h[4..8] == U32(t.sequence);
    assert frame[34..36] == segment[..16][..2] && frame[36..38] == segment[..16][2..4];
    assert frame[38..42] == segment[..16][4..8];
    assert h[..16][..2] == h[..2] && h[..16][2..4] == h[2..4] && h[..16][4..8] == h[4..8];
  }

  /**
   * Every TCP frame is accepted by a receiver, for every payload, and dissects back to the ports, sequence number
   * and payload it was built from.
   */
  lemma TcpFrameIsFaithful(t: Tcp, data: Octets, ident: nat)
    requires t.addresses.Valid()
    ensures TcpFrame(t, data, ident).Ok? <==> TcpFieldsFit(t) && 40 + |data| < 65536
    ensures TcpFrame(t, data, ident).Err? ==> TcpFrame(t, data, ident) == Err(StructError)
    ensures TcpFrame(t, data, ident).Ok? ==>
              var frame := TcpFrame(t, data, ident).value;
              && |frame| == 54 + |data|
              && Accepted(frame)
              && DissectTcp(frame) == TcpFields(t.sourcePort, t.destinationPort, t.sequence, data)
  {
    hide Verifies, Ipv4Header, Pseudo, ReceivedPseudo, U16, U32, BigEndian, EthernetIpv4, TcpSegment;
    if TcpFieldsFit(t) && 20 + |data| < 65536 {
      TcpVerifies(t, data);
      var segment := TcpSegment(t, data);
      LongFramesRefused(segment, PROTOCOL_TCP, t.addresses, ident);
      if 20 + |segment| < 65536 {
        FrameParts(segment, PROTOCOL_TCP, t.addresses, ident);
        PseudoReceived(segment, PROTOCOL_TCP, t.addresses, ident);
        FieldsAtOffsets(t, segment, TcpFrame(t, data, ident).value);
        assert TcpFrame(t, data, ident).value[54..] == segment[20..];
      }
    }
  }

  /**
   * Every UDP frame is accepted by a receiver and dissects back to its ports, its length and its payload; its
   * checksum field is never the zero that means "not computed".
   */
  lemma UdpFrameIsFaithful(u: Udp, data: Octets, ident: nat)
    requires u.addresses.Valid()
    ensures UdpFrame(u, data, ident).Ok? <==> u.sourcePort < 65536 && u.destinationPort < 65536 && |data| <= 65507
    ensures UdpFrame(u, data, ident).Err? ==> UdpFrame(u, data, ident) == Err(StructError)
    ensures UdpFrame(u, data, ident).Ok? ==>
              var frame := UdpFrame(u, data, ident).value;
              && |frame| == 42 + |data|
              && Accepted(frame)
              && DissectUdp(frame).checksum != 0
              && DissectUdp(frame) == UdpFields(u.sourcePort, u.destinationPort, 8 + |data|, DissectUdp(frame).checksum,
                                                data)
  {
    hide Verifies, Ipv4Header, Pseudo, ReceivedPseudo, U16, BigEndian, EthernetIpv4, UdpDatagram;
    if u.sourcePort < 65536 && u.destinationPort < 65536 && 8 + |data| < 65536 {
      UdpVerifies(u, data);
      var datagram := UdpDatagram(u, data);
      LongFramesRefused(datagram, PROTOCOL_UDP, u.addresses, ident);
      if 28 + |data| < 65536 {
        var frame := UdpFrame(u, data, ident).value;
        FrameParts(datagram, PROTOCOL_UDP, u.addresses, ident);
        PseudoReceived(datagram, PROTOCOL_UDP, u.addresses, ident);
        assert frame[34..36] == datagram[..2] && frame[36..38] == datagram[2..4] && frame[38..40] == datagram[4..6];
        assert frame[40..42] == datagram[6..8] && frame[42..] == datagram[8..];
      }
    }
  }

  // ----- The other bytes of a frame

  /** The link header and the network header but for its checksum: the same for every frame up to these arguments. */
  ghost predicate NetworkBytes(frame: Octets, protocol: Byte, a: Addresses, ident: nat) {
    && |frame| >= 34
    && frame[..14] == [2, 0, 0, 0, 0, 2, 2, 0, 0, 0, 0, 1, 8, 0]
    && frame[14] == 0x45 && frame[15] == 0 && BigEndian(frame[16..18]) == |frame| - 14
    && BigEndian(frame[18..20]) == ident % 65536 && BigEndian(frame[20..22]) == 0x4000
    && frame[22] == 64 && frame[23] == protocol
    && frame[26..30] == a.source && frame[30..34] == a.destination
  }

  lemma HeaderParts(length: nat, protocol: Byte, a: Addresses, ident: nat)
    requires a.Valid() && 20 + length < 65536
    ensures var h := Ipv4Header(length, protocol, a, ident);
            && h[..10] == [0x45, 0] + U16(20 + length) + U16(ident % 65536) + U16(0x4000) + [64, protocol]
            && h[12..] == a.source + a.destination
  {
    hide U16, ChecksumOf;
    var zeroed := Ipv4Zeroed(length, protocol, a, ident);
    PatchedFields(zeroed, 10, ChecksumOf(zeroed));
    assert zeroed[..10] == [0x45, 0] + U16(20 + length) + U16(ident % 65536) + U16(0x4000) + [64, protocol];
    assert zeroed[12..] == a.source + a.destination;
  }

  lemma NetworkBytesWritten(payload: Octets, protocol: Byte, a: Addresses, ident: nat)
    requires a.Valid() && 20 + |payload| < 65536
    ensures NetworkBytes(EthernetIpv4(payload, protocol, a, ident).value, protocol, a, ident)
  {
    hide U16, BigEndian, Ipv4Header;
    var frame, h := EthernetIpv4(payload, protocol, a, ident).value, Ipv4Header(|payload|, protocol, a, ident);
    HeaderParts(|payload|, protocol, a, ident);
    var front, back := h[..10], h[12..];
    assert front[2..4] == U16(20 + |payload|) && front[4..6] == U16(ident % 65536) && front[6..8] == U16(0x4000);
    assert frame[..14] == ETHERNET && frame[14..34] == h;
    assert frame[14] == front[0] && frame[15] == front[1] && frame[22] == front[8] && frame[23] == front[9];
    assert frame[16..18] == front[2..4] && frame[18..20] == front[4..6] && frame[20..22] == front[6..8];
    assert frame[26..30] == back[..4] && frame[30..34] == back[4..];
  }

  lemma FixedTcpBytes(t: Tcp, data: Octets, segment: Octets)
    requires TcpFieldsFit(t) && t.addresses.Valid() && 20 + |data| < 65536 && segment == TcpSegment(t, data)
    ensures |segment| == 20 + |data|
    ensures segment[8..16] == U32(t.acknowledgement) + [0x50, t.flags] + U16(65535) && segment[18..20] == [0, 0]
  {
    hide U16, U32, ChecksumOf, Pseudo;
    var tcp := TcpZeroed(t) + data;
    PatchedFields(tcp, 16, ChecksumOf(Pseudo(t.addresses, PROTOCOL_TCP, |tcp|) + tcp));
    assert tcp[8..16] == TcpZeroed(t)[8..16] == U32(t.acknowledgement) + [0x50, t.flags] + U16(65535);
    assert segment[8..16] == segment[..16][8..16] && tcp[8..16] == tcp[..16][8..16];
    assert segment[18..20] == segment[18..][..2] && tcp[18..20] == tcp[18..][..2];
  }

  lemma FixedParts(acknowledgement: Octets, flags: Byte, window: Octets, segment: Octets, frame: Octets)
    requires |acknowledgement| == 4 && |window| == 2 && |segment| >= 20 && |frame| >= 34 && frame[34..] == segment
    requires segment[8..16] == acknowledgement + [0x50, flags] + window
    ensures frame[42..46] == acknowledgement && frame[46] == 0x50 && frame[47] == flags && frame[48..50] == window
    ensures frame[52..54] == segment[18..20]
  {
    var fixed := segment[8..16];
    assert Skip(frame, 34) == segment;
    SkipSlice(frame, 34, 8, 12);
    SkipSlice(frame, 34, 12, 13);
    SkipSlice(frame, 34, 13, 14);
    SkipSlice(frame, 34, 14, 16);
    SkipSlice(frame, 34, 18, 20);
    assert fixed[..4] == segment[8..12] && fixed[4] == segment[12] && fixed[5] == segment[13];
    assert fixed[6..8] == segment[14..16];
    assert fixed[..4] == acknowledgement && fixed[6..8] == window;
  }

  /** With the fields a dissector reports and the two checksums, these are all the bytes of a TCP frame. */
  lemma TcpFrameBytes(t: Tcp, data: Octets, ident: nat)
    requires t.addresses.Valid() && TcpFrame(t, data, ident).Ok?
    ensures var frame := TcpFrame(t, data, ident).value;
            && |frame| == 54 + |data| && NetworkBytes(frame, 6, t.addresses, ident)
            && BigEndian(frame[42..46]) == t.acknowledgement && frame[46] == 0x50 && frame[47] == t.flags
            && BigEndian(frame[48..50]) == 65535 && frame[52..54] == [0, 0]
  {
    hide U16, U32, BigEndian, TcpSegment, EthernetIpv4, NetworkBytes;
    TcpFrameIsFaithful(t, data, ident);
    var segment, frame := TcpSegment(t, data), TcpFrame(t, data, ident).value;
    FixedTcpBytes(t, data, segment);
    NetworkBytesWritten(segment, PROTOCOL_TCP, t.addresses, ident);
    FrameParts(segment, PROTOCOL_TCP, t.addresses, ident);
    FixedParts(U32(t.acknowledgement), t.flags, U16(65535), segment, frame);
  }

  /** And with those of UdpFrameIsFaithful, these are all the bytes of a UDP frame. */
  lemma UdpFrameBytes(u: Udp, data: Octets, ident: nat)
    requires u.addresses.Valid() && UdpFrame(u, data, ident).Ok?
    ensures NetworkBytes(UdpFrame(u, data, ident).value, 17, u.addresses, ident)
  {
    hide UdpDatagram, EthernetIpv4, NetworkBytes;
    UdpFrameIsFaithful(u, data, ident);
    UdpVerifies(u, data);
    NetworkBytesWritten(UdpDatagram(u, data), PROTOCOL_UDP, u.addresses, ident);
  }
}
