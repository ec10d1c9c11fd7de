/**
 * From segments to frames and back: what the extractors read off the frames the two writers produce
 * (minarx/pcap.py and archive_policy.py). The dissector reports the fields at their fixed offsets.
 */
module SyntheticCapture {
  import opened Bytes
  import opened Chunks
  import opened TcpSegments
  import opened TcpTrace
  import Frames
  import PolicyArchive

  const MINARX_CLIENT_PORT: nat := 49152

  function MinarxAddresses(d: Direction): (a: Frames.Addresses)
    ensures a.Valid()
  {
    var client: Octets, server: Octets := [192, 0, 2, 1], [192, 0, 2, 2];
    if d == 0 then Frames.Addresses(client, server) else Frames.Addresses(server, client)
  }

  /** The header fields _tcp_segment fills in for one piece. */
  function MinarxFields(seg: Segment, port: nat): Frames.Tcp
    requires seg.sequence >= 0
  {
    Frames.Tcp(
      MinarxAddresses(seg.direction),
      if seg.direction == 0 then MINARX_CLIENT_PORT else port,
      if seg.direction == 0 then port else MINARX_CLIENT_PORT,
      seg.sequence, 1, 0x18)
  }

  function PolicyAddresses(d: Direction): (a: Frames.Addresses)
    ensures a.Valid()
  {
    var client: Octets, server: Octets := [127, 0, 0, 1], [127, 0, 0, 2];
    if d == 0 then Frames.Addresses(client, server) else Frames.Addresses(server, client)
  }

  /** The policy writer moves its client port out of the way of the service port. */
  function PolicyClientPort(port: nat): nat {
    if port != 55000 then 55000 else 55001
  }

  function PolicyFields(p: PolicyArchive.Packet, port: nat): Frames.Tcp
    requires p.sequence >= 0 && p.acknowledgement >= 0
  {
    Frames.Tcp(
      PolicyAddresses(p.direction),
      if p.direction == 0 then PolicyClientPort(port) else port,
      if p.direction == 0 then port else PolicyClientPort(port),
      p.sequence, p.acknowledgement, p.flags)
  }

  /** One row of the dissector's output for a frame of the single flow a synthetic capture holds. */
  function Observed(frame: Octets): Row
    requires |frame| >= 54
  {
    var f := Frames.DissectTcp(frame);
    Row(0, f.sourcePort, f.destinationPort, f.sequence, f.payload)
  }

  /** A piece as write_pcap hands it to the packer; its number may be too large for the sequence field. */
  predicate Piece(seg: Segment) {
    seg.sequence >= 0 && 0 < |seg.data| <= MINARX_PIECE
  }

  ghost predicate AllPieces(segs: seq<Segment>) {
    forall i :: 0 <= i < |segs| ==> Piece(segs[i])
  }

  function MinarxRow(seg: Segment, port: nat): Row {
    Row(0, if seg.direction == 0 then 49152 else port, if seg.direction == 0 then port else 49152, seg.sequence,
        seg.data)
  }

  /** What the dissector is to report for a whole trace. */
  function MinarxRows(segs: seq<Segment>, port: nat): (rows: seq<Row>)
    ensures |rows| == |segs|
  {
    if segs == [] then [] else MinarxRows(segs[..|segs| - 1], port) + [MinarxRow(segs[|segs| - 1], port)]
  }

  lemma TcpErrors(t: Frames.Tcp, data: Octets, ident: nat)
    requires t.addresses.Valid()
    ensures Frames.TcpFrame(t, data, ident).Err? ==> Frames.TcpFrame(t, data, ident).error == StructError
  {
    hide Frames.TcpSegment, Frames.Ipv4Header;
  }

  /** A piece is packed exactly when its number fits; its frame is then accepted, and reads back as its row. */
  lemma MinarxRowIsObserved(seg: Segment, port: nat, ident: nat)
    requires Piece(seg) && 0 < port < 65536
    ensures var r := Frames.TcpFrame(MinarxFields(seg, port), seg.data, ident);
            && (r.Ok? <==> seg.sequence < 0x1_0000_0000) && (r.Err? ==> r.error == StructError)
            && (r.Ok? ==> |r.value| >= 54 && Frames.Accepted(r.value) && Observed(r.value) == MinarxRow(seg, port))
  {
    Frames.TcpFrameIsFaithful(MinarxFields(seg, port), seg.data, ident);
    TcpErrors(MinarxFields(seg, port), seg.data, ident);
    hide Frames.TcpFrame, Frames.Accepted, Frames.DissectTcp;
  }

  /** The frames of write_pcap, identified 1, 2, 3 and so on, up to the first that cannot be packed. */
  function MinarxFrames(segs: seq<Segment>, port: nat): (frames: Result<seq<Octets>>)
    requires forall i :: 0 <= i < |segs| ==> segs[i].sequence >= 0
    ensures frames.Ok? ==> |frames.value| == |segs|
  {
    if segs == [] then Ok([])
    else
      var last := segs[|segs| - 1];
      var before :- MinarxFrames(segs[..|segs| - 1], port);
      var frame :- Frames.TcpFrame(MinarxFields(last, port), last.data, |segs|);
      Ok(before + [frame])
  }

  /**
   * What no dissector field shows: the documentation addresses 192.0.2.1 for the client and 192.0.2.2 for the server,
   * the frame's place in the trace as its identification, acknowledgement 1, and the flags PSH and ACK.
   */
  lemma {:induction false} MinarxFrameBytes(segs: seq<Segment>, port: nat, i: nat)
    requires AllPieces(segs) && 0 < port < 65536 && i < |segs| && MinarxFrames(segs, port).Ok?
    ensures var frame := MinarxFrames(segs, port).value[i];
            var client: Octets, server: Octets := [192, 0, 2, 1], [192, 0, 2, 2];
            var outward := segs[i].direction == 0;
            && Frames.NetworkBytes(frame, 6, Frames.Addresses(if outward then client else server,
                                                              if outward then server else client), i + 1)
            && |frame| == 54 + |segs[i].data|
            && BigEndian(frame[42..46]) == 1 && frame[46] == 0x50 && frame[47] == 0x18
            && BigEndian(frame[48..50]) == 65535 && frame[52..54] == [0, 0]
  {
    hide Frames.TcpFrame, Frames.NetworkBytes, BigEndian;
    var n := |segs| - 1;
    if i < n {
      MinarxFrameBytes(segs[..n], port, i);
    } else {
      Frames.TcpFrameBytes(MinarxFields(segs[n], port), segs[n].data, |segs|);
    }
  }

  ghost predicate AllFrames(frames: seq<Octets>) {
    forall i :: 0 <= i < |frames| ==> |frames[i]| >= 54 && Frames.Accepted(frames[i])
  }

  /** The dissector's rows for a list of frames. */
  function ObservedAll(frames: seq<Octets>): (rows: seq<Row>)
    requires AllFrames(frames)
    ensures |rows| == |frames| && forall i :: 0 <= i < |rows| ==> rows[i] == Observed(frames[i])
  {
    seq(|frames|, i requires 0 <= i < |frames| => Observed(frames[i]))
  }

  /**
   * A trace is packed exactly when all its numbers fit the sequence field. Every frame is then accepted by its own
   * header, and the dissector reports exactly the trace's rows.
   */
  lemma {:induction false} MinarxFramesObserved(segs: seq<Segment>, port: nat)
    requires AllPieces(segs) && 0 < port < 65536
    ensures var r := MinarxFrames(segs, port);
            && (r.Ok? <==> FitsSequenceField(segs)) && (r.Err? ==> r.error == StructError)
            && (r.Ok? ==> AllFrames(r.value) && ObservedAll(r.value) == MinarxRows(segs, port))
  {
    hide Frames.TcpFrame, Frames.Accepted, Observed, MinarxFields, MinarxRow;
    if segs != [] {
      var init, last := segs[..|segs| - 1], segs[|segs| - 1];
      MinarxFramesObserved(init, port);
      MinarxRowIsObserved(last, port, |segs|);
      assert FitsSequenceField(segs) <==> FitsSequenceField(init) && last.sequence < SEQUENCE_LIMIT;
    }
  }

  /** Whatever the chunks, a trace consists of such pieces. */
  lemma TraceIsPieces(chunks: seq<Chunk>)
    ensures AllPieces(Trace(chunks, [1, 1], MINARX_PIECE))
  {
    hide Trace;
    TraceCarriesStreams(chunks, [1, 1], MINARX_PIECE);
  }

  /** Some client payload, in a capture whose server port is the writer's own client port. */
  predicate PortsCollide(segs: seq<Segment>, port: nat) {
    port == 49152 && exists i :: 0 <= i < |segs| && segs[i].direction == 0
  }

  lemma {:induction false} LabelsOfRows(segs: seq<Segment>, port: nat)
    requires forall i :: 0 <= i < |segs| ==> segs[i].data != []
    ensures |Labelled(MinarxRows(segs, port), port)| == |segs|
    ensures forall i :: 0 <= i < |segs| ==>
              Labelled(MinarxRows(segs, port), port)[i]
              == Segment(if port == 49152 then 1 else segs[i].direction, segs[i].sequence, segs[i].data)
    ensures StreamsSeen(MinarxRows(segs, port), port) <= {0}
  {
    if segs != [] {
      var init := segs[..|segs| - 1];
      LabelsOfRows(init, port);
      var rows := MinarxRows(segs, port);
      assert rows[..|rows| - 1] == MinarxRows(init, port);
    }
  }

  lemma AtMostOne(s: set<nat>)
    requires s <= {0}
    ensures |s| <= 1
  {
    if 0 in s {
      assert s == {0};
    } else {
      assert s == {};
    }
  }

  /**
   * Extracting from the written frames sees exactly the trace that was written, unless a client segment was
   * written with the server on port 49152: then the writer's fixed client port makes it look like the server's.
   */
  lemma MinarxLabelsSurviveExactly(segs: seq<Segment>, port: nat)
    requires forall i :: 0 <= i < |segs| ==> segs[i].data != []
    ensures Labelled(MinarxRows(segs, port), port) == segs <==> !PortsCollide(segs, port)
    ensures |StreamsSeen(MinarxRows(segs, port), port)| <= 1
  {
    LabelsOfRows(segs, port);
    var labelled := Labelled(MinarxRows(segs, port), port);
    if PortsCollide(segs, port) {
      var i :| 0 <= i < |segs| && segs[i].direction == 0;
      assert labelled[i] != segs[i];
    } else {
      forall i | 0 <= i < |segs|
        ensures labelled[i] == segs[i]
      {
        assert segs[i].direction == 0 || segs[i].direction == 1;
      }
    }
    AtMostOne(StreamsSeen(MinarxRows(segs, port), port));
  }

  /** A concrete failing input: one client byte with the server on port 49152 comes back as the server's. */
  lemma CollidingPortMislabels()
    ensures Labelled(MinarxRows([Segment(0, 1, [7])], 49152), 49152) == [Segment(1, 1, [7])]
  {
    var segs := [Segment(0, 1, [7])];
    LabelsOfRows(segs, 49152);
    assert Labelled(MinarxRows(segs, 49152), 49152)[0] == Segment(1, 1, [7]);
  }

  /** The policy writer has no such port: every packet of its trace is read back with its own direction. */
  lemma PolicyFrameObserved(p: PolicyArchive.Packet, port: nat, ident: nat)
    requires 0 <= p.sequence < 0x1_0000_0000 && 0 <= p.acknowledgement < 0x1_0000_0000
    requires |p.payload| <= 1200 && 0 < port < 65536
    ensures var r := Frames.TcpFrame(PolicyFields(p, port), p.payload, ident);
            && r.Ok? && |r.value| >= 54
            && var row := Observed(r.value);
            && PolicyArchive.PolicyDirectionOf(row, port) == Some(p.direction)
            && DirectionOf(row, port) == Some(p.direction)
            && row.sequence == p.sequence && row.payload == p.payload
  {
    hide Frames.TcpFrame;
    Frames.TcpFrameIsFaithful(PolicyFields(p, port), p.payload, ident);
  }

  /**
   * The rest of such a frame: 127.0.0.1 is the client, on port 55000 or the next when that is the server's, 127.0.0.2
   * the server; acknowledgement, flags and identification are the packet's own.
   */
  lemma PolicyFrameBytes(p: PolicyArchive.Packet, port: nat)
    requires 0 <= p.sequence < 0x1_0000_0000 && 0 <= p.acknowledgement < 0x1_0000_0000
    requires |p.payload| <= 1200 && 0 < port < 65536
    ensures var r := Frames.TcpFrame(PolicyFields(p, port), p.payload, p.identity);
            var client: Octets, server: Octets := [127, 0, 0, 1], [127, 0, 0, 2];
            var clientPort := if port == 55000 then 55001 else 55000;
            var outward := p.direction == 0;
            && r.Ok? && |r.value| == 54 + |p.payload|
            && Frames.NetworkBytes(r.value, 6, Frames.Addresses(if outward then client else server,
                                                                if outward then server else client), p.identity)
            && BigEndian(r.value[34..36]) == (if outward then clientPort else port)
            && BigEndian(r.value[36..38]) == (if outward then port else clientPort)
            && BigEndian(r.value[42..46]) == p.acknowledgement && r.value[46] == 0x50 && r.value[47] == p.flags
            && BigEndian(r.value[48..50]) == 65535 && r.value[52..54] == [0, 0]
  {
    hide Frames.TcpFrame, Frames.NetworkBytes, BigEndian;
    Frames.TcpFrameIsFaithful(PolicyFields(p, port), p.payload, p.identity);
    Frames.TcpFrameBytes(PolicyFields(p, port), p.payload, p.identity);
  }
}
