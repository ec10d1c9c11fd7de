/**
 * The chacha20-poly1305@openssh.com packet layer (decryptor/core/ssh_crypto.py). The stream cipher and the
 * authenticator are parameters.
 */
module SshCipher {
  import opened Bytes
  import opened SshWire

  /**
   * xor(key, sequence number, block counter, data) applies the key stream; tag(key, data) authenticates.
   */
  datatype Cipher = Cipher(xor: (Octets, nat, nat, Octets) -> Octets, tag: (Octets, Octets) -> Octets)

  /** Applying the key stream keeps the length and undoes itself; tags are 16 bytes. */
  ghost predicate Correct(c: Cipher) {
    && (forall k, s, n, d :: |c.xor(k, s, n, d)| == |d|)
    && (forall k, s, n, d :: c.xor(k, s, n, c.xor(k, s, n, d)) == d)
    && (forall k, d :: |c.tag(k, d)| == 16)
  }

  const SEQUENCE_MODULUS: nat := 0x1_0000_0000

  // ----- One packet

  datatype Opened = Opened(payload: Octets, packetLength: nat, consumed: nat, sequence: nat)

  function MainKey(key: Octets): Octets
    requires |key| >= 64
  {
    key[..32]
  }

  /** The one-time authenticator key is the key stream's first 32 bytes. */
  function Tag(c: Cipher, key: Octets, sequence: nat, data: Octets): Octets
    requires |key| >= 64
  {
    c.tag(c.xor(MainKey(key), sequence, 0, Zeros(32)), data)
  }

  function HeaderKey(key: Octets): Octets
    requires |key| >= 64
  {
    key[32..64]
  }

  /** decrypt_chachapoly_packet */
  function OpenPacket(c: Cipher, key: Octets, sequence: nat, data: Octets): (r: Result<Opened>)
    ensures r.Ok? ==> 26 <= r.value.consumed <= |data| && r.value.sequence == sequence
  {
    if |key| < 64 then Err(ValueError)
    else if |data| < 4 + 16 then Err(ValueError)
    else
      var packetLength := BigEndian(c.xor(HeaderKey(key), sequence, 0, data[..4]));
      var total := 4 + packetLength + 16;
      if packetLength < 6 || total > |data| then Err(ValueError)
      else if Tag(c, key, sequence, data[..4 + packetLength]) != data[4 + packetLength..total] then Err(ValueError)
      else
        var body := c.xor(MainKey(key), sequence, 1, data[4..4 + packetLength]);
        if body == [] then Err(ValueError)   // not reached by a cipher that keeps lengths
        else
          var padding := body[0];
          if padding < 4 || padding + 1 >= |body| then Err(ValueError)
          else Ok(Opened(body[1..|body| - padding], packetLength, total, sequence))
  }

  /** What the sender puts on the wire: the encrypted length, the encrypted body, the tag over both. */
  function Sealed(c: Cipher, key: Octets, sequence: nat, p: Sent): Octets
    requires |key| >= 64 && Sendable(p)
  {
    var hidden := c.xor(HeaderKey(key), sequence, 0, U32(|Body(p)|)) + c.xor(MainKey(key), sequence, 1, Body(p));
    hidden + Tag(c, key, sequence, hidden)
  }

  /**
   * The bytes of a packet and the part each half of the key has in them: the second half encrypts the length field,
   * the first half the body and the 32 zero bytes that give the one-time authenticator key.
   */
  lemma SealedBytes(c: Cipher, key: Octets, sequence: nat, p: Sent)
    requires |key| >= 64 && Sendable(p)
    ensures var body := [|p.padding|] + p.payload + p.padding;
            var hidden := c.xor(key[32..64], sequence, 0, U32(|body|)) + c.xor(key[..32], sequence, 1, body);
            Sealed(c, key, sequence, p) == hidden + c.tag(c.xor(key[..32], sequence, 0, Zeros(32)), hidden)
  {
  }

  lemma SealedSize(c: Cipher, key: Octets, sequence: nat, p: Sent)
    requires Correct(c) && |key| >= 64 && Sendable(p)
    ensures |Sealed(c, key, sequence, p)| == 4 + |Body(p)| + 16
  {
  }

  /** A sealed packet opens to what was sealed, whatever follows it. */
  lemma SealedOpens(c: Cipher, key: Octets, sequence: nat, p: Sent, rest: Octets)
    requires Correct(c) && Sendable(p) && |key| >= 64
    ensures OpenPacket(c, key, sequence, Sealed(c, key, sequence, p) + rest)
            == Ok(Opened(p.payload, |Body(p)|, |Sealed(c, key, sequence, p)|, sequence))
  {
    hide Body, BigEndian, MainKey, HeaderKey;
    var n := |Body(p)|;
    var head := c.xor(HeaderKey(key), sequence, 0, U32(n));
    var body := c.xor(MainKey(key), sequence, 1, Body(p));
    var tag := Tag(c, key, sequence, head + body);
    var data := Sealed(c, key, sequence, p) + rest;
    SealedSize(c, key, sequence, p);
    assert data == head + body + tag + rest;
    assert data[..4] == head && data[4..4 + n] == body;
    assert data[..4 + n] == head + body;
    assert data[4 + n..4 + n + 16] == tag;
    assert Body(p)[0] == |p.padding|;
  }

  /**
   * The packet of chacha20-poly1305@openssh.com, without the names above: the second half of the key encrypts the four
   * bytes of length, the first half the body under block counter 1 and, under counter 0, the 32 zero bytes that give
   * the authenticator's key. Such a packet opens to its payload.
   */
  lemma PacketAsSealedOpens(c: Cipher, key: Octets, sequence: nat, payload: Octets, padding: Octets, rest: Octets,
      body: Octets, hidden: Octets)
    requires Correct(c) && |key| >= 64 && payload != [] && 4 <= |padding| < 256
    requires body == [|padding|] + payload + padding && |body| < 0x1_0000_0000
    requires hidden == c.xor(key[32..64], sequence, 0, U32(|body|)) + c.xor(key[..32], sequence, 1, body)
    ensures OpenPacket(c, key, sequence, hidden + c.tag(c.xor(key[..32], sequence, 0, Zeros(32)), hidden) + rest)
            == Ok(Opened(payload, |body|, |body| + 20, sequence))
  {
    hide OpenPacket, Sealed, Correct;
    var p := Sent(payload, padding);
    SealedBytes(c, key, sequence, p);
    SealedSize(c, key, sequence, p);
    SealedOpens(c, key, sequence, p, rest);
  }

  /** Only sealed packets open: the bytes consumed are exactly a sealing of the payload. */
  lemma OpenedWasSealed(c: Cipher, key: Octets, sequence: nat, data: Octets) returns (p: Sent)
    requires Correct(c) && OpenPacket(c, key, sequence, data).Ok?
    ensures var o := OpenPacket(c, key, sequence, data).value;
            |key| >= 64 && Sendable(p) && p.payload == o.payload && data[..o.consumed] == Sealed(c, key, sequence, p)
  {
    hide BigEndian, MainKey, HeaderKey;
    var o := OpenPacket(c, key, sequence, data).value;
    var n := o.packetLength;
    var head := c.xor(HeaderKey(key), sequence, 0, data[..4]);
    var body := c.xor(MainKey(key), sequence, 1, data[4..4 + n]);
    BigEndian4(head);
    p := Sent(o.payload, body[n - body[0]..]);
    assert body == [body[0]] + body[1..n - body[0]] + body[n - body[0]..];
    assert Body(p) == body;
    assert U32(n) == head;
    assert data[..4] + data[4..4 + n] == data[..4 + n];
    assert data[..4 + n] + data[4 + n..4 + n + 16] == data[..4 + n + 16];
  }

  // ----- All packets of a stream, and the packets of one epoch

  /** The sequence number of the k-th packet after a first one. */
  function NextSequence(sequence: nat): nat {
    (sequence + 1) % SEQUENCE_MODULUS
  }

  datatype Epoch = Epoch(packets: seq<Opened>, remaining: Octets, nextSequence: nat, newkeys: bool)

  predicate IsNewkeys(payload: Octets) {
    payload != [] && payload[0] == NEWKEYS
  }

  function Preceded(packet: Opened, later: Result<Epoch>): Result<Epoch> {
    match later
    case Err(e) => Err(e)
    case Ok(epoch) => Ok(Epoch([packet] + epoch.packets, epoch.remaining, epoch.nextSequence, epoch.newkeys))
  }

  /** decrypt_chachapoly_epoch */
  function OpenEpoch(c: Cipher, key: Octets, sequence: nat, data: Octets): (r: Result<Epoch>)
    ensures r.Ok? ==> if r.value.newkeys then |r.value.remaining| < |data| else r.value.remaining == []
    decreases |data|
  {
    if data == [] then Ok(Epoch([], [], sequence, false))
    else
      var packet :- OpenPacket(c, key, sequence, data);
      var rest := Skip(data, packet.consumed);
      if IsNewkeys(packet.payload) then Ok(Epoch([packet], rest, NextSequence(sequence), true))
      else Preceded(packet, OpenEpoch(c, key, NextSequence(sequence), rest))
  }

  /** decrypt_chachapoly_stream */
  function OpenStream(c: Cipher, key: Octets, sequence: nat, data: Octets): Result<seq<Opened>>
    decreases |data|
  {
    if data == [] then Ok([])
    else
      var packet :- OpenPacket(c, key, sequence, data);
      var later :- OpenStream(c, key, NextSequence(sequence), Skip(data, packet.consumed));
      Ok([packet] + later)
  }

  lemma EpochStep(c: Cipher, key: Octets, sequence: nat, data: Octets)
    ensures OpenEpoch(c, key, sequence, data) ==
            if data == [] then Ok(Epoch([], [], sequence, false))
            else
              var packet := OpenPacket(c, key, sequence, data);
              if packet.Err? then Err(packet.error)
              else
                var rest := Skip(data, packet.value.consumed);
                if IsNewkeys(packet.value.payload) then Ok(Epoch([packet.value], rest, NextSequence(sequence), true))
                else Preceded(packet.value, OpenEpoch(c, key, NextSequence(sequence), rest))
  {
    hide OpenPacket, NextSequence, IsNewkeys;
  }

  lemma StreamStep(c: Cipher, key: Octets, sequence: nat, data: Octets)
    ensures OpenStream(c, key, sequence, data) ==
            if data == [] then Ok([])
            else
              var packet := OpenPacket(c, key, sequence, data);
              if packet.Err? then Err(packet.error)
              else Add([packet.value], OpenStream(c, key, NextSequence(sequence), Skip(data, packet.value.consumed)))
  {
    hide OpenPacket, NextSequence;
  }

  function After(packets: seq<Opened>, later: Result<Epoch>): Result<Epoch> {
    match later
    case Err(e) => Err(e)
    case Ok(epoch) => Ok(Epoch(packets + epoch.packets, epoch.remaining, epoch.nextSequence, epoch.newkeys))
  }

  lemma AfterStep(packets: seq<Opened>, packet: Opened, later: Result<Epoch>)
    ensures After(packets, Preceded(packet, later)) == After(packets + [packet], later)
    ensures After([], later) == later
  {
    if later.Ok? {
      assert packets + ([packet] + later.value.packets) == packets + [packet] + later.value.packets;
      assert [] + later.value.packets == later.value.packets;
    }
  }

  lemma AfterResults(packets: seq<Opened>, packet: Opened, rest: Octets, sequence: nat, e: Error)
    ensures After(packets, Err(e)) == Err(e)
    ensures After(packets, Ok(Epoch([packet], rest, sequence, true)))
        == Ok(Epoch(packets + [packet], rest, sequence, true))
    ensures After(packets, Ok(Epoch([], rest, sequence, false))) == Ok(Epoch(packets, rest, sequence, false))
  {
    assert packets + [] == packets;
  }

  method DecryptEpoch(c: Cipher, data: Octets, key: Octets, firstSequence: nat) returns (r: Result<Epoch>)
    ensures r == OpenEpoch(c, key, firstSequence, data)
  {
    hide OpenEpoch, OpenPacket, Preceded, After, NextSequence, IsNewkeys, Skip;
    var packets: seq<Opened> := [];
    var offset := 0;
    var sequence := firstSequence;
    ghost var whole := OpenEpoch(c, key, firstSequence, data);
    SkipEnds(data);
    AfterStep([], Opened([], 0, 0, 0), whole);
    while offset < |data|
      invariant offset <= |data|
      invariant whole == After(packets, OpenEpoch(c, key, sequence, Skip(data, offset)))
      decreases |data| - offset
    {
      ghost var left := Skip(data, offset);
      EpochStep(c, key, sequence, left);
      var opening := OpenPacket(c, key, sequence, Skip(data, offset));
      if opening.Err? {
        AfterResults(packets, Opened([], 0, 0, 0), [], 0, opening.error);
        return Err(opening.error);
      }
      var packet := opening.value;
      SkipTwice(data, offset, packet.consumed);
      AfterStep(packets, packet, OpenEpoch(c, key, NextSequence(sequence), Skip(data, offset + packet.consumed)));
      AfterResults(packets, packet, Skip(data, offset + packet.consumed), NextSequence(sequence), ValueError);
      packets := packets + [packet];
      offset := offset + packet.consumed;
      sequence := NextSequence(sequence);
      if IsNewkeys(packet.payload) {
        return Ok(Epoch(packets, Skip(data, offset), sequence, true));
      }
    }
    EpochStep(c, key, sequence, Skip(data, offset));
    SkipEnds(data);
    AfterResults(packets, Opened([], 0, 0, 0), [], sequence, ValueError);
    return Ok(Epoch(packets, [], sequence, false));
  }

  method DecryptStream(c: Cipher, data: Octets, key: Octets, firstSequence: nat) returns (r: Result<seq<Opened>>)
    ensures r == OpenStream(c, key, firstSequence, data)
  {
    hide OpenStream, OpenPacket, Add, NextSequence, Skip;
    var packets: seq<Opened> := [];
    var offset := 0;
    var sequence := firstSequence;
    ghost var whole := OpenStream(c, key, firstSequence, data);
    SkipEnds(data);
    AddTwice([], [], whole);
    while offset < |data|
      invariant offset <= |data|
      invariant whole == Add(packets, OpenStream(c, key, sequence, Skip(data, offset)))
      decreases |data| - offset
    {
      StreamStep(c, key, sequence, Skip(data, offset));
      var opening := OpenPacket(c, key, sequence, Skip(data, offset));
      if opening.Err? {
        AddNone(packets);
        return Err(opening.error);
      }
      var packet := opening.value;
      SkipTwice(data, offset, packet.consumed);
      AddTwice(packets, [packet], OpenStream(c, key, NextSequence(sequence), Skip(data, offset + packet.consumed)));
      packets := packets + [packet];
      offset := offset + packet.consumed;
      sequence := NextSequence(sequence);
    }
    StreamStep(c, key, sequence, Skip(data, offset));
    SkipEnds(data);
    AddNone(packets);
    return Ok(packets);
  }

  lemma PacketRefused(c: Cipher, key: Octets, sequence: nat, data: Octets)
    ensures OpenPacket(c, key, sequence, data).Err? ==> OpenPacket(c, key, sequence, data) == Err(ValueError)
  {
    hide BigEndian, MainKey, HeaderKey, Tag;
  }

  /** Every refusal of either loop is a value error. */
  lemma {:induction false} EpochRefused(c: Cipher, key: Octets, sequence: nat, data: Octets)
    ensures OpenPacket(c, key, sequence, data).Err? ==> OpenPacket(c, key, sequence, data) == Err(ValueError)
    ensures OpenEpoch(c, key, sequence, data).Err? ==> OpenEpoch(c, key, sequence, data) == Err(ValueError)
    ensures OpenStream(c, key, sequence, data).Err? ==> OpenStream(c, key, sequence, data) == Err(ValueError)
    decreases |data|
  {
    hide OpenPacket, OpenEpoch, OpenStream, NextSequence;
    PacketRefused(c, key, sequence, data);
    EpochStep(c, key, sequence, data);
    StreamStep(c, key, sequence, data);
    var packet := OpenPacket(c, key, sequence, data);
    if data != [] && packet.Ok? {
      EpochRefused(c, key, NextSequence(sequence), Skip(data, packet.value.consumed));
    }
  }

  // ----- What a sender sealed is what an epoch opens

  /** The sender's packets in order, each under the next sequence number. */
  function SealedStream(c: Cipher, key: Octets, sequence: nat, sent: seq<Sent>): Octets
    requires |key| >= 64 && AllSendable(sent)
    decreases |sent|
  {
    if sent == [] then []
    else Sealed(c, key, sequence, sent[0]) + SealedStream(c, key, NextSequence(sequence), sent[1..])
  }

  function SequenceAfter(sequence: nat, n: nat): nat {
    if n == 0 then sequence else NextSequence(SequenceAfter(sequence, n - 1))
  }

  lemma SequenceStart(sequence: nat)
    ensures SequenceAfter(sequence, 0) == sequence
  {
  }

  lemma SealedCons(c: Cipher, key: Octets, sequence: nat, p: Sent, more: seq<Sent>)
    requires |key| >= 64 && Sendable(p) && AllSendable(more)
    ensures AllSendable([p] + more) && Payloads([p] + more) == [p.payload] + Payloads(more)
    ensures SealedStream(c, key, sequence, [p] + more) ==
            Sealed(c, key, sequence, p) + SealedStream(c, key, NextSequence(sequence), more)
  {
    hide Sealed, NextSequence;
    assert ([p] + more)[1..] == more;
  }

  lemma SealedNothing(c: Cipher, key: Octets, sequence: nat)
    requires |key| >= 64
    ensures SealedStream(c, key, sequence, []) == []
  {
  }

  lemma OneMore(n: nat)
    ensures NextSequence(n % SEQUENCE_MODULUS) == (n + 1) % SEQUENCE_MODULUS
  {
  }

  /** Sequence numbers count packets modulo 2^32. */
  lemma {:induction false} SequenceAfterIs(sequence: nat, n: nat)
    requires sequence < 0x1_0000_0000
    ensures SequenceAfter(sequence, n) == (sequence + n) % 0x1_0000_0000
  {
    hide NextSequence;
    if n > 0 {
      SequenceAfterIs(sequence, n - 1);
      OneMore(sequence + n - 1);
    }
  }

  lemma {:induction false} SequenceShift(sequence: nat, n: nat)
    ensures SequenceAfter(NextSequence(sequence), n) == SequenceAfter(sequence, n + 1)
  {
    hide NextSequence;
    if n > 0 {
      SequenceShift(sequence, n - 1);
    }
  }

  function PayloadsOf(packets: seq<Opened>): (ps: seq<Octets>)
    ensures |ps| == |packets| && forall i :: 0 <= i < |ps| ==> ps[i] == packets[i].payload
  {
    seq(|packets|, i requires 0 <= i < |packets| => packets[i].payload)
  }

  /** NEWKEYS, where it ends the list, occurs nowhere else in it. */
  predicate NewkeysOnlyLast(payloads: seq<Octets>) {
    forall i :: 0 <= i < |payloads| - 1 ==> payloads[i] == [] || payloads[i][0] != 21
  }

  predicate EndsWithNewkeys(payloads: seq<Octets>) {
    && payloads != [] && payloads[|payloads| - 1] != []
    && payloads[|payloads| - 1][0] == 21
  }

  /** What one sealed packet opens to. */
  function OpenedAs(c: Cipher, key: Octets, sequence: nat, p: Sent): Opened
    requires |key| >= 64 && Sendable(p)
  {
    Opened(p.payload, |Body(p)|, |Sealed(c, key, sequence, p)|, sequence)
  }

  lemma FirstSkipped(front: Octets, tail: Octets)
    ensures Skip(front + tail, |front|) == tail
    ensures front != [] ==> front + tail != []
  {
  }

  /** A sealed packet at the front of an epoch. */
  lemma EpochOpensFirst(c: Cipher, key: Octets, sequence: nat, p: Sent, tail: Octets)
    requires Correct(c) && |key| >= 64 && Sendable(p)
    ensures OpenEpoch(c, key, sequence, Sealed(c, key, sequence, p) + tail) ==
            if IsNewkeys(p.payload) then
              Ok(Epoch([OpenedAs(c, key, sequence, p)], tail, NextSequence(sequence), true))
            else
              Preceded(OpenedAs(c, key, sequence, p), OpenEpoch(c, key, NextSequence(sequence), tail))
  {
    hide OpenEpoch, OpenPacket, Sealed, NextSequence, IsNewkeys, Preceded, Body, Sendable;
    SealedOpens(c, key, sequence, p, tail);
    SealedSize(c, key, sequence, p);
    FirstSkipped(Sealed(c, key, sequence, p), tail);
    EpochStep(c, key, sequence, Sealed(c, key, sequence, p) + tail);
  }

  /** The epoch r of what was sent, with what follows it. */
  ghost predicate OpensTo(r: Result<Epoch>, sequence: nat, sent: seq<Sent>, rest: Octets) {
    && r.Ok?
    && PayloadsOf(r.value.packets) == Payloads(sent)
    && r.value.remaining == rest
    && r.value.newkeys == EndsWithNewkeys(Payloads(sent))
    && r.value.nextSequence == SequenceAfter(sequence, |sent|)
  }

  lemma OpensToNothing(c: Cipher, key: Octets, sequence: nat)
    ensures OpensTo(OpenEpoch(c, key, sequence, []), sequence, [], [])
  {
    hide OpenPacket;
  }

  lemma OpensToNewkeys(c: Cipher, key: Octets, sequence: nat, p: Sent, tail: Octets)
    requires |key| >= 64 && Sendable(p) && IsNewkeys(p.payload)
    ensures OpensTo(Ok(Epoch([OpenedAs(c, key, sequence, p)], tail, NextSequence(sequence), true)), sequence, [p], tail)
  {
    hide Sealed, NextSequence, Sendable, SequenceAfter;
    SequenceShift(sequence, 0);
    SequenceStart(NextSequence(sequence));
    assert Payloads([p]) == [p.payload];
    assert PayloadsOf([OpenedAs(c, key, sequence, p)]) == [p.payload];
  }

  lemma PrecededFields(packet: Opened, later: Result<Epoch>)
    requires later.Ok?
    ensures var r := Preceded(packet, later);
            && r.Ok? && r.value.remaining == later.value.remaining && r.value.newkeys == later.value.newkeys
            && r.value.nextSequence == later.value.nextSequence
            && r.value.packets == [packet] + later.value.packets
            && PayloadsOf(r.value.packets) == [packet.payload] + PayloadsOf(later.value.packets)
  {
  }

  lemma OpensToMore(packet: Opened, later: Result<Epoch>, sequence: nat, p: Sent, more: seq<Sent>, rest: Octets)
    requires packet.payload == p.payload && !IsNewkeys(p.payload)
    requires OpensTo(later, NextSequence(sequence), more, rest)
    ensures OpensTo(Preceded(packet, later), sequence, [p] + more, rest)
  {
    hide NextSequence, SequenceAfter, Preceded;
    SequenceShift(sequence, |more|);
    PrecededFields(packet, later);
    assert Payloads([p] + more) == [p.payload] + Payloads(more);
  }

  lemma NoPayloads(sent: seq<Sent>)
    requires sent == []
    ensures Payloads(sent) == [] && !EndsWithNewkeys(Payloads(sent))
  {
  }

  lemma PayloadsSplit(sent: seq<Sent>)
    requires sent != []
    ensures Payloads(sent) == [sent[0].payload] + Payloads(sent[1..])
    ensures NewkeysOnlyLast(Payloads(sent)) ==> NewkeysOnlyLast(Payloads(sent[1..]))
    ensures |sent| > 1 ==> EndsWithNewkeys(Payloads(sent)) == EndsWithNewkeys(Payloads(sent[1..]))
  {
    var ps, qs := Payloads(sent), Payloads(sent[1..]);
    assert ps == [sent[0].payload] + qs;
    forall i | 0 <= i < |qs| - 1 && NewkeysOnlyLast(ps)
      ensures !IsNewkeys(qs[i])
    {
      assert qs[i] == ps[i + 1];
    }
  }

  lemma NewkeysIsAlone(sent: seq<Sent>)
    requires sent != [] && IsNewkeys(sent[0].payload) && NewkeysOnlyLast(Payloads(sent))
    ensures sent == [sent[0]] && sent[1..] == []
  {
    assert Payloads(sent)[0] == sent[0].payload;
  }

  lemma LaterNewkeys(sent: seq<Sent>)
    requires sent != [] && !IsNewkeys(sent[0].payload)
    ensures EndsWithNewkeys(Payloads(sent)) == EndsWithNewkeys(Payloads(sent[1..]))
  {
    assert Payloads(sent)[0] == sent[0].payload;
    if |sent| > 1 {
      PayloadsSplit(sent);
    }
  }

  /**
   * The packets of one epoch in one direction: they open to what was sent, and the epoch ends after NEWKEYS, or
   * at the end of the direction where there is none.
   */
  lemma {:induction false} EpochRoundTrip(c: Cipher, key: Octets, sequence: nat, sent: seq<Sent>, rest: Octets)
    requires Correct(c) && |key| >= 64 && AllSendable(sent) && NewkeysOnlyLast(Payloads(sent))
    requires EndsWithNewkeys(Payloads(sent)) || rest == []
    ensures OpensTo(OpenEpoch(c, key, sequence, SealedStream(c, key, sequence, sent) + rest), sequence, sent, rest)
    decreases |sent|
  {
    hide OpenEpoch, Sealed, NextSequence, IsNewkeys, Correct, Preceded, SealedStream, SequenceAfter, Payloads, OpensTo,
      Sendable;
    if sent == [] {
      SealedNothing(c, key, sequence);
      NoPayloads(sent);
      LeftAndRightUnit(rest);
      OpensToNothing(c, key, sequence);
    } else {
      var p, more := sent[0], sent[1..];
      var next := NextSequence(sequence);
      assert sent == [p] + more;
      SealedCons(c, key, sequence, p, more);
      PayloadsSplit(sent);
      Regroup(Sealed(c, key, sequence, p), SealedStream(c, key, next, more), rest);
      EpochOpensFirst(c, key, sequence, p, SealedStream(c, key, next, more) + rest);
      if IsNewkeys(p.payload) {
        NewkeysIsAlone(sent);
        SealedNothing(c, key, next);
        LeftAndRightUnit(rest);
        OpensToNewkeys(c, key, sequence, p, rest);
      } else {
        LaterNewkeys(sent);
        EpochRoundTrip(c, key, next, more, rest);
        OpensToMore(OpenedAs(c, key, sequence, p), OpenEpoch(c, key, next, SealedStream(c, key, next, more) + rest),
                    sequence, p, more, rest);
      }
    }
  }

  // ----- What an epoch opened is what some sender sealed

  /** The k-th packet carries the k-th sequence number after the first. */
  ghost predicate Numbered(packets: seq<Opened>, sequence: nat) {
    forall i :: 0 <= i < |packets| ==> packets[i].sequence == SequenceAfter(sequence, i)
  }

  lemma NumberedFirst(packet: Opened, more: seq<Opened>, sequence: nat)
    requires packet.sequence == sequence && Numbered(more, NextSequence(sequence))
    ensures Numbered([packet] + more, sequence)
  {
    hide NextSequence, SequenceAfter;
    var packets := [packet] + more;
    SequenceShift(sequence, 0);
    SequenceStart(sequence);
    forall i | 0 <= i < |packets|
      ensures packets[i].sequence == SequenceAfter(sequence, i)
    {
      if i > 0 {
        SequenceShift(sequence, i - 1);
        assert packets[i] == more[i - 1];
      }
    }
  }

  /** sent, in the order of the packets, is a list a sender could have sealed into the first bytes of data. */
  ghost predicate Accounts(c: Cipher, key: Octets, sequence: nat, data: Octets, epoch: Epoch, sent: seq<Sent>) {
    && AllSendable(sent)
    && Payloads(sent) == PayloadsOf(epoch.packets)
    && (sent != [] ==> |key| >= 64 && data == SealedStream(c, key, sequence, sent) + epoch.remaining)
    && (sent == [] ==> data == epoch.remaining)
  }

  /** How an epoch ends: after its only NEWKEYS, or without one at the end of the data. */
  ghost predicate Ends(epoch: Epoch) {
    && NewkeysOnlyLast(PayloadsOf(epoch.packets))
    && epoch.newkeys == EndsWithNewkeys(PayloadsOf(epoch.packets))
    && (!epoch.newkeys ==> epoch.remaining == [])
  }

  lemma NothingSealed(c: Cipher, key: Octets, sequence: nat, data: Octets)
    ensures Accounts(c, key, sequence, data, Epoch([], data, sequence, false), [])
    ensures Accounts(c, key, sequence, data, Epoch([], data, sequence, true), [])
    ensures Numbered([], sequence) && SequenceAfter(sequence, 0) == sequence
    ensures Ends(Epoch([], [], sequence, false))
  {
    hide SealedStream;
  }

  lemma EndsLater(packet: Opened, later: Result<Epoch>)
    requires later.Ok? && Ends(later.value) && !IsNewkeys(packet.payload)
    ensures Preceded(packet, later).Ok? && Ends(Preceded(packet, later).value)
  {
    var more := later.value.packets;
    var packets := [packet] + more;
    assert PayloadsOf(packets) == [packet.payload] + PayloadsOf(more);
    forall i | 0 <= i < |packets| - 1
      ensures !IsNewkeys(PayloadsOf(packets)[i])
    {
      if i > 0 {
        assert PayloadsOf(packets)[i] == PayloadsOf(more)[i - 1];
      }
    }
  }

  lemma AccountsFirst(c: Cipher, key: Octets, sequence: nat, data: Octets, packet: Opened, p: Sent, later: Epoch,
      more: seq<Sent>)
    requires |key| >= 64 && Sendable(p) && p.payload == packet.payload && packet.consumed <= |data|
    requires data[..packet.consumed] == Sealed(c, key, sequence, p)
    requires Accounts(c, key, NextSequence(sequence), Skip(data, packet.consumed), later, more)
    ensures Accounts(c, key, sequence, data,
                     Epoch([packet] + later.packets, later.remaining, later.nextSequence, later.newkeys), [p] + more)
  {
    hide Sealed, NextSequence, SealedStream;
    var rest := Skip(data, packet.consumed);
    SealedCons(c, key, sequence, p, more);
    assert PayloadsOf([packet] + later.packets) == [packet.payload] + PayloadsOf(later.packets);
    assert data == data[..packet.consumed] + rest;
    if more == [] {
      SealedNothing(c, key, NextSequence(sequence));
      LeftAndRightUnit(Sealed(c, key, sequence, p));
    } else {
      Regroup(Sealed(c, key, sequence, p), SealedStream(c, key, NextSequence(sequence), more), later.remaining);
    }
  }

  /**
   * Every byte an epoch consumes belongs to exactly one authenticated packet, and the packets are numbered in
   * order from the first sequence number.
   */
  lemma {:induction false} EpochWasSealed(c: Cipher, key: Octets, sequence: nat, data: Octets) returns (sent: seq<Sent>)
    requires Correct(c) && OpenEpoch(c, key, sequence, data).Ok?
    ensures var epoch := OpenEpoch(c, key, sequence, data).value;
            && Accounts(c, key, sequence, data, epoch, sent)
            && Ends(epoch)
            && Numbered(epoch.packets, sequence)
            && epoch.nextSequence == SequenceAfter(sequence, |epoch.packets|)
    decreases |data|
  {
    hide OpenEpoch, OpenPacket, NextSequence, Correct, Numbered, Accounts, SequenceAfter;
    EpochStep(c, key, sequence, data);
    if data == [] {
      sent := [];
      NothingSealed(c, key, sequence, data);
    } else {
      var packet := OpenPacket(c, key, sequence, data).value;
      var p := OpenedWasSealed(c, key, sequence, data);
      var rest := Skip(data, packet.consumed);
      var next := NextSequence(sequence);
      var later: Result<Epoch>;
      var more: seq<Sent>;
      if IsNewkeys(packet.payload) {
        later := Ok(Epoch([], rest, next, true));
        more := [];
        NothingSealed(c, key, next, rest);
        assert PayloadsOf([packet]) == [packet.payload];
        assert [packet] + later.value.packets == [packet];
      } else {
        later := OpenEpoch(c, key, next, rest);
        more := EpochWasSealed(c, key, next, rest);
        EndsLater(packet, later);
      }
      sent := [p] + more;
      AccountsFirst(c, key, sequence, data, packet, p, later.value, more);
      NumberedFirst(packet, later.value.packets, sequence);
      SequenceShift(sequence, |later.value.packets|);
      PrecededFields(packet, later);
    }
  }

  // ----- The two decryption loops

  lemma JoinedFields(packet: Opened, later: Result<seq<Opened>>)
    requires later.Ok?
    ensures Add([packet], later) == Ok([packet] + later.value)
    ensures PayloadsOf([packet] + later.value) == [packet.payload] + PayloadsOf(later.value)
  {
  }

  lemma {:induction false} StreamRoundTrip(c: Cipher, key: Octets, sequence: nat, sent: seq<Sent>)
    requires Correct(c) && |key| >= 64 && AllSendable(sent)
    ensures var r := OpenStream(c, key, sequence, SealedStream(c, key, sequence, sent));
            r.Ok? && PayloadsOf(r.value) == Payloads(sent) && Numbered(r.value, sequence)
    decreases |sent|
  {
    hide OpenStream, OpenPacket, Sealed, NextSequence, Correct, Add, Numbered;
    var data := SealedStream(c, key, sequence, sent);
    StreamStep(c, key, sequence, data);
    if sent == [] {
      NothingSealed(c, key, sequence, []);
      assert PayloadsOf([]) == Payloads(sent);
    } else {
      var front, more := Sealed(c, key, sequence, sent[0]), sent[1..];
      var tail := SealedStream(c, key, NextSequence(sequence), more);
      SealedOpens(c, key, sequence, sent[0], tail);
      FirstSkipped(front, tail);
      StreamRoundTrip(c, key, NextSequence(sequence), more);
      PayloadsSplit(sent);
      var packet := OpenPacket(c, key, sequence, data).value;
      var later := OpenStream(c, key, NextSequence(sequence), tail);
      JoinedFields(packet, later);
      NumberedFirst(packet, later.value, sequence);
    }
  }

  /** data up to the rest that follows. */
  function Without(data: Octets, rest: Octets): Octets {
    if |rest| <= |data| then data[..|data| - |rest|] else data
  }

  /** Decrypting as one stream exactly the bytes an epoch consumed gives the payloads of that epoch. */
  lemma EpochIsAStreamPrefix(c: Cipher, key: Octets, sequence: nat, data: Octets)
    requires Correct(c) && OpenEpoch(c, key, sequence, data).Ok?
    ensures var epoch := OpenEpoch(c, key, sequence, data).value;
            var r := OpenStream(c, key, sequence, Without(data, epoch.remaining));
            r.Ok? && PayloadsOf(r.value) == PayloadsOf(epoch.packets)
  {
    hide OpenEpoch, OpenStream, Correct, SealedStream, Numbered, Ends;
    var epoch := OpenEpoch(c, key, sequence, data).value;
    var sent := EpochWasSealed(c, key, sequence, data);
    if sent == [] {
      StreamStep(c, key, sequence, []);
      assert data[..0] == [];
    } else {
      StreamRoundTrip(c, key, sequence, sent);
      assert Without(data, epoch.remaining) == SealedStream(c, key, sequence, sent);
    }
  }
}
