/** Clear TLS handshake messages, from records (minarx/protocols/common.py) and from one stream (derive_rsa.py). */
module Handshakes {
  import opened Bytes
  import opened Chunks
  import opened TlsRecords

  const HANDSHAKE: Byte := 22
  const CHANGE_CIPHER_SPEC: Byte := 20

  // ----- Messages in one buffer

  datatype Parsed = Parsed(messages: seq<Octets>, rest: Octets)

  function MessageLength(buf: Octets): nat
    requires |buf| >= 4
  {
    4 + BigEndian(buf[1..4])
  }

  function After(found: seq<Octets>, p: Parsed): Parsed {
    Parsed(found + p.messages, p.rest)
  }

  /** Every complete message at the front of a buffer. */
  function Messages(buf: Octets): (p: Parsed)
    ensures |p.rest| <= |buf|
  {
    if |buf| < 4 || |buf| < MessageLength(buf) then Parsed([], buf)
    else After([buf[..MessageLength(buf)]], Messages(buf[MessageLength(buf)..]))
  }

  lemma AfterTwice(a: seq<Octets>, b: seq<Octets>, p: Parsed)
    ensures After(a, After(b, p)) == After(a + b, p)
    ensures After([], p) == p
  {
    assert a + (b + p.messages) == (a + b) + p.messages;
    assert [] + p.messages == p.messages;
  }

  lemma MessagesStep(buf: Octets)
    ensures Messages(buf) == if |buf| < 4 || |buf| < MessageLength(buf) then Parsed([], buf)
                             else After([buf[..MessageLength(buf)]], Messages(buf[MessageLength(buf)..]))
  {
  }

  lemma AfterFields(found: seq<Octets>, p: Parsed)
    ensures After(found, p).messages == found + p.messages && After(found, p).rest == p.rest
  {
  }

  /** Reassembly is incremental: fragment boundaries leave no trace. */
  lemma {:induction false} MessagesAppend(a: Octets, b: Octets)
    ensures Messages(a + b) == After(Messages(a).messages, Messages(Messages(a).rest + b))
    decreases |a|
  {
    hide Messages, After, BigEndian;
    MessagesStep(a);
    if |a| < 4 || |a| < MessageLength(a) {
      AfterTwice([], [], Messages(a + b));
    } else {
      var n := MessageLength(a);
      assert (a + b)[1..4] == a[1..4];
      assert (a + b)[..n] == a[..n] && (a + b)[n..] == a[n..] + b;
      MessagesStep(a + b);
      MessagesAppend(a[n..], b);
      var first := Messages(a[n..]);
      AfterTwice([a[..n]], first.messages, Messages(first.rest + b));
      AfterFields([a[..n]], first);
    }
  }

  lemma {:induction false} MessagesConserve(buf: Octets)
    ensures Flatten(Messages(buf).messages) + Messages(buf).rest == buf
    ensures Messages(Messages(buf).rest) == Parsed([], Messages(buf).rest)
    decreases |buf|
  {
    hide Messages, Flatten, After, BigEndian;
    MessagesStep(buf);
    if |buf| < 4 || |buf| < MessageLength(buf) {
      FlattenNothing();
      LeftAndRightUnit(buf);
    } else {
      var n := MessageLength(buf);
      var more := Messages(buf[n..]);
      MessagesConserve(buf[n..]);
      AfterFields([buf[..n]], more);
      FlattenCons(buf[..n], more.messages);
      Regroup(buf[..n], Flatten(more.messages), more.rest);
      assert buf[..n] + buf[n..] == buf;
    }
  }

  /** A message once complete never changes: more bytes only add messages. */
  lemma CompleteMessagesStay(a: Octets, b: Octets)
    ensures Messages(a).messages <= Messages(a + b).messages
  {
    MessagesAppend(a, b);
  }

  /** One whole message: its type, a 24-bit length, and that many bytes; section 7.4 of RFC 5246. */
  predicate WholeMessage(m: Octets) {
    |m| >= 4 && |m| == 4 + 65536 * m[1] as nat + 256 * m[2] as nat + m[3] as nat
  }

  /** The front of a buffer holds no complete message. */
  predicate Incomplete(buf: Octets) {
    |buf| >= 4 ==> |buf| < 4 + 65536 * buf[1] as nat + 256 * buf[2] as nat + buf[3] as nat
  }

  lemma LengthField(buf: Octets)
    requires |buf| >= 4
    ensures MessageLength(buf) == 4 + 65536 * buf[1] as nat + 256 * buf[2] as nat + buf[3] as nat
  {
    hide BigEndian;
    BigEndian3(buf[1..4]);
  }

  lemma {:induction false} FoundAreWhole(buf: Octets)
    ensures forall i :: 0 <= i < |Messages(buf).messages| ==> WholeMessage(Messages(buf).messages[i])
    ensures Incomplete(Messages(buf).rest)
    decreases |buf|
  {
    hide Messages, After, MessageLength;
    MessagesStep(buf);
    if |buf| >= 4 {
      LengthField(buf);
      var n := MessageLength(buf);
      if n <= |buf| {
        FoundAreWhole(buf[n..]);
        AfterFields([buf[..n]], Messages(buf[n..]));
      }
    }
  }

  lemma {:induction false} WholeAreFound(sent: seq<Octets>, rest: Octets, buf: Octets)
    requires forall i :: 0 <= i < |sent| ==> WholeMessage(sent[i])
    requires Incomplete(rest) && buf == Flatten(sent) + rest
    ensures Messages(buf) == Parsed(sent, rest)
    decreases |sent|
  {
    hide Messages, After, Flatten, MessageLength;
    MessagesStep(buf);
    if sent == [] {
      FlattenNothing();
      LeftAndRightUnit(rest);
      if |buf| >= 4 {
        LengthField(buf);
      }
    } else {
      var m, later := sent[0], sent[1..];
      var tail := Flatten(later) + rest;
      assert sent == [m] + later;
      FlattenCons(m, later);
      Regroup(m, Flatten(later), rest);
      assert buf[..4] == m[..4] && buf[..|m|] == m && buf[|m|..] == tail;
      LengthField(buf);
      WholeAreFound(later, rest, tail);
      AfterFields([m], Messages(tail));
    }
  }

  /** The messages found are exactly the whole messages that the buffer starts with, and no other is left whole. */
  lemma MessagesExactly(buf: Octets, sent: seq<Octets>, rest: Octets)
    ensures Messages(buf) == Parsed(sent, rest) <==>
            && (forall i :: 0 <= i < |sent| ==> WholeMessage(sent[i]))
            && Incomplete(rest) && buf == Flatten(sent) + rest
  {
    hide Messages, Flatten, Incomplete, WholeMessage;
    MessagesConserve(buf);
    FoundAreWhole(buf);
    if (forall i :: 0 <= i < |sent| ==> WholeMessage(sent[i])) && Incomplete(rest) && buf == Flatten(sent) + rest {
      WholeAreFound(sent, rest, buf);
    }
  }

  /** The inner loop of both parsers: complete messages leave the pending buffer. */
  method TakeMessages(buffer: Octets) returns (found: seq<Octets>, pending: Octets)
    ensures Messages(buffer) == Parsed(found, pending)
  {
    hide Messages, After, BigEndian;
    pending, found := buffer, [];
    AfterTwice([], [], Messages(buffer));
    while |pending| >= 4
      invariant Messages(buffer) == After(found, Messages(pending))
      decreases |pending|
    {
      MessagesStep(pending);
      var total := 4 + BigEndian(pending[1..4]);
      if |pending| < total {
        break;
      }
      AfterTwice(found, [pending[..total]], Messages(pending[total..]));
      found := found + [pending[..total]];
      pending := pending[total..];
    }
    MessagesStep(pending);
    AfterFields(found, Parsed([], pending));
    assert found + [] == found;
  }

  // ----- Both directions, record by record

  datatype Message = Message(direction: Direction, bytes: Octets)

  datatype Clear = Clear(messages: seq<Message>, buffers: seq<Octets>)

  function Tagged(d: Direction, messages: seq<Octets>): (t: seq<Message>)
    ensures |t| == |messages|
    ensures forall i :: 0 <= i < |t| ==> t[i] == Message(d, messages[i])
  {
    seq(|messages|, i requires 0 <= i < |messages| => Message(d, messages[i]))
  }

  function ClearStep(s: Clear, r: Record): (t: Clear)
    requires |s.buffers| == 2
    ensures |t.buffers| == 2
  {
    if r.contentType != HANDSHAKE then s
    else
      var p := Messages(s.buffers[r.direction] + r.fragment);
      Clear(s.messages + Tagged(r.direction, p.messages), s.buffers[r.direction := p.rest])
  }

  function ClearRun(records: seq<Record>): (t: Clear)
    ensures |t.buffers| == 2
  {
    if records == [] then Clear([], [[], []])
    else ClearStep(ClearRun(records[..|records| - 1]), records[|records| - 1])
  }

  /** clear_handshake_messages; the 24-bit length can never exceed its own limit check. */
  method ClearHandshakeMessages(chunks: seq<Chunk>) returns (r: Result<seq<Message>>)
    ensures r.Ok? <==> Split(chunks).Ok?
    ensures r.Ok? ==> r.value == ClearRun(Split(chunks).value).messages
  {
    hide Split, Messages, Tagged;
    var records :- SplitTlsRecords(chunks);
    var buffers: seq<Octets> := [[], []];
    var messages: seq<Message> := [];
    for i := 0 to |records|
      invariant |buffers| == 2 && ClearRun(records[..i]) == Clear(messages, buffers)
    {
      var rec := records[i];
      assert records[..i + 1][..i] == records[..i];
      if rec.contentType != HANDSHAKE {
        continue;
      }
      var d := rec.direction;
      var found, pending := TakeMessages(buffers[d] + rec.fragment);
      messages := messages + Tagged(d, found);
      buffers := buffers[d := pending];
    }
    assert records[..|records|] == records;
    return Ok(messages);
  }

  lemma TaggedSnoc(before: seq<Message>, d: Direction, found: seq<Octets>, m: Octets)
    ensures before + Tagged(d, found + [m]) == (before + Tagged(d, found)) + [Message(d, m)]
  {
  }

  // ----- What comes out depends only on the handshake bytes of each direction

  function HandshakeBytes(records: seq<Record>, d: Direction): Octets {
    if records == [] then []
    else
      var last := records[|records| - 1];
      HandshakeBytes(records[..|records| - 1], d)
      + if last.direction == d && last.contentType == 22 then last.fragment else []
  }

  function MessagesOf(messages: seq<Message>, d: Direction): seq<Octets> {
    if messages == [] then []
    else
      var last := messages[|messages| - 1];
      MessagesOf(messages[..|messages| - 1], d) + if last.direction == d then [last.bytes] else []
  }

  lemma {:induction false} MessagesOfTagged(before: seq<Message>, c: Direction, found: seq<Octets>, d: Direction)
    ensures MessagesOf(before + Tagged(c, found), d) == MessagesOf(before, d) + if c == d then found else []
  {
    if found == [] {
      assert before + Tagged(c, found) == before;
      assert MessagesOf(before, d) + [] == MessagesOf(before, d);
    } else {
      var init, last := found[..|found| - 1], found[|found| - 1];
      MessagesOfTagged(before, c, init, d);
      assert found == init + [last];
      TaggedSnoc(before, c, init, last);
      var all := (before + Tagged(c, init)) + [Message(c, last)];
      assert all[..|all| - 1] == before + Tagged(c, init);
      if c == d {
        assert (MessagesOf(before, d) + init) + [last] == MessagesOf(before, d) + found;
      } else {
        assert (MessagesOf(before, d) + []) + [] == MessagesOf(before, d) + [];
      }
    }
  }

  lemma NoMessages()
    ensures Messages([]) == Parsed([], [])
  {
  }

  /**
   * Fragmentation independence: each direction's clear messages are the complete messages of that direction's
   * concatenated handshake fragments, however they were cut into records and interleaved.
   */
  lemma {:induction false} ClearMessagesMeaning(records: seq<Record>, d: Direction)
    ensures MessagesOf(ClearRun(records).messages, d) == Messages(HandshakeBytes(records, d)).messages
    ensures ClearRun(records).buffers[d] == Messages(HandshakeBytes(records, d)).rest
  {
    hide Messages;
    if records == [] {
      NoMessages();
    } else {
      var init, last := records[..|records| - 1], records[|records| - 1];
      ClearMessagesMeaning(init, d);
      var s := ClearRun(init);
      if last.contentType == HANDSHAKE {
        var p := Messages(s.buffers[last.direction] + last.fragment);
        MessagesOfTagged(s.messages, last.direction, p.messages, d);
        if last.direction == d {
          MessagesAppend(HandshakeBytes(init, d), last.fragment);
        } else {
          assert HandshakeBytes(records, d) == HandshakeBytes(init, d);
          assert MessagesOf(s.messages, d) + [] == MessagesOf(s.messages, d);
        }
      } else {
        assert HandshakeBytes(records, d) == HandshakeBytes(init, d);
      }
    }
  }

  /** Messages come out in the order in which records complete them: later records only add to the list. */
  lemma {:induction false} ClearInCompletionOrder(records: seq<Record>, n: nat)
    requires n <= |records|
    ensures ClearRun(records[..n]).messages <= ClearRun(records).messages
    decreases |records|
  {
    hide Messages, Tagged;
    if n == |records| {
      assert records[..n] == records;
    } else {
      var init := records[..|records| - 1];
      ClearInCompletionOrder(init, n);
      assert init[..n] == records[..n];
    }
  }

  // ----- The other parser: one stream, up to ChangeCipherSpec

  function StreamMessages(stream: Octets, pending: Octets): seq<Octets> {
    if |stream| < 5 || |stream| < 5 + BigEndian(stream[3..5]) then []
    else
      var end := 5 + BigEndian(stream[3..5]);
      if stream[0] == HANDSHAKE then
        var p := Messages(pending + stream[5..end]);
        p.messages + StreamMessages(stream[end..], p.rest)
      else if stream[0] == CHANGE_CIPHER_SPEC then []
      else StreamMessages(stream[end..], pending)
  }

  lemma StreamMessagesStep(stream: Octets, offset: nat, pending: Octets)
    requires offset <= |stream|
    ensures StreamMessages(Skip(stream, offset), pending)
            == if offset + 5 > |stream| || offset + 5 + BigEndian(stream[offset + 3..offset + 5]) > |stream| then []
               else
                 var end := offset + 5 + BigEndian(stream[offset + 3..offset + 5]);
                 if stream[offset] == HANDSHAKE then
                   var p := Messages(pending + stream[offset + 5..end]);
                   p.messages + StreamMessages(Skip(stream, end), p.rest)
                 else if stream[offset] == CHANGE_CIPHER_SPEC then []
                 else StreamMessages(Skip(stream, end), pending)
  {
    hide Messages, BigEndian, Skip;
    var rest := Skip(stream, offset);
    if |rest| >= 5 {
      SkipSlice(stream, offset, 3, 5);
      SkipSlice(stream, offset, 0, 5);
      var length := BigEndian(rest[3..5]);
      if |rest| >= 5 + length {
        SkipSlice(stream, offset, 5, 5 + length);
      }
    }
  }

  lemma FoundOn(before: seq<Octets>, found: seq<Octets>, later: seq<Octets>)
    ensures before + (found + later) == (before + found) + later
    ensures before + [] == before && [] + later == later
  {
  }

  /** _handshake_messages_from_stream */
  method HandshakeMessagesFromStream(stream: Octets) returns (messages: seq<Octets>)
    ensures messages == StreamMessages(stream, [])
  {
    hide StreamMessages, Messages, Skip, BigEndian;
    messages := [];
    var pending: Octets := [];
    var offset := 0;
    SkipEnds(stream);
    FoundOn([], [], StreamMessages(stream, []));
    while offset + 5 <= |stream|
      invariant 0 <= offset <= |stream|
      invariant StreamMessages(stream, []) == messages + StreamMessages(Skip(stream, offset), pending)
      decreases |stream| - offset
    {
      StreamMessagesStep(stream, offset, pending);
      var contentType := stream[offset];
      var end := offset + 5 + BigEndian(stream[offset + 3..offset + 5]);
      if end > |stream| {
        FoundOn(messages, [], []);
        return;
      }
      if contentType == HANDSHAKE {
        ghost var before := messages;
        var found;
        found, pending := TakeMessages(pending + stream[offset + 5..end]);
        FoundOn(before, found, StreamMessages(Skip(stream, end), pending));
        messages := messages + found;
      } else if contentType == CHANGE_CIPHER_SPEC {
        FoundOn(messages, [], []);
        return;
      }
      offset := end;
    }
    StreamMessagesStep(stream, offset, pending);
    FoundOn(messages, [], []);
  }

  /** The handshake fragments before the first ChangeCipherSpec. */
  function HandshakeBefore(records: seq<Record>): Octets {
    if records == [] || records[0].contentType == 20 then []
    else (if records[0].contentType == 22 then records[0].fragment else []) + HandshakeBefore(records[1..])
  }

  function AllHandshake(records: seq<Record>): Octets {
    if records == [] then []
    else (if records[0].contentType == 22 then records[0].fragment else []) + AllHandshake(records[1..])
  }

  lemma WalkOne(r: Record, tail: Octets, pending: Octets)
    requires WellFormed(r)
    ensures StreamMessages(Serialise(r) + tail, pending)
            == if r.contentType == 22 then
                 var p := Messages(pending + r.fragment); p.messages + StreamMessages(tail, p.rest)
               else if r.contentType == 20 then []
               else StreamMessages(tail, pending)
  {
    hide Messages;
    var stream := Serialise(r) + tail;
    assert stream[3..5] == U16(|r.fragment|);
    assert stream[5..5 + |r.fragment|] == r.fragment;
    assert stream[5 + |r.fragment|..] == tail;
  }

  lemma NoStream(pending: Octets)
    ensures StreamMessages([], pending) == []
  {
  }

  lemma WalkStep(records: seq<Record>)
    requires AllWellFormed(records)
    ensures records == [] ==> SerialiseAll(records) == [] && HandshakeBefore(records) == []
    ensures records != [] ==>
              var r, later := records[0], records[1..];
              && WellFormed(r) && AllWellFormed(later)
              && SerialiseAll(records) == Serialise(r) + SerialiseAll(later)
              && HandshakeBefore(records) == if r.contentType == 20 then []
                 else (if r.contentType == 22 then r.fragment else []) + HandshakeBefore(later)
  {
    hide Serialise;
  }

  lemma {:induction false} WalkRecords(records: seq<Record>, pending: Octets)
    requires AllWellFormed(records) && Messages(pending) == Parsed([], pending)
    ensures StreamMessages(SerialiseAll(records), pending) == Messages(pending + HandshakeBefore(records)).messages
  {
    hide Serialise, SerialiseAll, Messages, After, StreamMessages, HandshakeBefore, AllWellFormed, WellFormed;
    WalkStep(records);
    if records == [] {
      NoStream(pending);
      assert pending + [] == pending;
    } else {
      var r := records[0];
      WalkOne(r, SerialiseAll(records[1..]), pending);
      if r.contentType == 22 {
        var p := Messages(pending + r.fragment);
        MessagesConserve(pending + r.fragment);
        WalkRecords(records[1..], p.rest);
        MessagesAppend(pending + r.fragment, HandshakeBefore(records[1..]));
        Regroup(pending, r.fragment, HandshakeBefore(records[1..]));
        AfterFields(p.messages, Messages(p.rest + HandshakeBefore(records[1..])));
      } else if r.contentType == 20 {
        assert pending + [] == pending;
      } else {
        WalkRecords(records[1..], pending);
        assert [] + HandshakeBefore(records[1..]) == HandshakeBefore(records[1..]);
      }
    }
  }

  // ----- The two parsers compared

  lemma {:induction false} NoHandshake(records: seq<Record>)
    requires forall i :: 0 <= i < |records| ==> records[i].contentType != 22
    ensures AllHandshake(records) == []
  {
    if records != [] {
      NoHandshake(records[1..]);
    }
  }

  lemma {:induction false} BeforeIsPrefix(records: seq<Record>)
    ensures HandshakeBefore(records) <= AllHandshake(records)
    ensures (forall i, j :: 0 <= i < j < |records| && records[i].contentType == 20 ==>
               records[j].contentType != 22)
            ==> HandshakeBefore(records) == AllHandshake(records)
  {
    if records != [] {
      var rest := records[1..];
      BeforeIsPrefix(rest);
      if records[0].contentType == 20 {
        if forall j :: 0 < j < |records| ==> records[j].contentType != 22 {
          forall j | 0 <= j < |rest|
            ensures rest[j].contentType != 22
          {
            assert rest[j] == records[j + 1];
          }
          NoHandshake(rest);
        }
      } else if forall i, j :: 0 <= i < j < |records| && records[i].contentType == 20 ==>
                  records[j].contentType != 22 {
        forall i, j | 0 <= i < j < |rest| && rest[i].contentType == 20
          ensures rest[j].contentType != 22
        {
          assert rest[i] == records[i + 1] && rest[j] == records[j + 1];
        }
      }
    }
  }

  lemma {:induction false} AllHandshakeSnoc(records: seq<Record>, last: Record)
    ensures AllHandshake(records + [last])
            == AllHandshake(records) + if last.contentType == 22 then last.fragment else []
  {
    var all := records + [last];
    if records == [] {
      assert all[1..] == [];
      assert [] + last.fragment == last.fragment + [];
    } else {
      AllHandshakeSnoc(records[1..], last);
      assert all[1..] == records[1..] + [last];
    }
  }

  lemma {:induction false} HandshakeOfDirection(records: seq<Record>, d: Direction)
    ensures AllHandshake(RecordsOf(records, d)) == HandshakeBytes(records, d)
  {
    if records != [] {
      var init, last := records[..|records| - 1], records[|records| - 1];
      HandshakeOfDirection(init, d);
      if last.direction == d {
        AllHandshakeSnoc(RecordsOf(init, d), last);
      } else {
        assert RecordsOf(records, d) == RecordsOf(init, d);
      }
    }
  }

  /** No handshake-typed record follows a ChangeCipherSpec in this direction. */
  ghost predicate ClearThroughout(records: seq<Record>) {
    forall i, j :: 0 <= i < j < |records| && records[i].contentType == 20 ==>
      records[j].contentType != 22
  }

  /** More bytes leave the message list as it is exactly when they complete no message. */
  lemma ListGrowsExactly(before: Octets, more: Octets)
    ensures Messages(before).messages <= Messages(before + more).messages
    ensures Messages(before).messages == Messages(before + more).messages <==> Incomplete(Messages(before).rest + more)
  {
    hide Messages, After, BigEndian;
    var first := Messages(before);
    var left := first.rest + more;
    MessagesAppend(before, more);
    AfterFields(first.messages, Messages(left));
    MessagesStep(left);
    if |left| >= 4 {
      LengthField(left);
    }
    if !Incomplete(left) {
      AfterFields([left[..MessageLength(left)]], Messages(left[MessageLength(left)..]));
    }
  }

  /** What a direction's handshake bytes leave unread before its ChangeCipherSpec, with all that follow it. */
  function LeftOver(records: seq<Record>): Octets {
    BeforeIsPrefix(records);
    Messages(HandshakeBefore(records)).rest + AllHandshake(records)[|HandshakeBefore(records)|..]
  }

  /**
   * On every capture MinARX accepts, the RSA decoder's messages for a direction are the complete messages before
   * its ChangeCipherSpec: always a prefix of the record-based list, and the same list exactly when the
   * handshake-typed bytes after the ChangeCipherSpec complete no message; so while there are none.
   */
  lemma HandshakeParsersAgree(chunks: seq<Chunk>, d: Direction)
    requires Split(chunks).Ok?
    ensures var records := Split(chunks).value;
            var mine := RecordsOf(records, d);
            var fromStream := StreamMessages(StreamOf(chunks, d), []);
            var fromRecords := MessagesOf(ClearRun(records).messages, d);
            && fromStream == Messages(HandshakeBefore(mine)).messages
            && fromStream <= fromRecords
            && (fromStream == fromRecords <==> Incomplete(LeftOver(mine)))
            && (ClearThroughout(mine) ==> fromStream == fromRecords)
  {
    hide Split, StreamMessages, Messages, ClearRun, SerialiseAll, AllWellFormed, Incomplete;
    var records := Split(chunks).value;
    var mine := RecordsOf(records, d);
    SplitConserves(chunks);
    NoMessages();
    WalkRecords(mine, []);
    assert [] + HandshakeBefore(mine) == HandshakeBefore(mine);
    ClearMessagesMeaning(records, d);
    HandshakeOfDirection(records, d);
    BeforeIsPrefix(mine);
    var before, all := HandshakeBefore(mine), AllHandshake(mine);
    assert all == before + all[|before|..];
    ListGrowsExactly(before, all[|before|..]);
  }

  lemma OneEmptyMessage(bytes: Octets)
    requires |bytes| == 4 && bytes[1..4] == [0, 0, 0]
    ensures Messages(bytes).messages == [bytes]
  {
    BigEndian3(bytes[1..4]);
    assert bytes[..4] == bytes && bytes[4..] == [];
    NoMessages();
  }

  /**
   * A concrete disagreement: a protected Finished record keeps the handshake type in TLS 1.2, so the record-based
   * parser reads its ciphertext as a message that the stream parser rightly does not see.
   */
  lemma ProtectedFinishedIsMisread()
    ensures var records := [Record(0, 20, [3, 3], [1]), Record(0, 22, [3, 3], [9, 0, 0, 0])];
            && MessagesOf(ClearRun(records).messages, 0) == [[9, 0, 0, 0]]
            && StreamMessages(SerialiseAll(records), []) == []
  {
    var ccs, finished := Record(0, 20, [3, 3], [1]), Record(0, 22, [3, 3], [9, 0, 0, 0]);
    var records := [ccs, finished];
    hide Messages, Serialise, StreamMessages, ClearRun, MessagesOf;
    WalkOne(ccs, SerialiseAll(records[1..]), []);
    ClearMessagesMeaning(records, 0);
    assert records[..1] == [ccs] && [ccs][..0] == [];
    assert HandshakeBytes([ccs], 0) == [];
    assert HandshakeBytes(records, 0) == [9, 0, 0, 0];
    OneEmptyMessage([9, 0, 0, 0]);
  }
}
