/**
 * KEXINIT name-lists and algorithm negotiation, implemented twice: parse_kexinit_name_lists and negotiate_name
 * (decryptor/core/ssh_crypto.py), _first_kexinit, _name_list and _negotiate (minarx/protocols/ssh.py).
 */
module SshNegotiation {
  import opened Bytes
  import opened Binary
  import opened SshWire

  // ----- SSH strings

  datatype Field = Field(value: Octets, next: nat)

  /** read_ssh_string */
  function ReadString(data: Octets, offset: nat): (r: Result<Field>)
    ensures r.Ok? ==> offset + 4 <= r.value.next <= |data|
  {
    if offset + 4 > |data| then Err(ValueError)
    else
      var start := offset + 4;
      var end := start + BigEndian(data[offset..start]);
      if end > |data| then Err(ValueError) else Ok(Field(data[start..end], end))
  }

  predicate Fits(value: Octets) {
    |value| < 4294967296
  }

  function SshString(value: Octets): Octets
    requires Fits(value)
  {
    U32(|value|) + value
  }

  /** A string is read back wherever it stands. */
  lemma StringRoundTrip(before: Octets, value: Octets, rest: Octets)
    requires Fits(value)
    ensures ReadString(before + SshString(value) + rest, |before|) == Ok(Field(value, |before| + 4 + |value|))
  {
    hide BigEndian;
    var data := before + SshString(value) + rest;
    assert data[|before|..|before| + 4] == U32(|value|);
    assert data[|before| + 4..|before| + 4 + |value|] == value;
  }

  /** What was read stood there as a string. */
  lemma StringWasWritten(data: Octets, offset: nat)
    requires ReadString(data, offset).Ok?
    ensures var f := ReadString(data, offset).value;
            Fits(f.value) && data[offset..f.next] == SshString(f.value)
  {
    hide BigEndian;
    BigEndian4(data[offset..offset + 4]);
  }

  lemma StringSizes(value: Octets)
    requires Fits(value)
    ensures |SshString(value)| == 4 + |value|
  {
  }

  predicate AllFit(fields: seq<Octets>) {
    forall i :: 0 <= i < |fields| ==> Fits(fields[i])
  }

  /** Each field as an SSH string, in order. */
  function Strings(fields: seq<Octets>): Octets
    requires AllFit(fields)
  {
    if fields == [] then [] else SshString(fields[0]) + Strings(fields[1..])
  }

  // ----- str.split(",")

  function Join(names: seq<Name>): Octets
    requires names != []
  {
    if |names| == 1 then names[0] else names[0] + [44] + Join(names[1..])
  }

  function Split(s: Octets): (names: seq<Name>)
    ensures names != [] && forall i :: 0 <= i < |names| ==> 44 !in names[i]
    ensures Join(names) == s
  {
    if s == [] then [[]]
    else
      var more := Split(s[1..]);
      if s[0] == COMMA then
        assert ([[]] + more)[1..] == more;
        [[]] + more
      else
        var names := [[s[0]] + more[0]] + more[1..];
        assert names[1..] == more[1..];
        names
  }

  predicate IsAscii(s: Octets) {
    forall i :: 0 <= i < |s| ==> s[i] < 128
  }

  /** Text decoded as ASCII and split at its commas; no text is no names. */
  function Names(text: Octets): Result<seq<Name>> {
    if !IsAscii(text) then Err(ValueError) else Ok(if text == [] then [] else Split(text))
  }

  // ----- parse_kexinit_name_lists

  const LISTS: nat := 10

  /** The name-lists found so far, then those at an offset, ten in all. */
  function ListsFrom(payload: Octets, offset: nat, lists: seq<seq<Name>>): (r: Result<seq<seq<Name>>>)
    requires |lists| <= LISTS
    ensures r.Ok? ==> |r.value| == LISTS
    decreases LISTS - |lists|
  {
    if |lists| == LISTS then Ok(lists)
    else
      var field :- ReadString(payload, offset);
      var names :- Names(field.value);
      ListsFrom(payload, field.next, lists + [names])
  }

  lemma ListsStep(payload: Octets, offset: nat, lists: seq<seq<Name>>)
    requires |lists| <= LISTS
    ensures ListsFrom(payload, offset, lists) ==
            if |lists| == LISTS then Ok(lists)
            else
              var field := ReadString(payload, offset);
              if field.Err? then Err(field.error)
              else
                var names := Names(field.value.value);
                if names.Err? then Err(names.error) else ListsFrom(payload, field.value.next, lists + [names.value])
  {
  }

  function NameLists(payload: Octets): (r: Result<seq<seq<Name>>>)
    ensures r.Ok? ==> |r.value| == LISTS
  {
    if |payload| < 17 || payload[0] != KEXINIT then Err(ValueError) else ListsFrom(payload, 17, [])
  }

  method ParseKexinitNameLists(payload: Octets) returns (r: Result<seq<seq<Name>>>)
    ensures r == NameLists(payload)
  {
    hide ReadString, ListsFrom, Names;
    if |payload| < 17 || payload[0] != KEXINIT {
      return Err(ValueError);
    }
    var offset: nat := 17;
    var lists: seq<seq<Name>> := [];
    for i := 0 to LISTS
      invariant |lists| == i
      invariant ListsFrom(payload, 17, []) == ListsFrom(payload, offset, lists)
    {
      ListsStep(payload, offset, lists);
      var field :- ReadString(payload, offset);
      var names :- Names(field.value);
      lists := lists + [names];
      offset := field.next;
    }
    ListsStep(payload, offset, lists);
    return Ok(lists);
  }

  // ----- _first_kexinit

  /** The name-lists read so far, then those at the front of a reader, ten in all, and what the reader has left. */
  function ReadLists(s: Octets, lists: seq<seq<Name>>): (r: Result<(seq<seq<Name>>, Octets)>)
    requires |lists| <= LISTS
    ensures r.Ok? ==> |r.value.0| == LISTS
    decreases LISTS - |lists|
  {
    if |lists| == LISTS then Ok((lists, s))
    else
      var field :- ReadString(s, 0);
      var names :- Names(field.value);
      ReadLists(Skip(s, field.next), lists + [names])
  }

  /** The lists of a KEXINIT after its message number: cookie, ten lists, a flag, four reserved bytes, the end. */
  function KexinitFields(fields: Octets): (r: Result<seq<seq<Name>>>)
    ensures r.Ok? ==> |r.value| == LISTS
  {
    if |fields| < 16 then Err(ValueError)
    else
      var lists :- ReadLists(fields[16..], []);
      if |lists.1| == 5 then Ok(lists.0) else Err(ValueError)
  }

  datatype Front = Front(payload: Octets, rest: Octets)

  function FrontPacket(s: Octets): (r: Result<Front>)
    ensures r.Ok? ==> |r.value.rest| < |s|
  {
    if |s| < 4 then Err(ValueError)
    else
      var n := BigEndian(s[..4]);
      if n < 6 || n > 35000 || 4 + n > |s| then Err(ValueError)
      else
        var padding := s[4];
        if padding < 4 || padding >= n then Err(ValueError)
        else Ok(Front(s[5..4 + n - padding], s[4 + n..]))
  }

  predicate IsKexinit(payload: Octets) {
    payload != [] && payload[0] == KEXINIT
  }

  function FirstKexinitIn(s: Octets): (r: Result<seq<seq<Name>>>)
    ensures r.Ok? ==> |r.value| == LISTS
    decreases |s|
  {
    var front :- FrontPacket(s);
    if IsKexinit(front.payload) then KexinitFields(front.payload[1..]) else FirstKexinitIn(front.rest)
  }

  function FirstKexinit(stream: Octets): (r: Result<seq<seq<Name>>>)
    ensures r.Ok? ==> |r.value| == LISTS
  {
    var id :- Identification(stream);
    FirstKexinitIn(id.rest)
  }

  /** _name_list, with the reader's own error where the data ends early. */
  method NextNameList(reader: Reader) returns (r: Result<seq<Name>>)
    requires reader.Valid()
    modifies reader
    ensures reader.Valid() && reader.offset >= old(reader.offset)
    ensures var field := ReadString(old(reader.Rest()), 0);
            if field.Err? then r.Err?
            else
              && (r.Ok? <==> Names(field.value.value).Ok?)
              && (r.Ok? ==>
                    r == Names(field.value.value) && reader.Rest() == Skip(old(reader.Rest()), field.value.next))
  {
    hide BigEndian, Names;
    ghost var s := reader.Rest();
    var length :- reader.Take(4);
    var text :- reader.Take(BigEndian(length));
    ghost var n := BigEndian(length);
    SkipTwice(s, 4, n);
    SkipSlice(s, 4, 0, n);
    assert text == s[4..4 + n];
    r := Names(text);
  }

  lemma ReadListsStep(s: Octets, lists: seq<seq<Name>>)
    requires |lists| <= LISTS
    ensures ReadLists(s, lists) ==
            if |lists| == LISTS then Ok((lists, s))
            else
              var field := ReadString(s, 0);
              if field.Err? then Err(field.error)
              else
                var names := Names(field.value.value);
                if names.Err? then Err(names.error) else ReadLists(Skip(s, field.value.next), lists + [names.value])
  {
  }

  /** The fields of a KEXINIT payload, read through a reader of their own. */
  method ReadKexinit(payload: Octets) returns (r: Result<seq<seq<Name>>>)
    requires payload != []
    ensures r.Ok? <==> KexinitFields(payload[1..]).Ok?
    ensures r.Ok? ==> r == KexinitFields(payload[1..])
  {
    hide ReadString, Names, ReadLists;
    ghost var fields := payload[1..];
    var reader := new Reader(payload[1..]);
    var cookie :- reader.Take(16);
    assert reader.Rest() == fields[16..];
    var lists: seq<seq<Name>> := [];
    for i := 0 to LISTS
      invariant reader.Valid() && fresh(reader)
      invariant |lists| == i
      invariant ReadLists(fields[16..], []) == ReadLists(reader.Rest(), lists)
    {
      ReadListsStep(reader.Rest(), lists);
      var names :- NextNameList(reader);
      lists := lists + [names];
    }
    ReadListsStep(reader.Rest(), lists);
    var follows :- reader.NextByte();
    var reserved :- reader.Take(4);
    var end :- reader.Finish();
    return Ok(lists);
  }

  lemma FirstKexinitStep(s: Octets)
    ensures FirstKexinitIn(s) ==
            var front := FrontPacket(s);
            if front.Err? then Err(front.error)
            else if IsKexinit(front.value.payload) then KexinitFields(front.value.payload[1..])
            else FirstKexinitIn(front.value.rest)
    ensures FrontPacket(s).Err? ==> FrontPacket(s) == Err(ValueError)
    ensures s == [] ==> FrontPacket(s).Err?
  {
  }

  lemma {:induction false} ReadListsErrors(s: Octets, lists: seq<seq<Name>>)
    requires |lists| <= LISTS
    ensures ReadLists(s, lists).Err? ==> ReadLists(s, lists) == Err(ValueError)
    decreases LISTS - |lists|
  {
    hide ReadLists;
    ReadListsStep(s, lists);
    if |lists| < LISTS && ReadString(s, 0).Ok? && Names(ReadString(s, 0).value.value).Ok? {
      ReadListsErrors(Skip(s, ReadString(s, 0).value.next), lists + [Names(ReadString(s, 0).value.value).value]);
    }
  }

  lemma KexinitErrors(s: Octets)
    ensures KexinitFields(s).Err? ==> KexinitFields(s) == Err(ValueError)
  {
    hide ReadLists;
    if |s| >= 16 {
      ReadListsErrors(s[16..], []);
    }
  }

  method PacketPayload(taken: Octets) returns (r: Result<Octets>)
    requires |taken| >= 6
    ensures r.Ok? <==> 4 <= taken[0] < |taken|
    ensures r.Ok? ==> r.value == taken[1..|taken| - taken[0]]
  {
    var packet := new Reader(taken);
    var first := packet.NextByte();
    var paddingLength := first.value;
    if paddingLength < 4 || paddingLength >= |taken| {
      return Err(ValueError);
    }
    r := packet.Take(|taken| - paddingLength - 1);
    var padding := packet.Take(paddingLength);
    var end := packet.Finish();
  }

  /** The reader's next clear packet, whose payload is read through a reader of its own. */
  method NextClearPacket(reader: Reader) returns (r: Result<Octets>)
    requires reader.Valid()
    modifies reader
    ensures reader.Valid()
    ensures r.Ok? <==> FrontPacket(old(reader.Rest())).Ok?
    ensures r.Ok? ==> Ok(Front(r.value, reader.Rest())) == FrontPacket(old(reader.Rest()))
  {
    hide BigEndian;
    ghost var s := reader.Rest();
    var length :- reader.Take(4);
    var packetLength := BigEndian(length);
    if packetLength < 6 || packetLength > 35000 {
      return Err(ValueError);
    }
    var taken :- reader.Take(packetLength);
    SkipTwice(s, 4, packetLength);
    SkipSlice(s, 4, 0, packetLength);
    assert taken == s[4..4 + packetLength];
    r := PacketPayload(taken);
    if r.Ok? {
      assert r.value == s[5..4 + packetLength - s[4]];
    }
  }

  /** _first_kexinit */
  method FindFirstKexinit(stream: Octets) returns (r: Result<seq<seq<Name>>>)
    ensures r == FirstKexinit(stream)
  {
    hide FrontPacket, FirstKexinitIn, KexinitFields, Identification;
    var id :- Identification(stream);
    ghost var s := id.rest;
    var reader := new Reader(id.rest);
    while reader.offset < |reader.data|
      invariant reader.Valid() && fresh(reader)
      invariant FirstKexinitIn(s) == FirstKexinitIn(reader.Rest())
      decreases |reader.data| - reader.offset
    {
      FirstKexinitStep(reader.Rest());
      var payload := NextClearPacket(reader);
      if payload.Err? {
        return Err(ValueError);
      }
      if IsKexinit(payload.value) {
        var lists := ReadKexinit(payload.value);
        KexinitErrors(payload.value[1..]);
        return if lists.Ok? then lists else Err(ValueError);
      }
    }
    FirstKexinitStep(reader.Rest());
    return Err(ValueError);
  }

  lemma {:induction false} FirstKexinitErrors(s: Octets)
    ensures FirstKexinitIn(s).Err? ==> FirstKexinitIn(s) == Err(ValueError)
    decreases |s|
  {
    hide FirstKexinitIn, FrontPacket, KexinitFields;
    FirstKexinitStep(s);
    var front := FrontPacket(s);
    if front.Ok? {
      if IsKexinit(front.value.payload) {
        KexinitErrors(front.value.payload[1..]);
      } else {
        FirstKexinitErrors(front.value.rest);
      }
    }
  }

  lemma {:induction false} ListsErrors(payload: Octets, offset: nat, lists: seq<seq<Name>>)
    requires |lists| <= LISTS
    ensures ListsFrom(payload, offset, lists).Err? ==> ListsFrom(payload, offset, lists) == Err(ValueError)
    decreases LISTS - |lists|
  {
    hide ListsFrom;
    ListsStep(payload, offset, lists);
    if |lists| < LISTS && ReadString(payload, offset).Ok? && Names(ReadString(payload, offset).value.value).Ok? {
      var field := ReadString(payload, offset).value;
      ListsErrors(payload, field.next, lists + [Names(field.value).value]);
    }
  }

  /** Whatever is wrong with a stream or its KEXINIT, both parsers refuse it with a value error. */
  lemma ParsersRefuse(stream: Octets, payload: Octets)
    ensures FirstKexinit(stream).Err? ==> FirstKexinit(stream) == Err(ValueError)
    ensures NameLists(payload).Err? ==> NameLists(payload) == Err(ValueError)
  {
    hide FirstKexinitIn, ListsFrom, Identification;
    TransportRefused(stream);
    if Identification(stream).Ok? {
      FirstKexinitErrors(Identification(stream).value.rest);
    }
    ListsErrors(payload, 17, []);
  }

  // ----- The two parsers find the same lists

  function FirstOf(packets: seq<Octets>, messageType: Byte): Result<Octets> {
    if packets == [] then Err(ValueError)
    else if packets[0] != [] && packets[0][0] == messageType then Ok(packets[0])
    else FirstOf(packets[1..], messageType)
  }

  /** The first message of a type is found, and none is where there is none. */
  lemma {:induction false} FirstOfExactly(packets: seq<Octets>, messageType: Byte)
    ensures FirstOf(packets, messageType).Err? <==>
            forall i :: 0 <= i < |packets| ==> packets[i] == [] || packets[i][0] != messageType
    ensures FirstOf(packets, messageType).Ok? ==>
              exists i :: 0 <= i < |packets| && packets[i] == FirstOf(packets, messageType).value
                          && packets[i] != [] && packets[i][0] == messageType
                          && forall j :: 0 <= j < i ==> packets[j] == [] || packets[j][0] != messageType
  {
    if packets != [] && (packets[0] == [] || packets[0][0] != messageType) {
      var more := packets[1..];
      FirstOfExactly(more, messageType);
      forall i | 0 <= i < |more|
        ensures more[i] == packets[i + 1]
      {
      }
      if FirstOf(more, messageType).Ok? {
        var i :| 0 <= i < |more| && more[i] == FirstOf(more, messageType).value && more[i] != []
                 && more[i][0] == messageType && forall j :: 0 <= j < i ==> more[j] == [] || more[j][0] != messageType;
        assert packets[i + 1] == more[i];
        forall j | 0 <= j < i + 1
          ensures packets[j] == [] || packets[j][0] != messageType
        {
          assert j > 0 ==> packets[j] == more[j - 1];
        }
      }
    }
  }

  lemma StringFromRest(payload: Octets, offset: nat)
    requires offset <= |payload|
    ensures var whole, rest := ReadString(payload, offset), ReadString(Skip(payload, offset), 0);
            && (whole.Ok? <==> rest.Ok?)
            && (whole.Ok? ==> whole.value == Field(rest.value.value, offset + rest.value.next))
  {
    hide BigEndian;
    var s := Skip(payload, offset);
    if |s| >= 4 {
      SkipSlice(payload, offset, 0, 4);
      var n := BigEndian(s[0..4]);
      if 4 + n <= |s| {
        SkipSlice(payload, offset, 4, 4 + n);
      }
    }
  }

  /** Lists read at an offset are the lists read from the rest of the payload. */
  lemma {:induction false} ListsAgree(payload: Octets, offset: nat, lists: seq<seq<Name>>)
    requires offset <= |payload| && |lists| <= LISTS
    ensures ListsFrom(payload, offset, lists).Ok? <==> ReadLists(Skip(payload, offset), lists).Ok?
    ensures ListsFrom(payload, offset, lists).Ok? ==>
              ListsFrom(payload, offset, lists).value == ReadLists(Skip(payload, offset), lists).value.0
    decreases LISTS - |lists|
  {
    hide ListsFrom, ReadLists, ReadString, Names, Skip;
    ListsStep(payload, offset, lists);
    ReadListsStep(Skip(payload, offset), lists);
    if |lists| < LISTS {
      StringFromRest(payload, offset);
      var field := ReadString(payload, offset);
      if field.Ok? && Names(field.value.value).Ok? {
        SkipTwice(payload, offset, field.value.next - offset);
        ListsAgree(payload, field.value.next, lists + [Names(field.value.value).value]);
      }
    }
  }

  /** A packet that the strict reader takes is the one that the transport scan takes, unless its payload is empty. */
  lemma FrontsAgree(s: Octets)
    requires FrontPacket(s).Ok? && ScanClear(s).Stopped?
    ensures var front := FrontPacket(s).value;
            && front.payload != []
            && ScanClear(s) == if front.payload[0] == NEWKEYS then Stopped([front.payload], front.rest)
                               else Before(front.payload, ScanClear(front.rest))
  {
    hide BigEndian, ScanClear, Before;
    SshWire.ScanStep(s);
    assert ClearFront(s) == Malformed || ClearFront(s)
        == Packet(FrontPacket(s).value.payload, FrontPacket(s).value.rest);
  }

  lemma {:induction false} KexinitsAgree(s: Octets)
    requires ScanClear(s).Stopped? && FirstOf(ScanClear(s).packets, KEXINIT).Ok? && FirstKexinitIn(s).Ok?
    ensures NameLists(FirstOf(ScanClear(s).packets, KEXINIT).value) == FirstKexinitIn(s)
    decreases |s|
  {
    hide ScanClear, FirstKexinitIn, FrontPacket, ListsFrom, ReadLists;
    FirstKexinitStep(s);
    FrontsAgree(s);
    var front := FrontPacket(s).value;
    var packets := ScanClear(s).packets;
    if IsKexinit(front.payload) {
      var p := front.payload;
      ListsAgree(p, 17, []);
      assert p[1..][16..] == Skip(p, 17);
      assert packets[0] == p;
    } else if front.payload[0] != NEWKEYS {
      assert packets[1..] == ScanClear(front.rest).packets;
      KexinitsAgree(front.rest);
    }
  }

  /** On every stream that both parsers accept they find the same ten name-lists. */
  lemma ParsersAgree(stream: Octets)
    requires Transported(stream).Ok? && FirstOf(Transported(stream).value.packets, KEXINIT).Ok?
    requires FirstKexinit(stream).Ok?
    ensures NameLists(FirstOf(Transported(stream).value.packets, KEXINIT).value) == FirstKexinit(stream)
  {
    hide ScanClear, FirstKexinitIn, Identification, NameLists;
    KexinitsAgree(Identification(stream).value.rest);
  }

  // ----- What a KEXINIT was written with is what it is read as

  /** Texts that decode as ASCII, and the names each of them holds. */
  ghost predicate AllAscii(texts: seq<Octets>) {
    forall i, k :: 0 <= i < |texts| && 0 <= k < |texts[i]| ==> texts[i][k] < 128
  }

  function NamesOf(texts: seq<Octets>): (lists: seq<seq<Name>>)
    requires AllAscii(texts)
    ensures |lists| == |texts| && forall i :: 0 <= i < |lists| ==> Names(texts[i]) == Ok(lists[i])
  {
    seq(|texts|, i requires 0 <= i < |texts| => Names(texts[i]).value)
  }

  lemma {:induction false} ListsRoundTrip(before: Octets, texts: seq<Octets>, rest: Octets, lists: seq<seq<Name>>,
      payload: Octets)
    requires |lists| + |texts| == LISTS && AllFit(texts) && AllAscii(texts)
    requires payload == before + Strings(texts) + rest
    ensures ListsFrom(payload, |before|, lists) == Ok(lists + NamesOf(texts))
    decreases |texts|
  {
    hide ListsFrom, ReadString, SshString, Names;
    ListsStep(payload, |before|, lists);
    if texts == [] {
      assert lists + [] == lists;
    } else {
      var first, more := SshString(texts[0]), texts[1..];
      var tail := Strings(more) + rest;
      assert payload == before + first + tail;
      StringRoundTrip(before, texts[0], tail);
      StringSizes(texts[0]);
      assert payload == (before + first) + Strings(more) + rest;
      var names := NamesOf(texts)[0];
      assert Names(texts[0]) == Ok(names);
      ListsRoundTrip(before + first, more, rest, lists + [names], payload);
      assert lists + [names] + NamesOf(more) == lists + NamesOf(texts);
    }
  }

  lemma FrontSkipped(front: Octets, tail: Octets, s: Octets)
    requires s == front + tail
    ensures Skip(s, |front|) == tail
  {
  }

  /** A text that is not ASCII is refused wherever it stands. */
  lemma {:induction false} NonAsciiRefused(texts: seq<Octets>, rest: Octets, lists: seq<seq<Name>>, s: Octets)
    requires |lists| + |texts| == LISTS && AllFit(texts) && !AllAscii(texts)
    requires s == Strings(texts) + rest
    ensures ReadLists(s, lists) == Err(ValueError)
    decreases |texts|
  {
    hide ReadLists, ReadString, SshString, Split, Skip;
    ReadListsStep(s, lists);
    var first, more := SshString(texts[0]), texts[1..];
    var tail := Strings(more) + rest;
    Regroup(first, Strings(more), rest);
    assert [] + first + tail == s;
    StringRoundTrip([], texts[0], tail);
    StringSizes(texts[0]);
    FrontSkipped(first, tail, s);
    if IsAscii(texts[0]) {
      assert texts == [texts[0]] + more;
      NonAsciiRefused(more, rest, lists + [Names(texts[0]).value], tail);
    }
  }

  /** Ten texts written after the cookie are read back as their names when they are ASCII, whatever follows them. */
  lemma KexinitRoundTrip(cookie: Octets, texts: seq<Octets>, rest: Octets, payload: Octets)
    requires |cookie| == 16 && |texts| == 10 && AllFit(texts)
    requires payload == [20] + cookie + Strings(texts) + rest
    ensures AllAscii(texts) ==> NameLists(payload) == Ok(NamesOf(texts))
    ensures !AllAscii(texts) ==> NameLists(payload).Err?
  {
    hide ListsFrom, ReadLists, Strings, NamesOf, AllAscii;
    if AllAscii(texts) {
      ListsRoundTrip([20] + cookie, texts, rest, [], payload);
      assert [] + NamesOf(texts) == NamesOf(texts);
    } else {
      assert Skip(payload, 17) == Strings(texts) + rest;
      NonAsciiRefused(texts, rest, [], Skip(payload, 17));
      ListsAgree(payload, 17, []);
    }
  }

  lemma {:induction false} ReaderListsRoundTrip(texts: seq<Octets>, rest: Octets, lists: seq<seq<Name>>, s: Octets)
    requires |lists| + |texts| == LISTS && AllFit(texts) && AllAscii(texts)
    requires s == Strings(texts) + rest
    ensures ReadLists(s, lists) == Ok((lists + NamesOf(texts), rest))
    decreases |texts|
  {
    hide ReadLists, ReadString, SshString, Names, Skip;
    ReadListsStep(s, lists);
    if texts == [] {
      LeftAndRightUnit(rest);
      assert lists + [] == lists;
    } else {
      var first, more := SshString(texts[0]), texts[1..];
      var tail := Strings(more) + rest;
      Regroup(first, Strings(more), rest);
      assert [] + first + tail == s;
      StringRoundTrip([], texts[0], tail);
      StringSizes(texts[0]);
      FrontSkipped(first, tail, s);
      var names := NamesOf(texts)[0];
      assert Names(texts[0]) == Ok(names);
      ReaderListsRoundTrip(more, rest, lists + [names], tail);
      assert lists + [names] + NamesOf(more) == lists + NamesOf(texts);
    }
  }

  /** After ten texts, all of them ASCII, the message must hold exactly five more bytes. */
  lemma KexinitFieldsExactly(cookie: Octets, texts: seq<Octets>, tail: Octets, fields: Octets)
    requires |cookie| == 16 && |texts| == 10 && AllFit(texts)
    requires fields == cookie + Strings(texts) + tail
    ensures KexinitFields(fields)
            == if AllAscii(texts) && |tail| == 5 then Ok(NamesOf(texts)) else Err(ValueError)
  {
    hide ReadLists, Strings, NamesOf, AllAscii;
    assert fields[16..] == Strings(texts) + tail;
    if AllAscii(texts) {
      ReaderListsRoundTrip(texts, tail, [], fields[16..]);
      assert [] + NamesOf(texts) == NamesOf(texts);
    } else {
      NonAsciiRefused(texts, tail, [], fields[16..]);
    }
  }

  /** A framed packet is read whole, whatever follows it, exactly when its length is at most 35000. */
  lemma FramedFront(p: Sent, rest: Octets, s: Octets)
    requires Sendable(p) && s == ClearPacket(p) + rest
    ensures FrontPacket(s) == if |Body(p)| <= 35000 then Ok(Front(p.payload, rest)) else Err(ValueError)
  {
    hide Body, BigEndian;
    var b := Body(p);
    assert s[..4] == U32(|b|);
    assert s[4] == b[0];
    assert s[5..4 + |b| - s[4]] == b[1..|b| - |p.padding|];
    assert s[4 + |b|..] == rest;
  }

  /** The packets before the first KEXINIT are passed over. */
  lemma {:induction false} KexinitReached(earlier: seq<Sent>, p: Sent, rest: Octets, s: Octets)
    requires AllSendable(earlier) && Sendable(p) && |Body(p)| <= 35000 && IsKexinit(p.payload)
    requires forall i :: 0 <= i < |earlier| ==> |Body(earlier[i])| <= 35000 && !IsKexinit(earlier[i].payload)
    requires s == ClearStream(earlier) + (ClearPacket(p) + rest)
    ensures FirstKexinitIn(s) == KexinitFields(p.payload[1..])
  {
    hide FirstKexinitIn, FrontPacket, KexinitFields, IsKexinit, Body, ClearPacket;
    FirstKexinitStep(s);
    if earlier == [] {
      LeftAndRightUnit(ClearPacket(p) + rest);
      FramedFront(p, rest, s);
    } else {
      var later := ClearStream(earlier[1..]) + (ClearPacket(p) + rest);
      Regroup(ClearPacket(earlier[0]), ClearStream(earlier[1..]), ClearPacket(p) + rest);
      FramedFront(earlier[0], later, s);
      KexinitReached(earlier[1..], p, rest, later);
    }
  }

  /**
   * Profile validation accepts every KEXINIT: after the identification line, and after any other packets, a message
   * number of 20, a cookie of 16 bytes, ten ASCII texts, a flag and four reserved bytes give the names of the texts;
   * section 7.1 of RFC 4253. More or fewer bytes after the texts are refused, and so is a text that is not ASCII.
   */
  lemma KexinitAccepted(before: Octets, version: Octets, n: nat, earlier: seq<Sent>, cookie: Octets,
      texts: seq<Octets>, tail: Octets, padding: Octets, rest: Octets, stream: Octets)
    requires Announced(before, version) && AllSendable(earlier)
    requires |cookie| == 16 && |texts| == 10 && AllFit(texts)
    requires forall i :: 0 <= i < |earlier| ==> |Body(earlier[i])| <= 35000 && earlier[i].payload[0] != 20
    requires var p := Sent([20] + cookie + Strings(texts) + tail, padding);
             && Sendable(p) && |Body(p)| <= 35000
             && stream == before + IdentificationLine(version, n) + (ClearStream(earlier) + (ClearPacket(p) + rest))
    ensures FirstKexinit(stream)
            == if AllAscii(texts) && |tail| == 5 then Ok(NamesOf(texts)) else Err(ValueError)
  {
    hide FirstKexinitIn, KexinitFields, Identification, IdentificationLine, Strings, NamesOf, ClearPacket, ClearStream,
      Announced, AllAscii;
    var fields := cookie + Strings(texts) + tail;
    var payload := [20] + cookie + Strings(texts) + tail;
    assert payload == [20] + fields && payload[1..] == fields;
    var p := Sent(payload, padding);
    IdentificationFound(before, version, n, ClearStream(earlier) + (ClearPacket(p) + rest));
    KexinitReached(earlier, p, rest, ClearStream(earlier) + (ClearPacket(p) + rest));
    KexinitFieldsExactly(cookie, texts, tail, fields);
  }

  /** A text without a comma is one name. */
  lemma {:induction false} OneName(text: Octets)
    requires 44 !in text
    ensures Split(text) == [text]
  {
    if text != [] {
      OneName(text[1..]);
      assert [text[0]] + text[1..] == text;
    }
  }

  // ----- Negotiation

  /** The client's first choice that the server also offers. */
  function FirstCommon(client: seq<Name>, server: seq<Name>): Result<Name> {
    if client == [] then Err(ValueError)
    else if client[0] in server then Ok(client[0])
    else FirstCommon(client[1..], server)
  }

  /** name is the client's first choice that the server also offers. */
  ghost predicate Preferred(client: seq<Name>, server: seq<Name>, name: Name) {
    exists i :: 0 <= i < |client| && client[i] == name && name in server
                && forall j :: 0 <= j < i ==> client[j] !in server
  }

  /** negotiate_name */
  method NegotiateName(client: seq<Name>, server: seq<Name>) returns (r: Result<Name>)
    ensures r.Ok? ==> Preferred(client, server, r.value)
    ensures r.Err? <==> forall j :: 0 <= j < |client| ==> client[j] !in server
    ensures r == FirstCommon(client, server)
  {
    var offered := set name | name in server;
    for i := 0 to |client|
      invariant forall j :: 0 <= j < i ==> client[j] !in server
      invariant FirstCommon(client, server) == FirstCommon(client[i..], server)
    {
      if client[i] in offered {
        return Ok(client[i]);
      }
      assert client[i..][1..] == client[i + 1..];
    }
    return Err(ValueError);
  }

  datatype Negotiated = Negotiated(kex: Name, hostKey: Name, cipherC2S: Name, cipherS2C: Name)

  /** The choices extract_initial_kex makes from both peers' lists. */
  function Negotiate(client: seq<seq<Name>>, server: seq<seq<Name>>): Result<Negotiated>
    requires |client| == |server| == LISTS
  {
    var kex :- FirstCommon(client[0], server[0]);
    var hostKey :- FirstCommon(client[1], server[1]);
    var cipherC2S :- FirstCommon(client[2], server[2]);
    var cipherS2C :- FirstCommon(client[3], server[3]);
    Ok(Negotiated(kex, hostKey, cipherC2S, cipherS2C))
  }

  lemma {:induction false} FirstCommonExactly(client: seq<Name>, server: seq<Name>, name: Name)
    ensures FirstCommon(client, server) == Ok(name) <==> Preferred(client, server, name)
  {
    if client != [] {
      var more := client[1..];
      FirstCommonExactly(more, server, name);
      if client[0] !in server {
        if Preferred(more, server, name) {
          var i :| 0 <= i < |more| && more[i] == name && name in server
                   && forall j :: 0 <= j < i ==> more[j] !in server;
          assert client[i + 1] == name;
          forall j | 0 <= j < i + 1
            ensures client[j] !in server
          {
            assert j > 0 ==> client[j] == more[j - 1];
          }
        }
        if Preferred(client, server, name) {
          var i :| 0 <= i < |client| && client[i] == name && name in server
                   && forall j :: 0 <= j < i ==> client[j] !in server;
          assert more[i - 1] == name;
          assert forall j :: 0 <= j < i - 1 ==> more[j] == client[j + 1];
        }
      } else if Preferred(client, server, name) {
        var i :| 0 <= i < |client| && client[i] == name && name in server
                 && forall j :: 0 <= j < i ==> client[j] !in server;
        assert i == 0;
      } else {
        assert client[0] == name ==> Preferred(client, server, name);
      }
    }
  }

  /**
   * The first four lists are the key exchange, host key and both ciphers, client to server first; each choice is the
   * client's first that the server also lists. Section 7.1 of RFC 4253.
   */
  lemma NegotiatedExactly(client: seq<seq<Name>>, server: seq<seq<Name>>, n: Negotiated)
    requires |client| == |server| == LISTS
    ensures Negotiate(client, server) == Ok(n) <==>
            && Preferred(client[0], server[0], n.kex) && Preferred(client[1], server[1], n.hostKey)
            && Preferred(client[2], server[2], n.cipherC2S) && Preferred(client[3], server[3], n.cipherS2C)
  {
    hide FirstCommon, Preferred;
    FirstCommonExactly(client[0], server[0], n.kex);
    FirstCommonExactly(client[1], server[1], n.hostKey);
    FirstCommonExactly(client[2], server[2], n.cipherC2S);
    FirstCommonExactly(client[3], server[3], n.cipherS2C);
  }

  /** The choices _validate_profile makes: key exchange and the two ciphers. */
  function ProfileChoices(client: Octets, server: Octets): Result<(Name, Name, Name)> {
    var c :- FirstKexinit(client);
    var s :- FirstKexinit(server);
    var kex :- FirstCommon(c[0], s[0]);
    var cipherC2S :- FirstCommon(c[2], s[2]);
    var cipherS2C :- FirstCommon(c[3], s[3]);
    Ok((kex, cipherC2S, cipherS2C))
  }

  // ----- One key exchange

  datatype Exchange = Exchange(clientKexinit: Octets, serverKexinit: Octets, hostKey: Octets,
                               clientPublic: Octets, serverPublic: Octets, signature: Octets)

  /** extract_kex_exchange */
  function ExtractExchange(client: seq<Octets>, server: seq<Octets>): Result<Exchange> {
    var clientKexinit :- FirstOf(client, KEXINIT);
    var serverKexinit :- FirstOf(server, KEXINIT);
    var init :- FirstOf(client, ECDH_INIT);
    var reply :- FirstOf(server, ECDH_REPLY);
    var clientPublic :- ReadString(init, 1);
    if clientPublic.next != |init| then Err(ValueError)
    else
      var hostKey :- ReadString(reply, 1);
      var serverPublic :- ReadString(reply, hostKey.next);
      var signature :- ReadString(reply, serverPublic.next);
      if signature.next != |reply| then Err(ValueError)
      else Ok(Exchange(clientKexinit, serverKexinit, hostKey.value, clientPublic.value, serverPublic.value,
          signature.value))
  }

  function InitMessage(clientPublic: Octets): Octets
    requires Fits(clientPublic)
  {
    [30] + SshString(clientPublic)
  }

  function ReplyMessage(hostKey: Octets, serverPublic: Octets, signature: Octets): Octets
    requires Fits(hostKey) && Fits(serverPublic) && Fits(signature)
  {
    [31] + SshString(hostKey) + SshString(serverPublic) + SshString(signature)
  }

  /** The first message of each kind in either direction is the one the exchange names; section 4 of RFC 8731. */
  ghost predicate Announces(client: seq<Octets>, server: seq<Octets>, x: Exchange) {
    && Fits(x.hostKey) && Fits(x.clientPublic) && Fits(x.serverPublic) && Fits(x.signature)
    && FirstOf(client, 20) == Ok(x.clientKexinit)
    && FirstOf(server, 20) == Ok(x.serverKexinit)
    && FirstOf(client, 30) == Ok(InitMessage(x.clientPublic))
    && FirstOf(server, 31) == Ok(ReplyMessage(x.hostKey, x.serverPublic, x.signature))
  }

  lemma InitFields(init: Octets, value: Octets)
    requires init != [] && init[0] == ECDH_INIT
    ensures ReadString(init, 1) == Ok(Field(value, |init|)) <==> Fits(value) && init == InitMessage(value)
  {
    hide BigEndian;
    if Fits(value) && init == InitMessage(value) {
      assert init == [ECDH_INIT] + SshString(value) + [];
      StringRoundTrip([ECDH_INIT], value, []);
    }
    if ReadString(init, 1) == Ok(Field(value, |init|)) {
      StringWasWritten(init, 1);
      assert init == [init[0]] + init[1..|init|];
    }
  }

  lemma ReplyRoundTrip(hostKey: Octets, serverPublic: Octets, signature: Octets)
    requires Fits(hostKey) && Fits(serverPublic) && Fits(signature)
    ensures var reply := ReplyMessage(hostKey, serverPublic, signature);
            var a := 5 + |hostKey|;
            var b := a + 4 + |serverPublic|;
            && ReadString(reply, 1) == Ok(Field(hostKey, a))
            && ReadString(reply, a) == Ok(Field(serverPublic, b))
            && ReadString(reply, b) == Ok(Field(signature, |reply|))
  {
    hide SshString, ReadString;
    var k, q, g := SshString(hostKey), SshString(serverPublic), SshString(signature);
    var reply := ReplyMessage(hostKey, serverPublic, signature);
    StringSizes(hostKey);
    StringSizes(serverPublic);
    StringSizes(signature);
    assert reply == [ECDH_REPLY] + k + (q + g);
    StringRoundTrip([ECDH_REPLY], hostKey, q + g);
    StringRoundTrip([ECDH_REPLY] + k, serverPublic, g);
    assert reply == [ECDH_REPLY] + k + q + g + [];
    StringRoundTrip([ECDH_REPLY] + k + q, signature, []);
  }

  lemma ReplyWasWritten(reply: Octets)
    requires reply != [] && reply[0] == ECDH_REPLY
    requires ReadString(reply, 1).Ok?
    requires var k := ReadString(reply, 1).value;
             ReadString(reply, k.next).Ok?
    requires var q := ReadString(reply, ReadString(reply, 1).value.next).value;
             ReadString(reply, q.next).Ok? && ReadString(reply, q.next).value.next == |reply|
    ensures var k := ReadString(reply, 1).value;
            var q := ReadString(reply, k.next).value;
            var g := ReadString(reply, q.next).value;
            && Fits(k.value) && Fits(q.value) && Fits(g.value)
            && reply == ReplyMessage(k.value, q.value, g.value)
  {
    hide ReadString, SshString;
    var k := ReadString(reply, 1).value;
    var q := ReadString(reply, k.next).value;
    StringWasWritten(reply, 1);
    StringWasWritten(reply, k.next);
    StringWasWritten(reply, q.next);
    assert reply == [reply[0]] + reply[1..k.next] + reply[k.next..q.next] + reply[q.next..|reply|];
  }

  lemma {:induction false} FirstOfType(packets: seq<Octets>, messageType: Byte)
    requires FirstOf(packets, messageType).Ok?
    ensures var p := FirstOf(packets, messageType).value;
            p in packets && p != [] && p[0] == messageType
  {
    if !(packets[0] != [] && packets[0][0] == messageType) {
      FirstOfType(packets[1..], messageType);
    }
  }

  /** An exchange is extracted exactly when both peers' first messages announce it. */
  lemma ExchangeExactly(client: seq<Octets>, server: seq<Octets>, x: Exchange)
    ensures ExtractExchange(client, server) == Ok(x) <==> Announces(client, server, x)
  {
    hide FirstOf, ReadString, InitMessage, ReplyMessage;
    if Announces(client, server, x) {
      var init := InitMessage(x.clientPublic);
      FirstOfType(client, ECDH_INIT);
      InitFields(init, x.clientPublic);
      ReplyRoundTrip(x.hostKey, x.serverPublic, x.signature);
    }
    if ExtractExchange(client, server) == Ok(x) {
      FirstOfType(client, ECDH_INIT);
      FirstOfType(server, ECDH_REPLY);
      InitFields(FirstOf(client, ECDH_INIT).value, x.clientPublic);
      ReplyWasWritten(FirstOf(server, ECDH_REPLY).value);
    }
  }

  // ----- extract_initial_kex

  datatype Kex = Kex(clientVersion: Octets, serverVersion: Octets, exchange: Exchange, negotiated: Negotiated,
                     strict: bool, encryptedC2S: Octets, encryptedS2C: Octets, clearC2S: nat, clearS2C: nat)

  function StrictClient(): Name {
    Text("kex-strict-c-v00@openssh.com")
  }

  function StrictServer(): Name {
    Text("kex-strict-s-v00@openssh.com")
  }

  function ExtractInitialKex(clientStream: Octets, serverStream: Octets): Result<Kex> {
    var client :- Transported(clientStream);
    var server :- Transported(serverStream);
    var exchange :- ExtractExchange(client.packets, server.packets);
    var clientLists :- NameLists(exchange.clientKexinit);
    var serverLists :- NameLists(exchange.serverKexinit);
    var negotiated :- Negotiate(clientLists, serverLists);
    var strict := StrictClient() in clientLists[0] && StrictServer() in serverLists[0];
    Ok(Kex(client.version, server.version, exchange, negotiated, strict,
           client.encrypted, server.encrypted, |client.packets|, |server.packets|))
  }

  lemma {:induction false} NoCommonName(client: seq<Name>, server: seq<Name>)
    ensures FirstCommon(client, server).Err? ==> FirstCommon(client, server) == Err(ValueError)
  {
    if client != [] {
      NoCommonName(client[1..], server);
    }
  }

  lemma {:induction false} NoSuchMessage(packets: seq<Octets>, messageType: Byte)
    ensures FirstOf(packets, messageType).Err? ==> FirstOf(packets, messageType) == Err(ValueError)
  {
    if packets != [] {
      NoSuchMessage(packets[1..], messageType);
    }
  }

  lemma NoExchange(client: seq<Octets>, server: seq<Octets>)
    ensures ExtractExchange(client, server).Err? ==> ExtractExchange(client, server) == Err(ValueError)
  {
    hide FirstOf;
    NoSuchMessage(client, KEXINIT);
    NoSuchMessage(server, KEXINIT);
    NoSuchMessage(client, ECDH_INIT);
    NoSuchMessage(server, ECDH_REPLY);
  }

  lemma NothingAgreed(client: seq<seq<Name>>, server: seq<seq<Name>>)
    requires |client| == |server| == LISTS
    ensures Negotiate(client, server).Err? ==> Negotiate(client, server) == Err(ValueError)
  {
    hide FirstCommon;
    NoCommonName(client[0], server[0]);
    NoCommonName(client[1], server[1]);
    NoCommonName(client[2], server[2]);
    NoCommonName(client[3], server[3]);
  }

  /** Streams that hold no initial key exchange, in the order given, are refused with a value error. */
  lemma InitialKexRefused(clientStream: Octets, serverStream: Octets)
    ensures var r := ExtractInitialKex(clientStream, serverStream);
            r.Err? ==> r == Err(ValueError)
  {
    hide Transported, NameLists, Negotiate, ExtractExchange, StrictClient, StrictServer;
    TransportRefused(clientStream);
    TransportRefused(serverStream);
    var client, server := Transported(clientStream), Transported(serverStream);
    if client.Ok? && server.Ok? {
      var x := ExtractExchange(client.value.packets, server.value.packets);
      NoExchange(client.value.packets, server.value.packets);
      if x.Ok? {
        ParsersRefuse(clientStream, x.value.clientKexinit);
        ParsersRefuse(serverStream, x.value.serverKexinit);
        var c, s := NameLists(x.value.clientKexinit), NameLists(x.value.serverKexinit);
        if c.Ok? && s.Ok? {
          NothingAgreed(c.value, s.value);
        }
      }
    }
  }

  /** The markers by which the peers announce strict key exchange are OpenSSH's. */
  lemma StrictNames()
    ensures StrictClient() == Text("kex-strict-c-v00@openssh.com")
    ensures StrictServer() == Text("kex-strict-s-v00@openssh.com")
  {
    hide Text;
  }

  /** On every pair of streams that both negotiations accept they choose the same key exchange and ciphers. */
  lemma NegotiationsAgree(clientStream: Octets, serverStream: Octets)
    requires ExtractInitialKex(clientStream, serverStream).Ok? && ProfileChoices(clientStream, serverStream).Ok?
    ensures var kex := ExtractInitialKex(clientStream, serverStream).value;
            ProfileChoices(clientStream, serverStream).value
            == (kex.negotiated.kex, kex.negotiated.cipherC2S, kex.negotiated.cipherS2C)
  {
    hide Transported, FirstKexinit, NameLists, FirstCommon, FirstOf, ReadString, StrictClient, StrictServer;
    ParsersAgree(clientStream);
    ParsersAgree(serverStream);
  }

  // ----- _classify_streams

  datatype Classified = Classified(client: Octets, server: Octets, kex: Kex)

  function Classify(first: Octets, second: Octets): Result<Classified> {
    var straight := ExtractInitialKex(first, second);
    if straight.Ok? then Ok(Classified(first, second, straight.value))
    else
      var swapped := ExtractInitialKex(second, first);
      if swapped.Ok? then Ok(Classified(second, first, swapped.value)) else Err(ValueError)
  }

  lemma NotClassified(first: Octets, second: Octets)
    ensures Classify(first, second).Err? ==> Classify(first, second) == Err(ValueError)
  {
    hide ExtractInitialKex;
  }

  /** Only the true order is accepted when the server's clear packets hold no client message. */
  lemma ClassifiedInEitherOrder(client: Octets, server: Octets)
    requires ExtractInitialKex(client, server).Ok?
    requires FirstOf(Transported(server).value.packets, ECDH_INIT).Err?
    ensures var kex := ExtractInitialKex(client, server).value;
            Classify(client, server) == Classify(server, client) == Ok(Classified(client, server, kex))
  {
    hide Transported, NameLists, FirstOf, ReadString, StrictClient, StrictServer, Negotiate;
  }
}
