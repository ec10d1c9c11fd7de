/**
 * The hypotheses of the end-to-end recovery results can be met, and both outcomes occur: sessions of two epochs,
 * under a toy cipher, hash and signature, that the recovery of decryptor/ssh/derive_ssh.py takes apart or refuses.
 *
 * The cipher leaves data as it is, tags are constant, and a digest is the parity of the length. The one accepted
 * signature is over the peers' digest. Both streams open with name-lists that agree on the expected profile. The
 * first epoch carries the next exchange and ends in NEWKEYS; the second carries the test marker.
 */
module SshExample {
  import opened Bytes
  import opened SshWire
  import opened SshNegotiation
  import opened SshKeys
  import opened SshCipher
  import opened SshOracle
  import opened SshRecovery
  import opened SshSessions

  /** A secret without a leading zero; ZERO_LED is the other. */
  const SECRET: Octets := [1] + Zeros(31)

  function ToyDigest(n: nat): (digest: Octets)
    ensures |digest| == 32
  {
    if n % 2 == 0 then Zeros(32) else [1] + Zeros(31)
  }

  /** What the toy transcripts hold besides the secret's bytes. */
  const TRANSCRIPT_OVERHEAD: nat := 451

  function ToyCrypto(raw: Octets): Crypto {
    Crypto(Cipher((key, sequence, counter, data) => data, (key, data) => Zeros(16)),
           data => ToyDigest(|data|), 32, scalar => Zeros(32), (scalar, peer) => Some(raw),
           (key, signature, h) => h == ToyDigest(TRANSCRIPT_OVERHEAD + |Mpint(raw)|))
  }

  lemma TextSizes()
    ensures |Ed25519()| == 11 && |TestMarker()| == 11
  {
  }

  function Blob(value: Octets): Octets
    requires Fits(value)
  {
    TextSizes();
    SshString(Ed25519()) + SshString(value)
  }

  /** The name-lists both peers announce: one choice each of what the profile expects, and six empty lists. */
  function Announcement(): (texts: seq<Octets>)
    ensures |texts| == LISTS
  {
    [ExpectedKex(), Ed25519(), ExpectedCipher(), ExpectedCipher(), [], [], [], [], [], []]
  }

  lemma KexIsAName()
    ensures |ExpectedKex()| == 17 && IsAscii(ExpectedKex()) && COMMA !in ExpectedKex()
  {
  }

  lemma HostKeyIsAName()
    ensures |Ed25519()| == 11 && IsAscii(Ed25519()) && COMMA !in Ed25519()
  {
  }

  lemma CipherIsAName()
    ensures |ExpectedCipher()| == 29 && IsAscii(ExpectedCipher()) && COMMA !in ExpectedCipher()
  {
  }

  lemma AnnouncementIsText()
    ensures AllFit(Announcement()) && AllAscii(Announcement())
  {
    hide ExpectedKex, ExpectedCipher, Ed25519;
    KexIsAName();
    HostKeyIsAName();
    CipherIsAName();
  }

  lemma StringsSize(texts: seq<Octets>, more: seq<Octets>)
    requires AllFit(texts) && texts != [] && more == texts[1..]
    ensures AllFit(more) && |Strings(texts)| == 4 + |texts[0]| + |Strings(more)|
  {
    hide SshString;
    StringSizes(texts[0]);
  }

  lemma AnnouncementSize(texts: seq<Octets>)
    requires texts == Announcement()
    ensures AllFit(texts) && |Strings(texts)| == 126
  {
    hide SshString, ExpectedKex, ExpectedCipher, Ed25519;
    AnnouncementIsText();
    KexIsAName();
    HostKeyIsAName();
    CipherIsAName();
    StringsSize(texts, texts[1..]);
    StringsSize(texts[1..], texts[2..]);
    StringsSize(texts[2..], texts[3..]);
    StringsSize(texts[3..], texts[4..]);
    StringsSize(texts[4..], texts[5..]);
    StringsSize(texts[5..], texts[6..]);
    StringsSize(texts[6..], texts[7..]);
    StringsSize(texts[7..], texts[8..]);
    StringsSize(texts[8..], texts[9..]);
    StringsSize(texts[9..], []);
    NoStrings();
  }

  function Kexinit(): (payload: Octets)
    ensures |payload| == 148 && payload[0] == KEXINIT
  {
    AnnouncementSize(Announcement());
    [KEXINIT] + Zeros(16) + Strings(Announcement()) + Zeros(5)
  }

  function ToyExchange(): Exchange {
    Exchange(Kexinit(), Kexinit(), Blob(Zeros(32)), Zeros(32), Zeros(32), Blob([]))
  }

  lemma BlobReads(value: Octets)
    requires |value| <= 32
    ensures Ed25519Value(Blob(value)) == Ok(value) && |Blob(value)| == 19 + |value|
  {
    hide SshString, ReadString, Ed25519;
    TextSizes();
    StringSizes(Ed25519());
    StringSizes(value);
    assert Blob(value) == [] + SshString(Ed25519()) + SshString(value);
    StringRoundTrip([], Ed25519(), SshString(value));
    assert Blob(value) == SshString(Ed25519()) + SshString(value) + [];
    StringRoundTrip(SshString(Ed25519()), value, []);
  }

  function Padded(payload: Octets): Sent {
    Sent(payload, Zeros(4))
  }

  function Reply(): Octets {
    BlobReads(Zeros(32));
    BlobReads([]);
    ReplyMessage(Blob(Zeros(32)), Zeros(32), Blob([]))
  }

  function MarkerMessage(): Octets {
    TextSizes();
    [CHANNEL_DATA, 0, 0, 0, 0] + SshString(TestMarker())
  }

  /** An epoch that carries the next exchange, then one that carries the test marker. */
  function ToySession(raw: Octets): seq<PeerEpoch> {
    [PeerEpoch(ToyExchange(), raw,
               [Padded(Kexinit()), Padded(InitMessage(Zeros(32))), Padded([NEWKEYS])],
               [Padded(Kexinit()), Padded(Reply()), Padded([NEWKEYS])]),
     PeerEpoch(ToyExchange(), raw, [], [Padded(MarkerMessage())])]
  }

  function ToyKex(c2s: Octets, s2c: Octets): Kex {
    Kex(SSH_DASH, SSH_DASH, ToyExchange(), Negotiated(ExpectedKex(), Ed25519(), ExpectedCipher(), ExpectedCipher()),
        false, c2s, s2c, 3, 3)
  }

  lemma ToySane(raw: Octets)
    ensures Sane(ToyCrypto(raw))
  {
  }

  lemma MessageSizes()
    ensures |InitMessage(Zeros(32))| == 37 && InitMessage(Zeros(32))[0] == ECDH_INIT
    ensures |Reply()| == 1 + 55 + 36 + 23 && Reply()[0] == ECDH_REPLY
    ensures |MarkerMessage()| == 20 && MarkerMessage()[0] == CHANNEL_DATA
        && MarkerMessage()[5..] == SshString(TestMarker())
  {
    hide SshString, TestMarker;
    BlobReads(Zeros(32));
    BlobReads([]);
    TextSizes();
    StringSizes(Zeros(32));
    StringSizes(Blob(Zeros(32)));
    StringSizes(Blob([]));
    StringSizes(TestMarker());
  }

  lemma PaddedIsSendable(payload: Octets)
    requires 0 < |payload| < 1000
    ensures Sendable(Padded(payload))
  {
  }

  lemma ToySends(raw: Octets, e: PeerEpoch)
    requires e in ToySession(raw)
    ensures AllSendable(e.c2s) && AllSendable(e.s2c)
  {
    hide Padded, InitMessage, Reply, MarkerMessage, Sendable, Kexinit;
    MessageSizes();
    PaddedIsSendable(Kexinit());
    PaddedIsSendable([NEWKEYS]);
    PaddedIsSendable(InitMessage(Zeros(32)));
    PaddedIsSendable(Reply());
    PaddedIsSendable(MarkerMessage());
  }

  lemma ToyPayloads(raw: Octets)
    ensures Payloads(ToySession(raw)[0].c2s) == [Kexinit(), InitMessage(Zeros(32)), [NEWKEYS]]
    ensures Payloads(ToySession(raw)[0].s2c) == [Kexinit(), Reply(), [NEWKEYS]]
    ensures Payloads(ToySession(raw)[1].c2s) == []
    ensures Payloads(ToySession(raw)[1].s2c) == [MarkerMessage()]
  {
    hide InitMessage, Reply, MarkerMessage, Kexinit;
  }

  lemma ChunkFirst(payloads: seq<Octets>)
    requires payloads != [] && payloads[0] != [] && payloads[0][0] != CHANNEL_DATA
    ensures ChannelChunks(payloads) == ChannelChunks(payloads[1..])
    ensures ChannelChunks([]) == Ok([])
  {
  }

  lemma ToyChannels()
    ensures ChannelChunks([Kexinit(), Reply(), [NEWKEYS]]) == Ok([])
    ensures ChannelChunks([MarkerMessage()]) == Ok([TestMarker()])
  {
    hide InitMessage, Reply, MarkerMessage, TestMarker, SshString, ReadString, Kexinit;
    MessageSizes();
    TextSizes();
    ChannelDataExactly(MarkerMessage(), TestMarker());
    var s: seq<Octets> := [Kexinit(), Reply(), [NEWKEYS]];
    assert s[1..] == [Reply(), [NEWKEYS]] && s[1..][1..] == [[NEWKEYS]] && s[1..][1..][1..] == [];
    ChunkFirst(s);
    ChunkFirst(s[1..]);
    ChunkFirst(s[1..][1..]);
    var m: seq<Octets> := [MarkerMessage()];
    assert m[1..] == [];
    assert [TestMarker()] + [] == [TestMarker()];
  }

  lemma FirstIs(packets: seq<Octets>, messageType: Byte)
    requires |packets| > 1 && packets[0] == Kexinit() && packets[1] != [] && packets[1][0] == messageType != KEXINIT
    ensures FirstOf(packets, messageType) == Ok(packets[1]) && FirstOf(packets, KEXINIT) == Ok(packets[0])
  {
    assert packets[1..][0] == packets[1];
  }

  lemma ToyAnnounces()
    ensures Announces([Kexinit(), InitMessage(Zeros(32)), [NEWKEYS]], [Kexinit(), Reply(), [NEWKEYS]], ToyExchange())
  {
    hide InitMessage, ReplyMessage, Blob, Kexinit;
    MessageSizes();
    BlobReads(Zeros(32));
    BlobReads([]);
    var c: seq<Octets>, s: seq<Octets> := [Kexinit(), InitMessage(Zeros(32)), [NEWKEYS]],
        [Kexinit(), Reply(), [NEWKEYS]];
    FirstIs(c, ECDH_INIT);
    FirstIs(s, ECDH_REPLY);
  }

  lemma ToyTranscript(secret: Octets)
    requires |secret| <= 33
    ensures Hashable(SSH_DASH, SSH_DASH, ToyExchange())
    ensures Transcript(SSH_DASH, SSH_DASH, ToyExchange(), secret).Ok?
    ensures |Transcript(SSH_DASH, SSH_DASH, ToyExchange(), secret).value| == TRANSCRIPT_OVERHEAD + |secret|
  {
    hide SshString, Strings, Blob;
    BlobReads(Zeros(32));
    TranscriptOrder(SSH_DASH, SSH_DASH, ToyExchange(), secret);
    StringSizes(SSH_DASH);
    StringSizes(Kexinit());
    StringSizes(Blob(Zeros(32)));
    StringSizes(Zeros(32));
    StringSizes(secret);
  }

  lemma SecretSizes(raw: Octets)
    requires |raw| == 32
    ensures |Mpint(raw)| <= 33 && |ExchangeMpint(raw)| <= 33
  {
  }

  /** Both digests of an epoch, and which of them the epoch's signature is valid for. */
  lemma ToySigned(kex: Kex, raw: Octets, e: PeerEpoch)
    requires kex.clientVersion == kex.serverVersion == SSH_DASH && |raw| == 32 && e in ToySession(raw)
    ensures e.exchange == ToyExchange() && e.raw == raw && Hashable(SSH_DASH, SSH_DASH, e.exchange)
    ensures PeerHash(ToyCrypto(raw), kex, e) == ToyDigest(TRANSCRIPT_OVERHEAD + |Mpint(raw)|)
    ensures ExchangeHash(ToyCrypto(raw).hash, SSH_DASH, SSH_DASH, e.exchange, raw)
            == Ok(ToyDigest(TRANSCRIPT_OVERHEAD + |ExchangeMpint(raw)|))
  {
    hide Transcript, Padded, InitMessage, Reply, MarkerMessage, ToyExchange, ToyDigest, Kexinit;
    assert e.exchange == ToyExchange() && e.raw == raw;
    SecretSizes(raw);
    ToyTranscript(Mpint(raw));
    ToyTranscript(ExchangeMpint(raw));
  }

  lemma ToyVerifies(raw: Octets, h: Octets)
    ensures VerifySignature(ToyCrypto(raw), ToyExchange().hostKey, ToyExchange().signature, h).Ok? <==>
            h == ToyDigest(TRANSCRIPT_OVERHEAD + |Mpint(raw)|)
  {
    hide Ed25519Value, Blob, ToyDigest, Mpint;
    BlobReads(Zeros(32));
    BlobReads([]);
  }

  lemma ToySessionOk(kex: Kex, raw: Octets)
    requires kex.clientVersion == kex.serverVersion == SSH_DASH && |raw| == 32
    ensures SessionOk(ToyCrypto(raw), kex, ToySession(raw))
  {
    hide Announces, ChannelChunks, VerifySignature, PeerHash, Hashable, AllSendable, InitMessage, Reply, MarkerMessage,
      TestMarker, ToyCrypto, Payloads, ToyDigest, Mpint, ExchangeHash, Kexinit;
    var session := ToySession(raw);
    MessageSizes();
    ToyPayloads(raw);
    ToyChannels();
    ToyAnnounces();
    forall k | 0 <= k < |session|
      ensures EpochOk(ToyCrypto(raw), kex, session[k])
    {
      ToySends(raw, session[k]);
      ToySigned(kex, raw, session[k]);
      ToyVerifies(raw, PeerHash(ToyCrypto(raw), kex, session[k]));
    }
  }

  function ToyRecoveries(): seq<Recovery> {
    [Recovery(Zeros(32), Zeros(32)), Recovery(Zeros(32), Zeros(32))]
  }

  lemma TwoEntries(share: Octets)
    ensures Occurrences([Zeros(32), Zeros(32)], share) == |Stored(ToyRecoveries(), {}, share, 0)|
  {
    var recoveries := ToyRecoveries();
    var shares: seq<Octets> := [Zeros(32), Zeros(32)];
    assert shares[1..] == [Zeros(32)] && |shares[1..][1..]| == 0;
    assert Occurrences(shares[1..], share) == if share == Zeros(32) then 1 else 0;
    assert Stored(recoveries, {}, share, 2) == [];
    assert Stored(recoveries, {}, share, 1) == if share == Zeros(32) then [1] else [];
  }

  lemma ToyOracle(raw: Octets)
    ensures HoldsScalars(ToyCrypto(raw), ToyRecoveries(), ToySession(raw))
    ensures Enough(ToyRecoveries(), {}, Shares(ToySession(raw)))
  {
    hide InitMessage, Reply, MarkerMessage, Blob, Occurrences, Stored, Padded, ToyDigest, Mpint, Kexinit;
    var shares := Shares(ToySession(raw));
    assert shares == [Zeros(32), Zeros(32)];
    forall share
      ensures Occurrences(shares, share) <= |Stored(ToyRecoveries(), {}, share, 0)|
    {
      TwoEntries(share);
    }
  }

  /** Only the versions matter to the peers' keys. */
  lemma SameKeys(a: Kex, b: Kex, id: Octets, raw: Octets)
    requires a.clientVersion == b.clientVersion && a.serverVersion == b.serverVersion
    ensures FlightsC2S(ToyCrypto(raw), a, id, ToySession(raw)) == FlightsC2S(ToyCrypto(raw), b, id, ToySession(raw))
    ensures FlightsS2C(ToyCrypto(raw), a, id, ToySession(raw)) == FlightsS2C(ToyCrypto(raw), b, id, ToySession(raw))
  {
    hide ToySession, ToyCrypto, DeriveKeys, SignedHash, Mpint, Kexinit;
    forall e: PeerEpoch
      ensures PeerKeys(ToyCrypto(raw), a, id, e) == PeerKeys(ToyCrypto(raw), b, id, e)
    {
    }
  }

  lemma ChunksStep(session: seq<PeerEpoch>)
    requires session != [] && ChannelChunks(Payloads(session[0].s2c)).Ok?
    ensures SessionChunks(session) ==
            ChannelChunks(Payloads(session[0].s2c)).value + SessionChunks(session[1..])
    ensures SessionChunks([]) == []
  {
    hide ChannelChunks, Payloads;
  }

  lemma FoundAtZero(s: Octets)
    ensures Contains(s, s)
  {
    assert s[0..0 + |s|] == s;
  }

  lemma MarkerIsFound(raw: Octets)
    ensures SessionChunks(ToySession(raw)) == [TestMarker()]
    ensures Contains(Flatten([TestMarker()]), TestMarker())
  {
    hide TestMarker, ChannelChunks, Payloads, InitMessage, Reply, MarkerMessage, Flatten, SessionChunks, Contains,
      Kexinit;
    ToyPayloads(raw);
    ToyChannels();
    var session := ToySession(raw);
    assert session[1..] == [session[1]] && session[1..][1..] == [];
    ChunksStep(session);
    ChunksStep(session[1..]);
    assert [] + ([TestMarker()] + []) == [TestMarker()];
    FlattenCons(TestMarker(), []);
    FlattenNothing();
    assert [TestMarker()] + [] == [TestMarker()];
    LeftAndRightUnit(TestMarker());
    FoundAtZero(TestMarker());
  }

  lemma ToyAllSend(raw: Octets)
    ensures Sends(ToySession(raw))
  {
    hide AllSendable, Padded, Kexinit;
    forall k | 0 <= k < |ToySession(raw)|
      ensures AllSendable(ToySession(raw)[k].c2s) && AllSendable(ToySession(raw)[k].s2c)
    {
      ToySends(raw, ToySession(raw)[k]);
    }
  }

  lemma ToyWire(raw: Octets) returns (kex: Kex)
    requires |raw| == 32
    ensures kex == ToyKex(kex.encryptedC2S, kex.encryptedS2C)
    ensures OnTheWire(ToyCrypto(raw), kex, PeerHash(ToyCrypto(raw), kex, ToySession(raw)[0]), ToySession(raw), 3, 3,
                      kex.encryptedC2S, kex.encryptedS2C)
  {
    hide Sane, Wire, FlightsC2S, FlightsS2C, PeerHash, ToyCrypto, Sealable, Padded, ExpectedKex, ExpectedCipher,
      Ed25519, ToyExchange, InitMessage, Reply, MarkerMessage, ToyDigest, Mpint, ExchangeMpint, ExchangeHash, Kexinit;
    var c, blank, session := ToyCrypto(raw), ToyKex([], []), ToySession(raw);
    var id := PeerHash(c, blank, session[0]);
    ToySane(raw);
    ToyAllSend(raw);
    SealableFlights(c, blank, id, session);
    kex := ToyKex(Wire(c.cipher, false, 3, FlightsC2S(c, blank, id, session)),
                  Wire(c.cipher, false, 3, FlightsS2C(c, blank, id, session)));
    SameKeys(kex, blank, id, raw);
    ToySigned(kex, raw, session[0]);
    ToySigned(blank, raw, session[0]);
  }

  function ToyMetadata(): Metadata {
    Metadata(ExpectedKex(), Text("client"))
  }

  /** The capture of the toy session with any 32-byte secret. */
  lemma ToyCapture(raw: Octets) returns (kex: Kex)
    requires |raw| == 32
    ensures Recoverable(ToyCrypto(raw), ToyRecoveries(), ToyMetadata(), kex, ToySession(raw))
    ensures kex.clientVersion == kex.serverVersion == SSH_DASH && kex == ToyKex(kex.encryptedC2S, kex.encryptedS2C)
  {
    hide Sane, SessionOk, HoldsScalars, Enough, Shares, OnTheWire, ExpectedKex, ExpectedCipher, ToyExchange, PeerHash,
      ToyCrypto, Text, Kexinit;
    kex := ToyWire(raw);
    ToySessionOk(kex, raw);
    ToySane(raw);
    ToyOracle(raw);
  }

  // ----- The clear fronts of both streams

  /** What each peer sends before its NEWKEYS takes effect: the first epoch's messages, in the clear. */
  function ToyClient(): Opening {
    Opening([], SSH_DASH, 0, [Padded(Kexinit()), Padded(InitMessage(Zeros(32))), Padded([NEWKEYS])])
  }

  function ToyServer(): Opening {
    Opening([], SSH_DASH, 0, [Padded(Kexinit()), Padded(Reply()), Padded([NEWKEYS])])
  }

  lemma {:induction false} NoneOf(packets: seq<Octets>, messageType: Byte)
    requires forall i :: 0 <= i < |packets| ==> packets[i] != [] && packets[i][0] != messageType
    ensures FirstOf(packets, messageType).Err?
  {
    if packets != [] {
      NoneOf(packets[1..], messageType);
    }
  }

  lemma PayloadsOfThree(a: Octets, b: Octets, c: Octets)
    ensures Payloads([Padded(a), Padded(b), Padded(c)]) == [a, b, c]
  {
  }

  lemma ToyOpeningsOk()
    ensures OpeningOk(ToyClient()) && OpeningOk(ToyServer())
    ensures Payloads(ToyClient().sent) == [Kexinit(), InitMessage(Zeros(32)), [NEWKEYS]]
    ensures Payloads(ToyServer().sent) == [Kexinit(), Reply(), [NEWKEYS]]
    ensures FirstOf(Payloads(ToyServer().sent), ECDH_INIT).Err?
  {
    hide InitMessage, Reply, Padded, Sendable, Kexinit;
    MessageSizes();
    PaddedIsSendable(Kexinit());
    PaddedIsSendable(InitMessage(Zeros(32)));
    PaddedIsSendable(Reply());
    PaddedIsSendable([NEWKEYS]);
    NoneOf([Kexinit(), Reply(), [NEWKEYS]], ECDH_INIT);
    PayloadsOfThree(Kexinit(), InitMessage(Zeros(32)), [NEWKEYS]);
    PayloadsOfThree(Kexinit(), Reply(), [NEWKEYS]);
  }

  lemma StrictIsLonger()
    ensures |StrictClient()| > 17
  {
  }

  /** The lists are read back, and agree on what the profile expects without strict key exchange. */
  lemma ToyNegotiates(kexinit: Octets)
    requires kexinit == Kexinit()
    ensures NameLists(kexinit).Ok?
    ensures var lists := NameLists(kexinit).value;
            && Negotiate(lists, lists)
               == Ok(Negotiated(ExpectedKex(), Ed25519(), ExpectedCipher(), ExpectedCipher()))
            && StrictClient() !in lists[0]
  {
    hide Strings, NameLists, ExpectedKex, ExpectedCipher, Ed25519, Split, IsAscii, StrictClient;
    AnnouncementIsText();
    KexinitRoundTrip(Zeros(16), Announcement(), Zeros(5), kexinit);
    KexIsAName();
    HostKeyIsAName();
    CipherIsAName();
    OneName(ExpectedKex());
    OneName(Ed25519());
    OneName(ExpectedCipher());
    var lists := NamesOf(Announcement());
    var texts := Announcement();
    assert lists[0] == [ExpectedKex()] && lists[1] == [Ed25519()] by {
      assert Names(texts[0]) == Ok(lists[0]) && Names(texts[1]) == Ok(lists[1]);
    }
    assert lists[2] == lists[3] == [ExpectedCipher()] by {
      assert Names(texts[2]) == Ok(lists[2]) && Names(texts[3]) == Ok(lists[3]);
    }
    StrictIsLonger();
  }

  lemma ToyExchangeKexinits()
    ensures ToyExchange().clientKexinit == ToyExchange().serverKexinit == Kexinit()
  {
    hide Kexinit, Blob;
  }

  /** Both streams, from their first byte on, are such as StreamsRecoveredExactly asks for. */
  lemma ToyOpens(kex: Kex)
    requires kex == ToyKex(kex.encryptedC2S, kex.encryptedS2C)
    ensures Opens(ToyClient(), ToyServer(), kex)
  {
    hide OpeningOk, Announces, FirstOf, NameLists, Negotiate, StrictClient, StrictServer, Payloads, Kexinit,
      InitMessage, Reply, ExpectedKex, ExpectedCipher, Ed25519, Padded;
    ToyOpeningsOk();
    ToyAnnounces();
    ToyNegotiates(Kexinit());
    ToyExchangeKexinits();
  }

  // ----- Both outcomes

  lemma OpensSendable(client: Opening, server: Opening, kex: Kex)
    requires Opens(client, server, kex)
    ensures AllSendable(client.sent) && AllSendable(server.sent)
  {
    hide Announces, FirstOf, NameLists, Negotiate, StrictClient, StrictServer, Payloads;
  }

  /** Nothing is asked of the signature of an epoch with a minimal secret. */
  lemma MinimalDiscerns(c: Crypto, kex: Kex, session: seq<PeerEpoch>)
    requires AllMinimal(session)
    ensures AllDiscerning(c, kex, session)
  {
    hide Minimal, VerifySignature, ExchangeHash;
  }

  /** A session of two epochs that meets every hypothesis, and is recovered from both byte streams in either order. */
  lemma ToySessionRecovered() returns (kex: Kex)
    ensures |ToySession(SECRET)| == 2
    ensures Recoverable(ToyCrypto(SECRET), ToyRecoveries(), ToyMetadata(), kex, ToySession(SECRET))
    ensures AllMinimal(ToySession(SECRET)) && Opens(ToyClient(), ToyServer(), kex)
    ensures AllSendable(ToyClient().sent) && AllSendable(ToyServer().sent)
    ensures Derive(ToyCrypto(SECRET), ToyRecoveries(), ToyMetadata(), kex, State({}, [])).result.Ok?
    ensures var c, s := StreamOf(ToyClient(), kex.encryptedC2S), StreamOf(ToyServer(), kex.encryptedS2C);
            && DeriveFromStreams(ToyCrypto(SECRET), ToyRecoveries(), ToyMetadata(), c, s).Ok?
            && DeriveFromStreams(ToyCrypto(SECRET), ToyRecoveries(), ToyMetadata(), s, c).Ok?
  {
    hide Recoverable, Derive, DeriveFromStreams, Contains, TestMarker, ToyExchange, ToyCrypto, Flatten, SessionChunks,
      Recovered, ToyMetadata, Kexinit, Opens, ToyClient, ToyServer, ToyRecoveries, StreamOf;
    kex := ToyCapture(SECRET);
    MarkerIsFound(SECRET);
    ToyOpens(kex);
    OpensSendable(ToyClient(), ToyServer(), kex);
    MinimalDiscerns(ToyCrypto(SECRET), kex, ToySession(SECRET));
    MinimalSessionRecovered(ToyCrypto(SECRET), ToyRecoveries(), ToyMetadata(), kex, ToySession(SECRET));
    StreamsRecoveredExactly(ToyCrypto(SECRET), ToyRecoveries(), ToyMetadata(), kex, ToySession(SECRET), ToyClient(),
        ToyServer());
  }

  /** The two digests of the zero-led secret differ, and so do their transcripts' lengths: 483 and 482. */
  lemma ToyDigestsDiffer()
    ensures ToyDigest(TRANSCRIPT_OVERHEAD + |ExchangeMpint(ZERO_LED)|)
            != ToyDigest(TRANSCRIPT_OVERHEAD + |Mpint(ZERO_LED)|)
  {
    hide Mpint, ExchangeMpint;
    LeadingZeroKept(ZERO_LED);
    assert ToyDigest(483)[0] == 1 && ToyDigest(482)[0] == 0;
  }

  lemma ToyDiscerns(kex: Kex)
    requires kex.clientVersion == kex.serverVersion == SSH_DASH
    ensures AllDiscerning(ToyCrypto(ZERO_LED), kex, ToySession(ZERO_LED))
  {
    hide ToyExchange, ToyCrypto, VerifySignature, Padded, InitMessage, Reply, MarkerMessage, ExchangeHash, PeerHash,
      Mpint, ExchangeMpint, ToyDigest, Minimal, Kexinit;
    var raw := ZERO_LED;
    ToyDigestsDiffer();
    forall k | 0 <= k < |ToySession(raw)|
      ensures Discerning(ToyCrypto(raw), kex, ToySession(raw)[k])
    {
      LeadingZeroKept(ZERO_LED);
      ToySigned(kex, raw, ToySession(raw)[k]);
      ToyVerifies(raw, ToyDigest(TRANSCRIPT_OVERHEAD + |ExchangeMpint(raw)|));
    }
  }

  /** The same session with a zero-led secret: it meets every hypothesis too, and ends at the host signature. */
  lemma ToySessionRefused() returns (kex: Kex)
    ensures |ToySession(ZERO_LED)| == 2
    ensures Recoverable(ToyCrypto(ZERO_LED), ToyRecoveries(), ToyMetadata(), kex, ToySession(ZERO_LED))
    ensures AllDiscerning(ToyCrypto(ZERO_LED), kex, ToySession(ZERO_LED)) && Opens(ToyClient(), ToyServer(), kex)
    ensures AllSendable(ToyClient().sent) && AllSendable(ToyServer().sent)
    ensures Derive(ToyCrypto(ZERO_LED), ToyRecoveries(), ToyMetadata(), kex, State({}, [])).result
        == Err(InvalidSignature)
    ensures var c, s := StreamOf(ToyClient(), kex.encryptedC2S), StreamOf(ToyServer(), kex.encryptedS2C);
            DeriveFromStreams(ToyCrypto(ZERO_LED), ToyRecoveries(), ToyMetadata(), c, s) == Err(InvalidSignature)
  {
    hide Recoverable, Derive, DeriveFromStreams, Contains, TestMarker, ToyExchange, ToyCrypto, Flatten, SessionChunks,
      Recovered, ToyMetadata, AllDiscerning, Kexinit, Opens, ToyClient, ToyServer, ToyRecoveries, StreamOf;
    kex := ToyCapture(ZERO_LED);
    LeadingZeroKept(ZERO_LED);
    ToyDiscerns(kex);
    ToyOpens(kex);
    OpensSendable(ToyClient(), ToyServer(), kex);
    assert !Minimal(ToySession(ZERO_LED)[0].raw);
    SessionRecoveredExactly(ToyCrypto(ZERO_LED), ToyRecoveries(), ToyMetadata(), kex, ToySession(ZERO_LED));
    StreamsRecoveredExactly(ToyCrypto(ZERO_LED), ToyRecoveries(), ToyMetadata(), kex, ToySession(ZERO_LED),
        ToyClient(), ToyServer());
  }
}
