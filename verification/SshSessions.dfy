/**
 * What the recovery loop of decryptor/ssh/derive_ssh.py returns for the wire bytes of a real session: peers that run
 * any number of epochs, each under keys from its own exchange and the first exchange hash; sections 7.2 and 9 of
 * RFC 4253.
 *
 * The peers' side is described first: what they send, how it is sealed, and what makes a session well formed. Then
 * one turn of the loop is compared with one epoch, the loop with the session, and the whole recovery with the two
 * byte streams a passive observer holds.
 */
module SshSessions {
  import opened Bytes
  import opened SshWire
  import opened SshNegotiation
  import opened SshKeys
  import opened SshCipher
  import opened SshOracle
  import opened SshRecovery

  // ----- The sealed bytes of one direction

  /** One epoch of one direction: the key and the packets sent under it. */
  datatype Flight = Flight(key: Octets, sent: seq<Sent>)

  ghost predicate Sealable(flights: seq<Flight>) {
    forall i :: 0 <= i < |flights| ==> |flights[i].key| >= 64 && AllSendable(flights[i].sent)
  }

  /** Where the next epoch's numbering starts: strict key exchange resets it, otherwise it goes on. */
  function Restart(strict: bool, first: nat, n: nat): nat {
    if strict then 0 else SequenceAfter(first, n)
  }

  function Wire(c: Cipher, strict: bool, first: nat, flights: seq<Flight>): Octets
    requires Sealable(flights)
    decreases |flights|
  {
    if flights == [] then []
    else
      SealedStream(c, flights[0].key, first, flights[0].sent)
      + Wire(c, strict, Restart(strict, first, |flights[0].sent|), flights[1..])
  }

  lemma SealableSplit(flight: Flight, more: seq<Flight>)
    ensures Sealable([flight] + more) <==> |flight.key| >= 64 && AllSendable(flight.sent) && Sealable(more)
  {
    hide AllSendable;
    var all := [flight] + more;
    assert all[0] == flight;
    forall i | 0 <= i < |more|
      ensures more[i] == all[i + 1]
    {
    }
  }

  lemma WireStep(c: Cipher, strict: bool, first: nat, flight: Flight, more: seq<Flight>)
    requires |flight.key| >= 64 && AllSendable(flight.sent) && Sealable(more) && Sealable([flight] + more)
    ensures Wire(c, strict, first, [flight] + more) ==
            SealedStream(c, flight.key, first, flight.sent)
            + Wire(c, strict, Restart(strict, first, |flight.sent|), more)
  {
    hide SealedStream, Restart, AllSendable;
    assert ([flight] + more)[1..] == more;
  }

  // ----- The peers' side

  /** One epoch: its key exchange, the secret both peers computed, and what each sent under its keys. */
  datatype PeerEpoch = PeerEpoch(exchange: Exchange, raw: Octets, c2s: seq<Sent>, s2c: seq<Sent>)

  ghost predicate Sane(c: Crypto) {
    Correct(c.cipher) && FixedOutput(c.hash, c.digestSize)
  }

  function Valued(r: Result<Octets>): Octets {
    if r.Ok? then r.value else []
  }

  /** The exchange hash both peers use and the server signs. */
  function PeerHash(c: Crypto, kex: Kex, e: PeerEpoch): Octets {
    Valued(SignedHash(c.hash, kex.clientVersion, kex.serverVersion, e.exchange, e.raw))
  }

  function PeerKeys(c: Crypto, kex: Kex, sessionId: Octets, e: PeerEpoch): SessionKeys {
    DeriveKeys(c.hash, Valued(LengthPrefixed(Mpint(e.raw))), PeerHash(c, kex, e), sessionId)
  }

  lemma PeerKeysAreLong(c: Crypto, kex: Kex, sessionId: Octets, e: PeerEpoch)
    requires Sane(c)
    ensures |PeerKeys(c, kex, sessionId, e).encC2S| == 64 && |PeerKeys(c, kex, sessionId, e).encS2C| == 64
  {
    hide Expand;
    var K, H := Valued(LengthPrefixed(Mpint(e.raw))), PeerHash(c, kex, e);
    ShorterKeyIsPrefix(c.hash, c.digestSize, K, H, 67, sessionId, 64, 64);
    ShorterKeyIsPrefix(c.hash, c.digestSize, K, H, 68, sessionId, 64, 64);
  }

  ghost predicate Sends(session: seq<PeerEpoch>) {
    forall k :: 0 <= k < |session| ==> AllSendable(session[k].c2s) && AllSendable(session[k].s2c)
  }

  function FlightsC2S(c: Crypto, kex: Kex, sessionId: Octets, session: seq<PeerEpoch>): (flights: seq<Flight>)
    ensures |flights| == |session|
    ensures forall k :: 0 <= k < |session| ==>
              flights[k] == Flight(PeerKeys(c, kex, sessionId, session[k]).encC2S, session[k].c2s)
  {
    seq(|session|, k requires 0 <= k < |session| => Flight(PeerKeys(c, kex, sessionId, session[k]).encC2S,
        session[k].c2s))
  }

  function FlightsS2C(c: Crypto, kex: Kex, sessionId: Octets, session: seq<PeerEpoch>): (flights: seq<Flight>)
    ensures |flights| == |session|
    ensures forall k :: 0 <= k < |session| ==>
              flights[k] == Flight(PeerKeys(c, kex, sessionId, session[k]).encS2C, session[k].s2c)
  {
    seq(|session|, k requires 0 <= k < |session| => Flight(PeerKeys(c, kex, sessionId, session[k]).encS2C,
        session[k].s2c))
  }

  /** Derived keys are always long enough to seal with. */
  lemma SealableFlights(c: Crypto, kex: Kex, sessionId: Octets, session: seq<PeerEpoch>)
    requires Sane(c) && Sends(session)
    ensures Sealable(FlightsC2S(c, kex, sessionId, session)) && Sealable(FlightsS2C(c, kex, sessionId, session))
  {
    hide PeerKeys, FlightsC2S, FlightsS2C, Sane;
    forall k | 0 <= k < |session|
      ensures |PeerKeys(c, kex, sessionId, session[k]).encC2S| == 64
          && |PeerKeys(c, kex, sessionId, session[k]).encS2C| == 64
    {
      PeerKeysAreLong(c, kex, sessionId, session[k]);
    }
  }

  lemma FlightsSplit(c: Crypto, kex: Kex, sessionId: Octets, session: seq<PeerEpoch>)
    requires session != []
    ensures FlightsC2S(c, kex, sessionId, session) ==
            [Flight(PeerKeys(c, kex, sessionId, session[0]).encC2S, session[0].c2s)]
                + FlightsC2S(c, kex, sessionId, session[1..])
    ensures FlightsS2C(c, kex, sessionId, session) ==
            [Flight(PeerKeys(c, kex, sessionId, session[0]).encS2C, session[0].s2c)]
                + FlightsS2C(c, kex, sessionId, session[1..])
  {
    hide PeerKeys, FlightsC2S, FlightsS2C;
    var more := session[1..];
    forall k | 0 < k < |session|
      ensures session[k] == more[k - 1]
    {
    }
    assert FlightsC2S(c, kex, sessionId, session)[1..] == FlightsC2S(c, kex, sessionId, more);
    assert FlightsS2C(c, kex, sessionId, session)[1..] == FlightsS2C(c, kex, sessionId, more);
  }

  /** The bytes of both directions from an epoch on. */
  ghost predicate OnTheWire(c: Crypto, kex: Kex, sessionId: Octets, session: seq<PeerEpoch>,
                            firstC2S: nat, firstS2C: nat, c2s: Octets, s2c: Octets) {
    && Sealable(FlightsC2S(c, kex, sessionId, session)) && Sealable(FlightsS2C(c, kex, sessionId, session))
    && c2s == Wire(c.cipher, kex.strict, firstC2S, FlightsC2S(c, kex, sessionId, session))
    && s2c == Wire(c.cipher, kex.strict, firstS2C, FlightsS2C(c, kex, sessionId, session))
  }

  // ----- Well-formed sessions

  /** What one epoch must satisfy on its own. */
  ghost predicate EpochOk(c: Crypto, kex: Kex, e: PeerEpoch) {
    && AllSendable(e.c2s) && AllSendable(e.s2c)
    && NewkeysOnlyLast(Payloads(e.c2s)) && NewkeysOnlyLast(Payloads(e.s2c))
    && ChannelChunks(Payloads(e.s2c)).Ok?
    && |e.raw| == 32 && |e.exchange.serverPublic| == 32
    && Hashable(kex.clientVersion, kex.serverVersion, e.exchange)
    && VerifySignature(c, e.exchange.hostKey, e.exchange.signature, PeerHash(c, kex, e)).Ok?
  }

  /** Every epoch but the last announces the next exchange and ends both directions with NEWKEYS; the last has none. */
  ghost predicate Follows(e: PeerEpoch, next: PeerEpoch) {
    && EndsWithNewkeys(Payloads(e.c2s)) && EndsWithNewkeys(Payloads(e.s2c))
    && Announces(Payloads(e.c2s), Payloads(e.s2c), next.exchange)
  }

  ghost predicate SessionOk(c: Crypto, kex: Kex, session: seq<PeerEpoch>) {
    && session != []
    && (forall k :: 0 <= k < |session| ==> EpochOk(c, kex, session[k]))
    && (forall k :: 0 <= k < |session| - 1 ==> Follows(session[k], session[k + 1]))
    && !EndsWithNewkeys(Payloads(session[|session| - 1].c2s)) && !EndsWithNewkeys(Payloads(session[|session| - 1].s2c))
  }

  lemma SessionOkLater(c: Crypto, kex: Kex, session: seq<PeerEpoch>)
    requires SessionOk(c, kex, session) && |session| > 1
    ensures EpochOk(c, kex, session[0]) && Follows(session[0], session[1]) && SessionOk(c, kex, session[1..])
  {
    hide EpochOk, Follows, EndsWithNewkeys;
    var more := session[1..];
    forall k | 0 <= k < |more|
      ensures EpochOk(c, kex, more[k]) && (k < |more| - 1 ==> Follows(more[k], more[k + 1]))
    {
      assert more[k] == session[k + 1];
      if k < |more| - 1 {
        assert more[k + 1] == session[k + 2];
        assert Follows(session[k + 1], session[k + 2]);
      }
    }
  }

  /** Every stored scalar whose share the session uses is one: it has that share and yields the epoch's secret. */
  ghost predicate HoldsScalars(c: Crypto, recoveries: seq<Recovery>, session: seq<PeerEpoch>) {
    forall i, k ::
      0 <= i < |recoveries| && 0 <= k < |session| && recoveries[i].share == session[k].exchange.clientPublic ==>
      && |recoveries[i].scalar| == 32 && c.publicOf(recoveries[i].scalar) == recoveries[i].share
      && c.shared(recoveries[i].scalar, session[k].exchange.serverPublic) == Some(session[k].raw)
  }

  function Shares(session: seq<PeerEpoch>): (shares: seq<Octets>)
    ensures |shares| == |session| && forall k :: 0 <= k < |session| ==> shares[k] == session[k].exchange.clientPublic
  {
    seq(|session|, k requires 0 <= k < |session| => session[k].exchange.clientPublic)
  }

  /**
   * Where the secret is not minimal, the epoch's signature does not happen to be valid for the one other hash that is
   * then computed. Nothing is asked of an epoch with a minimal secret.
   */
  ghost predicate Discerning(c: Crypto, kex: Kex, e: PeerEpoch) {
    !Minimal(e.raw) ==>
      var hashed := Valued(ExchangeHash(c.hash, kex.clientVersion, kex.serverVersion, e.exchange, e.raw));
      VerifySignature(c, e.exchange.hostKey, e.exchange.signature, hashed).Err?
  }

  ghost predicate AllDiscerning(c: Crypto, kex: Kex, session: seq<PeerEpoch>) {
    forall k :: 0 <= k < |session| ==> Discerning(c, kex, session[k])
  }

  ghost predicate AllMinimal(session: seq<PeerEpoch>) {
    forall k :: 0 <= k < |session| ==> Minimal(session[k].raw)
  }

  // ----- One key exchange

  function EpochRecord(c: Crypto, kex: Kex, sessionId: Octets, e: PeerEpoch, k: nat): KeyEpoch {
    KeyEpoch(k, PeerHash(c, kex, e), e.raw, Valued(LengthPrefixed(Mpint(e.raw))), PeerKeys(c, kex, sessionId, e))
  }

  lemma TranscriptWithSecret(kex: Kex, e: PeerEpoch)
    requires |e.raw| == 32 && Hashable(kex.clientVersion, kex.serverVersion, e.exchange)
    ensures Transcript(kex.clientVersion, kex.serverVersion, e.exchange, Mpint(e.raw)).Ok?
    ensures Transcript(kex.clientVersion, kex.serverVersion, e.exchange, ExchangeMpint(e.raw)).Ok?
    ensures LengthPrefixed(Mpint(e.raw)).Ok?
  {
    hide SshString;
  }

  /** Establishing keys from the right scalar succeeds exactly for a minimal secret, with the peers' keys. */
  lemma EstablishedExactly(c: Crypto, kex: Kex, e: PeerEpoch, scalar: Octets, k: nat, sessionId: Option<Octets>)
    requires EpochOk(c, kex, e) && Discerning(c, kex, e)
    requires SharedSecret(c, scalar, e.exchange.serverPublic) == Ok(e.raw)
    ensures var id := if sessionId.Some? then sessionId.value else PeerHash(c, kex, e);
            Establish(c, kex, e.exchange, scalar, k, sessionId) ==
            if Minimal(e.raw) then Ok(EpochRecord(c, kex, id, e, k)) else Err(InvalidSignature)
  {
    hide Transcript, Mpint, Minimal, ExchangeMpint, SharedSecret, DeriveKeys, Ed25519Value, SshString, AllSendable,
      Payloads, NewkeysOnlyLast, ChannelChunks;
    TranscriptWithSecret(kex, e);
    HashesAgree(c.hash, kex.clientVersion, kex.serverVersion, e.exchange, e.raw);
  }

  /** The scalar the oracle releases for an epoch's share yields the epoch's secret. */
  lemma ReleasedScalar(c: Crypto, recoveries: seq<Recovery>, session: seq<PeerEpoch>, j: nat, state: State, n: nat,
      epoch: nat)
    requires j < |session| && HoldsScalars(c, recoveries, session) && |session[j].exchange.serverPublic| == 32
    requires FirstUnused(recoveries, state.used, session[j].exchange.clientPublic, 0).Some?
    ensures var share := session[j].exchange.clientPublic;
            var asked := Ask(recoveries, c.publicOf, state, share, epoch, n);
            && asked.result.Ok?
            && PublicOf(c.publicOf, asked.result.value) == Ok(share)
            && SharedSecret(c, asked.result.value, session[j].exchange.serverPublic) == Ok(session[j].raw)
            && asked.state.used == UsedAfter(recoveries, state.used, share)
  {
    hide FirstUnused, UsedAfter;
    var i := FirstUnused(recoveries, state.used, session[j].exchange.clientPublic, 0).value;
    assert recoveries[i].share == session[j].exchange.clientPublic;
  }

  // ----- One turn

  /** A turn that decrypted exactly what the peers sent in an epoch. */
  ghost predicate Matches(t: Turn, e: PeerEpoch) {
    PayloadsOf(t.c2s.packets) == Payloads(e.c2s) && PayloadsOf(t.s2c.packets) == Payloads(e.s2c)
  }

  lemma WireNothing(c: Cipher, strict: bool, first: nat)
    ensures Wire(c, strict, first, []) == []
  {
  }

  /** One direction of the first epoch on the wire. */
  lemma DirectionOpens(c: Cipher, strict: bool, first: nat, flight: Flight, more: seq<Flight>)
    requires Correct(c) && Sealable([flight] + more) && NewkeysOnlyLast(Payloads(flight.sent))
    requires EndsWithNewkeys(Payloads(flight.sent)) || more == []
    ensures var r := OpenEpoch(c, flight.key, first, Wire(c, strict, first, [flight] + more));
            && r.Ok?
            && PayloadsOf(r.value.packets) == Payloads(flight.sent)
            && r.value.newkeys == EndsWithNewkeys(Payloads(flight.sent))
            && Sealable(more)
            && (if strict then 0 else r.value.nextSequence) == Restart(strict, first, |flight.sent|)
            && r.value.remaining == Wire(c, strict, Restart(strict, first, |flight.sent|), more)
  {
    hide OpenEpoch, SealedStream, Wire, Correct, PayloadsOf, AllSendable, Sealable;
    SealableSplit(flight, more);
    WireStep(c, strict, first, flight, more);
    var rest := Wire(c, strict, Restart(strict, first, |flight.sent|), more);
    if more == [] {
      WireNothing(c, strict, Restart(strict, first, |flight.sent|));
    }
    EpochRoundTrip(c, flight.key, first, flight.sent, rest);
  }

  /** The turn that decrypts the first epoch of a session. */
  lemma TurnOpens(c: Crypto, kex: Kex, session: seq<PeerEpoch>, r: Run)
    requires Sane(c) && SessionOk(c, kex, session) && r.keys == PeerKeys(c, kex, r.sessionId, session[0])
    requires OnTheWire(c, kex, r.sessionId, session, r.sequenceC2S, r.sequenceS2C, r.remainingC2S, r.remainingS2C)
    ensures OpenTurn(c, r).Ok?
    ensures var t := OpenTurn(c, r).value;
            && Matches(t, session[0])
            && t.c2s.newkeys == t.s2c.newkeys == (|session| > 1)
            && OnTheWire(c, kex, r.sessionId, session[1..],
                         if kex.strict then 0 else t.c2s.nextSequence, if kex.strict then 0 else t.s2c.nextSequence,
                         t.c2s.remaining, t.s2c.remaining)
  {
    hide PeerKeys, OpenEpoch, Wire, FlightsC2S, FlightsS2C, Sealable, Announces, PayloadsOf, NewkeysOnlyLast,
      EndsWithNewkeys, ChannelChunks, VerifySignature, SignedHash, Restart, AllSendable;
    var e, id := session[0], r.sessionId;
    FlightsSplit(c, kex, id, session);
    assert EpochOk(c, kex, e);
    if |session| > 1 {
      assert Follows(session[0], session[1]);
    }
    DirectionOpens(c.cipher, kex.strict, r.sequenceC2S, Flight(r.keys.encC2S, e.c2s),
        FlightsC2S(c, kex, id, session[1..]));
    DirectionOpens(c.cipher, kex.strict, r.sequenceS2C, Flight(r.keys.encS2C, e.s2c),
        FlightsS2C(c, kex, id, session[1..]));
  }

  // ----- Whole runs

  /** The channel data of every epoch's server packets, in order. */
  function SessionChunks(session: seq<PeerEpoch>): seq<Octets> {
    if session == [] then []
    else
      var chunks := ChannelChunks(Payloads(session[0].s2c));
      (if chunks.Ok? then chunks.value else []) + SessionChunks(session[1..])
  }

  /** Everything the server sent, from the first epoch's first packet to the last epoch's last. */
  function ServerPayloads(session: seq<PeerEpoch>): seq<Octets> {
    if session == [] then [] else Payloads(session[0].s2c) + ServerPayloads(session[1..])
  }

  /** The session's channel data is that of all the server's packets, in the order in which they were sent. */
  lemma {:induction false} SessionChunksInOrder(session: seq<PeerEpoch>)
    requires forall k :: 0 <= k < |session| ==> ChannelChunks(Payloads(session[k].s2c)).Ok?
    ensures ChannelChunks(ServerPayloads(session)) == Ok(SessionChunks(session))
  {
    hide Payloads;
    if session == [] {
    } else {
      SessionChunksInOrder(session[1..]);
      ChunksInOrder(Payloads(session[0].s2c), ServerPayloads(session[1..]));
    }
  }

  function EpochRecords(c: Crypto, kex: Kex, sessionId: Octets, session: seq<PeerEpoch>, k: nat): seq<KeyEpoch>
    decreases |session|
  {
    if session == [] then []
    else [EpochRecord(c, kex, sessionId, session[0], k)] + EpochRecords(c, kex, sessionId, session[1..], k + 1)
  }

  ghost predicate AllMatch(turns: seq<Turn>, session: seq<PeerEpoch>) {
    |turns| == |session| && forall k :: 0 <= k < |turns| ==> Matches(turns[k], session[k])
  }

  /** A run that went on from r through the rest of a session, its first epoch's keys being known already. */
  ghost predicate Reports(c: Crypto, kex: Kex, r: Run, session: seq<PeerEpoch>, done: Run)
    requires session != []
  {
    && |r.turns| <= |done.turns| && done.turns[..|r.turns|] == r.turns
    && AllMatch(done.turns[|r.turns|..], session)
    && done.epochs == r.epochs + EpochRecords(c, kex, r.sessionId, session[1..], r.epoch + 1)
    && done.chunks == r.chunks + SessionChunks(session)
  }

  /** The loop's state at the start of the epoch that begins a session. */
  ghost predicate AtEpoch(c: Crypto, kex: Kex, r: Run, session: seq<PeerEpoch>)
    requires session != []
  {
    && r.keys == PeerKeys(c, kex, r.sessionId, session[0])
    && OnTheWire(c, kex, r.sessionId, session, r.sequenceC2S, r.sequenceS2C, r.remainingC2S, r.remainingS2C)
  }

  lemma CountedFields(r: Run, t: Turn, e: PeerEpoch)
    requires Matches(t, e) && ChannelChunks(Payloads(e.s2c)).Ok?
    ensures Counted(r, t).Ok?
    ensures var done := Counted(r, t).value;
            && done.chunks == r.chunks + ChannelChunks(Payloads(e.s2c)).value
            && done.turns == r.turns + [t]
            && done.epochs == r.epochs && done.epoch == r.epoch && done.sessionId == r.sessionId
  {
    hide ChannelChunks, PayloadsOf, Payloads;
  }

  /** The first epoch of a session is done and the second begins. */
  ghost predicate MovesOn(c: Crypto, kex: Kex, r: Run, session: seq<PeerEpoch>, next: Run)
    requires |session| > 1
  {
    && AtEpoch(c, kex, next, session[1..])
    && next.sessionId == r.sessionId && next.epoch == r.epoch + 1
    && |next.turns| == |r.turns| + 1 && next.turns[..|r.turns|] == r.turns && Matches(next.turns[|r.turns|], session[0])
    && next.epochs == r.epochs + [EpochRecord(c, kex, r.sessionId, session[1], r.epoch + 1)]
    && ChannelChunks(Payloads(session[0].s2c)).Ok?
    && next.chunks == r.chunks + ChannelChunks(Payloads(session[0].s2c)).value
  }

  lemma AdvancedMovesOn(c: Crypto, kex: Kex, r: Run, t: Turn, session: seq<PeerEpoch>)
    requires |session| > 1 && Matches(t, session[0]) && ChannelChunks(Payloads(session[0].s2c)).Ok?
    requires OnTheWire(c, kex, r.sessionId, session[1..],
                       if kex.strict then 0 else t.c2s.nextSequence, if kex.strict then 0 else t.s2c.nextSequence,
                       t.c2s.remaining, t.s2c.remaining)
    ensures Counted(r, t).Ok?
    ensures MovesOn(c, kex, r, session,
                    Advanced(kex, Counted(r, t).value, t, EpochRecord(c, kex, r.sessionId, session[1], r.epoch + 1)))
  {
    hide ChannelChunks, PayloadsOf, Payloads, OnTheWire, PeerKeys, PeerHash, Matches, Mpint, LengthPrefixed;
    CountedFields(r, t, session[0]);
    assert (r.turns + [t])[..|r.turns|] == r.turns;
  }

  lemma ExchangeFound(t: Turn, e: PeerEpoch, next: PeerEpoch)
    requires Matches(t, e) && Follows(e, next)
    ensures ExtractExchange(PayloadsOf(t.c2s.packets), PayloadsOf(t.s2c.packets)) == Ok(next.exchange)
  {
    hide ExtractExchange, Announces, PayloadsOf, Payloads, EndsWithNewkeys;
    ExchangeExactly(Payloads(e.c2s), Payloads(e.s2c), next.exchange);
  }

  /** A turn of the loop in an epoch that is not the last: it goes on exactly when the next secret is minimal. */
  lemma TurnGoesOn(c: Crypto, recoveries: seq<Recovery>, kex: Kex, session: seq<PeerEpoch>, r: Run, oracle: State)
    requires Sane(c) && SessionOk(c, kex, session) && |session| > 1 && Discerning(c, kex, session[1])
    requires HoldsScalars(c, recoveries, session) && AtEpoch(c, kex, r, session)
    requires FirstUnused(recoveries, oracle.used, session[1].exchange.clientPublic, 0).Some?
    ensures var step := OneTurn(c, recoveries, kex, r, oracle);
            if Minimal(session[1].raw) then
              && step.Again? && MovesOn(c, kex, r, session, step.run)
              && step.oracle.used == UsedAfter(recoveries, oracle.used, session[1].exchange.clientPublic)
            else step.Stop? && step.outcome.result == Err(InvalidSignature)
  {
    hide PeerKeys, Matches, Follows, OpenTurn, Counted, MovesOn, Advanced, Establish, Ask, SharedSecret, PublicOf,
      HoldsScalars, FirstUnused, UsedAfter, Minimal, ExtractExchange, OnTheWire, ChannelChunks, EpochRecord, PayloadsOf,
      Payloads, AllSendable, NewkeysOnlyLast, EndsWithNewkeys, VerifySignature, SignedHash, Sane, Discerning, PeerHash;
    TurnOpens(c, kex, session, r);
    var t := OpenTurn(c, r).value;
    SessionOkLater(c, kex, session);
    ExchangeFound(t, session[0], session[1]);
    AdvancedMovesOn(c, kex, r, t, session);
    CountedFields(r, t, session[0]);
    assert EpochOk(c, kex, session[1]);
    var n := Counted(r, t).value.authenticatedC2S + Counted(r, t).value.authenticatedS2C;
    ReleasedScalar(c, recoveries, session, 1, oracle, n, r.epoch + 1);
    var share := session[1].exchange.clientPublic;
    var scalar := Ask(recoveries, c.publicOf, oracle, share, r.epoch + 1, n).result.value;
    EstablishedExactly(c, kex, session[1], scalar, r.epoch + 1, Some(r.sessionId));
  }

  /** The turn of the last epoch ends the loop. */
  lemma TurnEnds(c: Crypto, recoveries: seq<Recovery>, kex: Kex, session: seq<PeerEpoch>, r: Run, oracle: State)
    requires Sane(c) && SessionOk(c, kex, session) && |session| == 1 && AtEpoch(c, kex, r, session)
    ensures var step := OneTurn(c, recoveries, kex, r, oracle);
            step.Stop? && step.outcome.result.Ok? && Reports(c, kex, r, session, step.outcome.result.value)
  {
    hide PeerKeys, Matches, OpenTurn, Counted, Rekey, OnTheWire, ChannelChunks, EpochRecord, PayloadsOf,
      Payloads, AllSendable, NewkeysOnlyLast, EndsWithNewkeys, VerifySignature, SignedHash, Sane, PeerHash;
    TurnOpens(c, kex, session, r);
    var t := OpenTurn(c, r).value;
    assert EpochOk(c, kex, session[0]);
    CountedFields(r, t, session[0]);
    var done := Counted(r, t).value;
    assert session[1..] == [];
    assert done.turns[..|r.turns|] == r.turns && done.turns[|r.turns|..] == [t];
    assert SessionChunks(session) == ChannelChunks(Payloads(session[0].s2c)).value + [];
    assert r.epochs + [] == r.epochs;
  }

  lemma TurnsSplit(before: seq<Turn>, next: seq<Turn>, done: seq<Turn>, session: seq<PeerEpoch>)
    requires session != [] && |next| == |before| + 1 && next[..|before|] == before
        && Matches(next[|before|], session[0])
    requires |next| <= |done| && done[..|next|] == next && AllMatch(done[|next|..], session[1..])
    ensures done[..|before|] == before && AllMatch(done[|before|..], session)
  {
    hide Matches;
    assert done[..|before|] == done[..|next|][..|before|];
    var rest := done[|before|..];
    assert rest[0] == done[..|next|][|before|];
    forall k | 0 <= k < |rest|
      ensures Matches(rest[k], session[k])
    {
      if k > 0 {
        assert rest[k] == done[|next|..][k - 1] && session[k] == session[1..][k - 1];
      }
    }
  }

  lemma RecordsSplit(c: Crypto, kex: Kex, sessionId: Octets, session: seq<PeerEpoch>, k: nat, before: seq<KeyEpoch>)
    requires |session| > 1
    ensures before + EpochRecords(c, kex, sessionId, session[1..], k + 1) ==
            before + [EpochRecord(c, kex, sessionId, session[1], k + 1)]
                + EpochRecords(c, kex, sessionId, session[1..][1..], k + 2)
  {
    hide EpochRecord;
  }

  lemma Associate(a: seq<Octets>, b: seq<Octets>, d: seq<Octets>)
    ensures a + (b + d) == a + b + d
  {
  }

  lemma ChunksSplit(session: seq<PeerEpoch>, before: seq<Octets>)
    requires session != [] && ChannelChunks(Payloads(session[0].s2c)).Ok?
    ensures before + SessionChunks(session) ==
            before + ChannelChunks(Payloads(session[0].s2c)).value + SessionChunks(session[1..])
  {
    hide ChannelChunks, Payloads;
    Associate(before, ChannelChunks(Payloads(session[0].s2c)).value, SessionChunks(session[1..]));
  }

  lemma ReportsMore(c: Crypto, kex: Kex, r: Run, session: seq<PeerEpoch>, next: Run, done: Run)
    requires |session| > 1 && MovesOn(c, kex, r, session, next) && Reports(c, kex, next, session[1..], done)
    ensures Reports(c, kex, r, session, done)
  {
    hide AtEpoch, Matches, AllMatch, EpochRecord, ChannelChunks, Payloads, EpochRecords, SessionChunks;
    TurnsSplit(r.turns, next.turns, done.turns, session);
    RecordsSplit(c, kex, r.sessionId, session, r.epoch, r.epochs);
    ChunksSplit(session, r.chunks);
  }

  lemma LaterHypotheses(c: Crypto, recoveries: seq<Recovery>, kex: Kex, session: seq<PeerEpoch>)
    requires |session| > 1 && HoldsScalars(c, recoveries, session) && AllDiscerning(c, kex, session)
    ensures HoldsScalars(c, recoveries, session[1..]) && AllDiscerning(c, kex, session[1..])
    ensures Shares(session[1..])[0] == session[1].exchange.clientPublic
    ensures Shares(session[1..])[1..] == Shares(session[1..][1..])
    ensures AllMinimal(session[1..]) <==> Minimal(session[1].raw) && AllMinimal(session[1..][1..])
  {
    hide Discerning, Minimal;
    var more := session[1..];
    assert more[0] == session[1];
    forall k | 0 <= k < |more|
      ensures more[k] == session[k + 1]
    {
    }
    if Minimal(session[1].raw) && AllMinimal(more[1..]) {
      forall k | 0 <= k < |more|
        ensures Minimal(more[k].raw)
      {
        if k > 0 {
          assert more[k] == more[1..][k - 1];
        }
      }
    }
    if AllMinimal(more) {
      forall k | 0 <= k < |more[1..]|
        ensures Minimal(more[1..][k].raw)
      {
        assert more[1..][k] == more[k + 1];
      }
    }
  }

  lemma NonEmptySession(c: Crypto, kex: Kex, session: seq<PeerEpoch>)
    requires SessionOk(c, kex, session)
    ensures session != []
  {
  }

  lemma AllOfNone(session: seq<PeerEpoch>)
    requires |session| == 1
    ensures AllMinimal(session[1..])
  {
  }

  lemma DiscerningAt(c: Crypto, kex: Kex, session: seq<PeerEpoch>, k: nat)
    requires k < |session| && AllDiscerning(c, kex, session)
    ensures Discerning(c, kex, session[k])
  {
  }

  lemma NextEpoch(c: Crypto, kex: Kex, r: Run, session: seq<PeerEpoch>, next: Run)
    requires |session| > 1 && MovesOn(c, kex, r, session, next)
    ensures AtEpoch(c, kex, next, session[1..])
  {
    hide AtEpoch;
  }

  /**
   * The loop run over the rest of a session: it returns every epoch's payloads in order under the peers' own keys when
   * all later secrets are minimal, and stops at an invalid signature otherwise.
   */
  lemma {:induction false} RunThroughSession(c: Crypto, recoveries: seq<Recovery>, kex: Kex, session: seq<PeerEpoch>,
      r: Run, oracle: State)
    requires Sane(c) && SessionOk(c, kex, session) && AllDiscerning(c, kex, session)
    requires HoldsScalars(c, recoveries, session) && AtEpoch(c, kex, r, session)
    requires Enough(recoveries, oracle.used, Shares(session[1..]))
    ensures var outcome := Recover(c, recoveries, kex, r, oracle);
            if AllMinimal(session[1..]) then outcome.result.Ok? && Reports(c, kex, r, session, outcome.result.value)
            else outcome.result == Err(InvalidSignature)
    decreases |session|
  {
    hide Sane, SessionOk, AllDiscerning, Discerning, HoldsScalars, AtEpoch, Enough, OneTurn, Recover, Reports, MovesOn,
      FirstUnused, UsedAfter, Minimal, AllMinimal, Shares;
    RecoverStep(c, recoveries, kex, r, oracle);
    NonEmptySession(c, kex, session);
    if |session| == 1 {
      TurnEnds(c, recoveries, kex, session, r, oracle);
      AllOfNone(session);
    } else {
      LaterHypotheses(c, recoveries, kex, session);
      DiscerningAt(c, kex, session, 1);
      EnoughForFirst(recoveries, oracle.used, Shares(session[1..]));
      TurnGoesOn(c, recoveries, kex, session, r, oracle);
      if Minimal(session[1].raw) {
        var step := OneTurn(c, recoveries, kex, r, oracle);
        SessionOkLater(c, kex, session);
        NextEpoch(c, kex, r, session, step.run);
        RunThroughSession(c, recoveries, kex, session[1..], step.run, step.oracle);
        if AllMinimal(session[1..]) {
          ReportsMore(c, kex, r, session, step.run, Recover(c, recoveries, kex, step.run, step.oracle).result.value);
        }
      }
    }
  }

  // ----- The whole recovery

  function Start(strict: bool, clear: nat): nat {
    if strict then 0 else clear
  }

  /** The capture of a session: its first exchange in the clear and all its epochs on the wire. */
  ghost predicate Captured(c: Crypto, kex: Kex, session: seq<PeerEpoch>) {
    && session != []
    && kex.exchange == session[0].exchange
    && OnTheWire(c, kex, PeerHash(c, kex, session[0]), session,
                 Start(kex.strict, kex.clearC2S), Start(kex.strict, kex.clearS2C), kex.encryptedC2S, kex.encryptedS2C)
  }

  /** Everything the peers sent, under the peers' keys, with the first exchange hash as session id. */
  ghost predicate Recovered(c: Crypto, kex: Kex, session: seq<PeerEpoch>, run: Run) {
    && session != []
    && AllMatch(run.turns, session)
    && run.epochs == EpochRecords(c, kex, PeerHash(c, kex, session[0]), session, 0)
    && run.chunks == SessionChunks(session)
  }

  /**
   * What recovery needs: a correct packet cipher and hash, a well-formed captured session, the supported algorithms,
   * and an oracle that holds the scalars.
   */
  ghost predicate Recoverable(c: Crypto, recoveries: seq<Recovery>, metadata: Metadata, kex: Kex,
      session: seq<PeerEpoch>) {
    && Sane(c) && SessionOk(c, kex, session)
    && Supported(kex, metadata) && Captured(c, kex, session)
    && HoldsScalars(c, recoveries, session) && Enough(recoveries, {}, Shares(session))
  }

  lemma Begins(c: Crypto, recoveries: seq<Recovery>, metadata: Metadata, kex: Kex, session: seq<PeerEpoch>)
    requires SessionOk(c, kex, session) && Discerning(c, kex, session[0]) && HoldsScalars(c, recoveries, session)
    requires Supported(kex, metadata) && kex.exchange == session[0].exchange
    requires FirstUnused(recoveries, {}, session[0].exchange.clientPublic, 0).Some?
    ensures var begun := Begin(c, recoveries, metadata, kex, State({}, []));
            if Minimal(session[0].raw) then
              && begun.result == Ok(Started(kex, EpochRecord(c, kex, PeerHash(c, kex, session[0]), session[0], 0)))
              && begun.oracle.used == UsedAfter(recoveries, {}, session[0].exchange.clientPublic)
            else begun.result == Err(InvalidSignature)
  {
    hide Supported, Discerning, HoldsScalars, FirstUnused, UsedAfter, Establish, Ask, PublicOf, SharedSecret, Minimal,
      EpochRecord, PeerHash, Started, Follows, EndsWithNewkeys, Payloads;
    assert EpochOk(c, kex, session[0]);
    var state := State({}, []);
    ReleasedScalar(c, recoveries, session, 0, state, 0, 0);
    var scalar := Ask(recoveries, c.publicOf, state, session[0].exchange.clientPublic, 0, 0).result.value;
    EstablishedExactly(c, kex, session[0], scalar, 0, None);
  }

  lemma StartedAtEpoch(c: Crypto, kex: Kex, session: seq<PeerEpoch>)
    requires Captured(c, kex, session)
    ensures AtEpoch(c, kex, Started(kex, EpochRecord(c, kex, PeerHash(c, kex, session[0]), session[0], 0)), session)
  {
    hide OnTheWire, PeerKeys, PeerHash, Mpint;
  }

  lemma ReportsFromStart(c: Crypto, kex: Kex, session: seq<PeerEpoch>, done: Run)
    requires session != []
    requires Reports(c, kex, Started(kex, EpochRecord(c, kex, PeerHash(c, kex, session[0]), session[0], 0)), session,
        done)
    ensures Recovered(c, kex, session, done)
  {
    hide AllMatch, PeerKeys, PeerHash, Mpint, SessionChunks;
    assert done.turns[0..] == done.turns;
    assert [] + SessionChunks(session) == SessionChunks(session);
  }

  lemma EnoughFromStart(recoveries: seq<Recovery>, session: seq<PeerEpoch>)
    requires session != [] && Enough(recoveries, {}, Shares(session))
    ensures FirstUnused(recoveries, {}, session[0].exchange.clientPublic, 0).Some?
    ensures Enough(recoveries, UsedAfter(recoveries, {}, session[0].exchange.clientPublic), Shares(session[1..]))
  {
    hide Enough, FirstUnused, UsedAfter;
    EnoughForFirst(recoveries, {}, Shares(session));
    assert Shares(session)[1..] == Shares(session[1..]);
  }

  lemma MinimalFromStart(session: seq<PeerEpoch>)
    requires session != []
    ensures AllMinimal(session) <==> Minimal(session[0].raw) && AllMinimal(session[1..])
  {
    hide Minimal;
    if Minimal(session[0].raw) && AllMinimal(session[1..]) {
      forall k | 0 <= k < |session|
        ensures Minimal(session[k].raw)
      {
        if k > 0 {
          assert session[k] == session[1..][k - 1];
        }
      }
    }
  }

  /**
   * End to end: from the capture of any well-formed session, with an oracle that holds its scalars, the recovery
   * succeeds exactly when no epoch's shared secret starts with a zero byte that its mpint lacks and the server's
   * channel data holds the test marker. It then returns every payload of every epoch; a secret that is not
   * minimal ends it at that epoch's signature.
   */
  lemma SessionRecoveredExactly(c: Crypto, recoveries: seq<Recovery>, metadata: Metadata, kex: Kex,
      session: seq<PeerEpoch>)
    requires Recoverable(c, recoveries, metadata, kex, session) && AllDiscerning(c, kex, session)
    ensures var r := Derive(c, recoveries, metadata, kex, State({}, [])).result;
            && (r.Ok? <==> AllMinimal(session) && Contains(Flatten(SessionChunks(session)), TestMarker()))
            && (r.Ok? ==> Recovered(c, kex, session, r.value))
            && (!AllMinimal(session) ==> r == Err(InvalidSignature))
            && (AllMinimal(session) && r.Err? ==> r == Err(ValueError))
  {
    hide Sane, SessionOk, AllDiscerning, Discerning, HoldsScalars, AtEpoch, Enough, Recover, Reports, Begin, Contains,
      Started, FirstUnused, UsedAfter, Minimal, AllMinimal, Shares, PeerHash, EpochRecord, Supported, SessionChunks,
      Flatten, TestMarker, EpochRecords, OnTheWire;
    NonEmptySession(c, kex, session);
    DiscerningAt(c, kex, session, 0);
    EnoughFromStart(recoveries, session);
    MinimalFromStart(session);
    Begins(c, recoveries, metadata, kex, session);
    if Minimal(session[0].raw) {
      var start := Started(kex, EpochRecord(c, kex, PeerHash(c, kex, session[0]), session[0], 0));
      var used := UsedAfter(recoveries, {}, session[0].exchange.clientPublic);
      StartedAtEpoch(c, kex, session);
      var oracle := Begin(c, recoveries, metadata, kex, State({}, [])).oracle;
      RunThroughSession(c, recoveries, kex, session, start, oracle);
      if AllMinimal(session) {
        ReportsFromStart(c, kex, session, Recover(c, recoveries, kex, start, oracle).result.value);
      }
    }
  }

  /** The successful half, of which nothing is asked beyond a minimal secret in every epoch. */
  lemma MinimalSessionRecovered(c: Crypto, recoveries: seq<Recovery>, metadata: Metadata, kex: Kex,
      session: seq<PeerEpoch>)
    requires Recoverable(c, recoveries, metadata, kex, session) && AllMinimal(session)
    ensures var r := Derive(c, recoveries, metadata, kex, State({}, [])).result;
            && (r.Ok? <==> Contains(Flatten(SessionChunks(session)), TestMarker()))
            && (r.Ok? ==> Recovered(c, kex, session, r.value))
  {
    hide Recoverable, Derive, Contains, Flatten, SessionChunks, TestMarker, Recovered, Minimal;
    SessionRecoveredExactly(c, recoveries, metadata, kex, session);
  }

  // ----- From the two TCP byte streams

  /** The clear front of one direction. */
  datatype Opening = Opening(before: Octets, version: Octets, carriageReturns: nat, sent: seq<Sent>)

  ghost predicate OpeningOk(o: Opening) {
    && Announced(o.before, o.version)
    && AllSendable(o.sent) && EndsInNewkeys(Payloads(o.sent))
  }

  function StreamOf(o: Opening, encrypted: Octets): Octets
    requires AllSendable(o.sent)
  {
    o.before + IdentificationLine(o.version, o.carriageReturns) + (ClearStream(o.sent) + encrypted)
  }

  /** The exchange both openings announce, and the algorithms their name-lists agree on. */
  ghost predicate Opens(client: Opening, server: Opening, kex: Kex) {
    && OpeningOk(client) && OpeningOk(server)
    && kex.clientVersion == client.version && kex.serverVersion == server.version
    && Announces(Payloads(client.sent), Payloads(server.sent), kex.exchange)
    && FirstOf(Payloads(server.sent), ECDH_INIT).Err?
    && NameLists(kex.exchange.clientKexinit).Ok? && NameLists(kex.exchange.serverKexinit).Ok?
    && kex.clearC2S == |client.sent| && kex.clearS2C == |server.sent|
    && var c, s := NameLists(kex.exchange.clientKexinit).value, NameLists(kex.exchange.serverKexinit).value;
       && Negotiate(c, s) == Ok(kex.negotiated)
       && (kex.strict <==> StrictClient() in c[0] && StrictServer() in s[0])
  }

  lemma AnnouncedKexinits(client: seq<Octets>, server: seq<Octets>, x: Exchange)
    requires Announces(client, server, x)
    ensures FirstOf(client, KEXINIT) == Ok(x.clientKexinit) && FirstOf(server, KEXINIT) == Ok(x.serverKexinit)
  {
    hide FirstOf;
  }

  lemma PayloadCount(sent: seq<Sent>)
    ensures |Payloads(sent)| == |sent|
  {
  }

  lemma StreamsGiveKex(client: Opening, server: Opening, kex: Kex)
    requires Opens(client, server, kex)
    ensures var c, s := StreamOf(client, kex.encryptedC2S), StreamOf(server, kex.encryptedS2C);
            Classify(c, s) == Classify(s, c) == Ok(Classified(c, s, kex))
  {
    hide Announces, NameLists, FirstOf, Negotiate, StrictClient, StrictServer, Transported, ExtractExchange,
        ClearStream,
      IdentificationLine, Payloads, AllSendable, EndsInNewkeys, At;
    TransportRoundTrip(client.before, client.version, client.carriageReturns, client.sent, kex.encryptedC2S);
    TransportRoundTrip(server.before, server.version, server.carriageReturns, server.sent, kex.encryptedS2C);
    ExchangeExactly(Payloads(client.sent), Payloads(server.sent), kex.exchange);
    AnnouncedKexinits(Payloads(client.sent), Payloads(server.sent), kex.exchange);
    PayloadCount(client.sent);
    PayloadCount(server.sent);
    ClassifiedInEitherOrder(StreamOf(client, kex.encryptedC2S), StreamOf(server, kex.encryptedS2C));
  }

  /** derive_ssh on two byte streams of unknown direction. */
  function DeriveFromStreams(c: Crypto, recoveries: seq<Recovery>, metadata: Metadata, first: Octets,
      second: Octets): Result<Run> {
    var found :- Classify(first, second);
    Derive(c, recoveries, metadata, found.kex, State({}, [])).result
  }

  /** The end-to-end result from the bytes a passive observer holds, in whichever order the directions are given. */
  lemma StreamsRecoveredExactly(c: Crypto, recoveries: seq<Recovery>, metadata: Metadata, kex: Kex,
      session: seq<PeerEpoch>, client: Opening, server: Opening)
    requires Recoverable(c, recoveries, metadata, kex, session) && AllDiscerning(c, kex, session)
    requires Opens(client, server, kex)
    ensures var one, other := StreamOf(client, kex.encryptedC2S), StreamOf(server, kex.encryptedS2C);
            var r := DeriveFromStreams(c, recoveries, metadata, one, other);
            && DeriveFromStreams(c, recoveries, metadata, other, one) == r
            && (r.Ok? <==> AllMinimal(session) && Contains(Flatten(SessionChunks(session)), TestMarker()))
            && (r.Ok? ==> Recovered(c, kex, session, r.value))
            && (!AllMinimal(session) ==> r == Err(InvalidSignature))
            && (AllMinimal(session) && r.Err? ==> r == Err(ValueError))
  {
    hide Recoverable, AllDiscerning, Derive, Contains, AllMinimal, SessionChunks, Flatten, TestMarker, Recovered,
        Classify, Announces, NameLists, FirstOf, Negotiate, EndsInNewkeys, At;
    StreamsGiveKex(client, server, kex);
    SessionRecoveredExactly(c, recoveries, metadata, kex, session);
  }
}
