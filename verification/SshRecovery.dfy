/**
 * The multi-epoch recovery loop of decryptor/ssh/derive_ssh.py. Hash, key agreement, signature and packet cipher are
 * parameters; framing, epochs, sequence numbers and the oracle are concrete.
 */
module SshRecovery {
  import opened Bytes
  import opened SshWire
  import opened SshNegotiation
  import opened SshKeys
  import opened SshCipher
  import opened SshOracle

  /**
   * shared(scalar, peer) is None where the exchange yields the all-zero value; verify(key, signature, message) is
   * the raw Ed25519 check.
   */
  datatype Crypto = Crypto(
    cipher: Cipher,
    hash: Octets -> Octets,
    digestSize: nat,
    publicOf: Octets -> Octets,
    shared: (Octets, Octets) -> Option<Octets>,
    verify: (Octets, Octets, Octets) -> bool)

  // ----- Channel data

  const CHANNEL_DATA: Byte := 94

  /** channel_data */
  function ChannelData(payload: Octets): Result<Option<Octets>> {
    if payload == [] || payload[0] != CHANNEL_DATA || |payload| < 5 then Ok(None)
    else
      var field :- ReadString(payload, 5);
      if field.next != |payload| then Err(ValueError) else Ok(Some(field.value))
  }

  /** Data is extracted exactly from messages with one string after the recipient channel; section 5.2 of RFC 4254. */
  lemma ChannelDataExactly(payload: Octets, value: Octets)
    ensures ChannelData(payload) == Ok(Some(value)) <==>
            Fits(value) && |payload| >= 5 && payload[0] == 94 && payload[5..] == SshString(value)
    ensures ChannelData(payload) == Ok(None) <==> payload == [] || payload[0] != 94 || |payload| < 5
    ensures ChannelData(payload).Err? ==> ChannelData(payload) == Err(ValueError)
  {
    hide BigEndian, SshString;
    if |payload| >= 5 && payload[0] == CHANNEL_DATA {
      if Fits(value) && payload[5..] == SshString(value) {
        assert payload == payload[..5] + SshString(value) + [];
        StringRoundTrip(payload[..5], value, []);
        StringSizes(value);
      }
      if ChannelData(payload) == Ok(Some(value)) {
        StringWasWritten(payload, 5);
        assert payload[5..|payload|] == payload[5..];
      }
    }
  }

  function ChannelChunks(payloads: seq<Octets>): Result<seq<Octets>> {
    if payloads == [] then Ok([])
    else
      var first :- ChannelData(payloads[0]);
      var more :- ChannelChunks(payloads[1..]);
      Ok(if first.None? then more else [first.value] + more)
  }

  /** One payload gives its data, nothing, or the error. */
  lemma OnePayload(payload: Octets)
    ensures ChannelChunks([payload]) ==
            match ChannelData(payload)
            case Err(e) => Err(e)
            case Ok(None) => Ok([])
            case Ok(Some(value)) => Ok([value])
  {
    hide ChannelData;
    var payloads := [payload];
    assert payloads[1..] == [];
    assert ChannelChunks(payloads[1..]) == Ok([]);
    if ChannelData(payload).Ok? && ChannelData(payload).value.Some? {
      assert [ChannelData(payload).value.value] + [] == [ChannelData(payload).value.value];
    }
  }

  /** Data comes out in packet order, and the first packet that is refused decides the error. */
  lemma {:induction false} ChunksInOrder(a: seq<Octets>, b: seq<Octets>)
    ensures ChannelChunks(a + b) ==
            if ChannelChunks(a).Err? then ChannelChunks(a) else Add(ChannelChunks(a).value, ChannelChunks(b))
  {
    hide ChannelData;
    if a == [] {
      assert a + b == b;
      AddTwice([], [], ChannelChunks(b));
    } else {
      assert (a + b)[0] == a[0] && (a + b)[1..] == a[1..] + b;
      ChunksInOrder(a[1..], b);
      if ChannelData(a[0]).Ok? && ChannelData(a[0]).value.Some? && ChannelChunks(a[1..]).Ok? {
        AddTwice([ChannelData(a[0]).value.value], ChannelChunks(a[1..]).value, ChannelChunks(b));
      }
    }
  }

  lemma {:induction false} ChunksRefused(payloads: seq<Octets>)
    ensures ChannelChunks(payloads).Err? ==> ChannelChunks(payloads) == Err(ValueError)
  {
    hide BigEndian;
    if payloads != [] {
      ChunksRefused(payloads[1..]);
    }
  }

  function TotalSize(chunks: seq<Octets>): nat {
    if chunks == [] then 0 else |chunks[0]| + TotalSize(chunks[1..])
  }

  predicate Contains(s: Octets, pattern: Octets) {
    Find(s, pattern, 0).Some?
  }

  /** The marker may stand anywhere. */
  lemma ContainsExactly(s: Octets, pattern: Octets)
    ensures Contains(s, pattern) <==> exists i: nat :: At(s, pattern, i)
  {
    hide Find, At;
  }

  // ----- One key exchange

  /** recover_curve25519_shared_secret */
  function SharedSecret(c: Crypto, scalar: Octets, peer: Octets): Result<Octets> {
    if |scalar| != 32 || |peer| != 32 then Err(ValueError)
    else
      match c.shared(scalar, peer)
      case None => Err(ValueError)
      case Some(raw) => Ok(raw)
  }

  function Ed25519(): Name {
    Text("ssh-ed25519")
  }

  /** The value of a blob that holds the algorithm name and one string. */
  function Ed25519Value(blob: Octets): Result<Octets> {
    var algorithm :- ReadString(blob, 0);
    var value :- ReadString(blob, algorithm.next);
    if value.next != |blob| || algorithm.value != Ed25519() then Err(ValueError) else Ok(value.value)
  }

  /** verify_ed25519_kex_signature */
  function VerifySignature(c: Crypto, hostKey: Octets, signature: Octets, H: Octets): Result<()> {
    var publicValue :- Ed25519Value(hostKey);
    var raw :- Ed25519Value(signature);
    if |publicValue| != 32 then Err(ValueError)
    else if c.verify(publicValue, raw, H) then Ok(()) else Err(InvalidSignature)
  }

  lemma Ed25519Name()
    ensures Ed25519() == Text("ssh-ed25519")
  {
  }

  lemma BlobExactly(blob: Octets, value: Octets)
    ensures Ed25519Value(blob) == Ok(value) <==>
            Fits(value) && blob == SshString(Text("ssh-ed25519")) + SshString(value)
  {
    hide ReadString, SshString, Ed25519;
    var name := Text("ssh-ed25519");
    assert name == Ed25519() by {
      Ed25519Name();
    }
    if Fits(value) && blob == SshString(name) + SshString(value) {
      StringSizes(name);
      StringSizes(value);
      assert blob == [] + SshString(name) + SshString(value);
      StringRoundTrip([], name, SshString(value));
      assert blob == SshString(name) + SshString(value) + [];
      StringRoundTrip(SshString(name), value, []);
    }
    if Ed25519Value(blob) == Ok(value) {
      var algorithm := ReadString(blob, 0).value;
      StringWasWritten(blob, 0);
      StringWasWritten(blob, algorithm.next);
      assert blob == blob[0..algorithm.next] + blob[algorithm.next..|blob|];
    }
  }

  /**
   * A host signature is accepted exactly when key and signature are strings after the name "ssh-ed25519", the key is of
   * 32 bytes, and the raw check holds for the exchange hash; section 6 of RFC 8709. Where only the raw check fails the
   * error is its own.
   */
  lemma SignatureExactly(c: Crypto, hostKey: Octets, signature: Octets, H: Octets, key: Octets, raw: Octets)
    requires Fits(key) && hostKey == SshString(Text("ssh-ed25519")) + SshString(key)
    ensures Fits(raw) && signature == SshString(Text("ssh-ed25519")) + SshString(raw) ==>
              VerifySignature(c, hostKey, signature, H) ==
              if |key| != 32 then Err(ValueError) else if c.verify(key, raw, H) then Ok(()) else Err(InvalidSignature)
    ensures VerifySignature(c, hostKey, signature, H).Ok? ==>
              exists r: Octets :: Fits(r) && signature == SshString(Text("ssh-ed25519")) + SshString(r)
                                  && |key| == 32 && c.verify(key, r, H)
  {
    hide Ed25519Value, SshString;
    BlobExactly(hostKey, key);
    BlobExactly(signature, raw);
    if VerifySignature(c, hostKey, signature, H).Ok? {
      BlobExactly(signature, Ed25519Value(signature).value);
    }
  }

  /** One entry of the epoch traces. */
  datatype KeyEpoch = KeyEpoch(epoch: nat, exchangeHash: Octets, sharedRaw: Octets, sharedMpint: Octets,
      keys: SessionKeys)

  /** From a released scalar to the epoch's keys; the first epoch's own hash is the session id. */
  function Establish(c: Crypto, kex: Kex, x: Exchange, scalar: Octets, epoch: nat,
      sessionId: Option<Octets>): Result<KeyEpoch> {
    var raw :- SharedSecret(c, scalar, x.serverPublic);
    var K :- LengthPrefixed(Mpint(raw));
    var H :- ExchangeHash(c.hash, kex.clientVersion, kex.serverVersion, x, raw);
    var verified :- VerifySignature(c, x.hostKey, x.signature, H);
    Ok(KeyEpoch(epoch, H, raw, K, DeriveKeys(c.hash, K, H, if sessionId.Some? then sessionId.value else H)))
  }

  // ----- The loop's state

  datatype Counts = Counts(epoch: nat, c2s: nat, s2c: nat, channelBytes: nat)

  /** Both directions of one epoch, as one turn of the loop decrypts them. */
  datatype Turn = Turn(c2s: Epoch, s2c: Epoch)

  /** The loop's variables; turns keeps what the two epoch locals hold in each turn. */
  datatype Run = Run(
    epoch: nat, sessionId: Octets, keys: SessionKeys,
    remainingC2S: Octets, remainingS2C: Octets, sequenceC2S: nat, sequenceS2C: nat,
    authenticatedC2S: nat, authenticatedS2C: nat,
    chunks: seq<Octets>, counts: seq<Counts>, epochs: seq<KeyEpoch>, turns: seq<Turn>)

  datatype Outcome = Outcome(result: Result<Run>, oracle: State)

  // ----- One turn

  function OpenTurn(c: Crypto, r: Run): Result<Turn> {
    var c2s :- OpenEpoch(c.cipher, r.keys.encC2S, r.sequenceC2S, r.remainingC2S);
    var s2c :- OpenEpoch(c.cipher, r.keys.encS2C, r.sequenceS2C, r.remainingS2C);
    Ok(Turn(c2s, s2c))
  }

  function Counted(r: Run, t: Turn): Result<Run> {
    var chunks :- ChannelChunks(PayloadsOf(t.s2c.packets));
    Ok(r.(authenticatedC2S := r.authenticatedC2S + |t.c2s.packets|,
          authenticatedS2C := r.authenticatedS2C + |t.s2c.packets|,
          counts := r.counts + [Counts(r.epoch, |t.c2s.packets|, |t.s2c.packets|, TotalSize(chunks))],
          chunks := r.chunks + chunks,
          turns := r.turns + [t]))
  }

  /** The state of the next epoch. */
  function Advanced(kex: Kex, r: Run, t: Turn, next: KeyEpoch): Run {
    r.(epoch := r.epoch + 1,
       keys := next.keys,
       epochs := r.epochs + [next],
       remainingC2S := t.c2s.remaining,
       remainingS2C := t.s2c.remaining,
       sequenceC2S := if kex.strict then 0 else t.c2s.nextSequence,
       sequenceS2C := if kex.strict then 0 else t.s2c.nextSequence)
  }

  /** The exchange found in an authenticated epoch, the scalar released for it, and the state that follows. */
  function Rekey(c: Crypto, recoveries: seq<Recovery>, kex: Kex, r: Run, t: Turn, oracle: State): Outcome {
    match ExtractExchange(PayloadsOf(t.c2s.packets), PayloadsOf(t.s2c.packets))
    case Err(e) => Outcome(Err(e), oracle)
    case Ok(x) =>
      var asked := Ask(recoveries, c.publicOf, oracle, x.clientPublic, r.epoch + 1,
          r.authenticatedC2S + r.authenticatedS2C);
      if asked.result.Err? then Outcome(Err(asked.result.error), asked.state)
      else
        var next := Establish(c, kex, x, asked.result.value, r.epoch + 1, Some(r.sessionId));
        if next.Err? then Outcome(Err(next.error), asked.state)
        else Outcome(Ok(Advanced(kex, r, t, next.value)), asked.state)
  }

  datatype Step = Stop(outcome: Outcome) | Again(run: Run, oracle: State)

  function OneTurn(c: Crypto, recoveries: seq<Recovery>, kex: Kex, r: Run, oracle: State): (step: Step)
    ensures step.Again? ==> |step.run.remainingC2S| < |r.remainingC2S|
  {
    var turn := OpenTurn(c, r);
    if turn.Err? then Stop(Outcome(Err(turn.error), oracle))
    else
      var t := turn.value;
      var counted := Counted(r, t);
      if counted.Err? then Stop(Outcome(Err(counted.error), oracle))
      else if t.c2s.newkeys != t.s2c.newkeys then Stop(Outcome(Err(ValueError), oracle))
      else if !t.c2s.newkeys then Stop(Outcome(Ok(counted.value), oracle))
      else
        var next := Rekey(c, recoveries, kex, counted.value, t, oracle);
        if next.result.Err? then Stop(next) else Again(next.result.value, next.oracle)
  }

  /** The loop from a state on. */
  function Recover(c: Crypto, recoveries: seq<Recovery>, kex: Kex, r: Run, oracle: State): Outcome
    decreases |r.remainingC2S|
  {
    match OneTurn(c, recoveries, kex, r, oracle)
    case Stop(outcome) => outcome
    case Again(run, later) => Recover(c, recoveries, kex, run, later)
  }

  lemma RecoverStep(c: Crypto, recoveries: seq<Recovery>, kex: Kex, r: Run, oracle: State)
    ensures Recover(c, recoveries, kex, r, oracle) ==
            match OneTurn(c, recoveries, kex, r, oracle)
            case Stop(outcome) => outcome
            case Again(run, later) => Recover(c, recoveries, kex, run, later)
  {
    hide OneTurn;
  }

  // ----- The whole recovery

  datatype Metadata = Metadata(algorithm: Name, recoveredSide: Name)

  function ExpectedKex(): Name {
    Text("curve25519-sha256")
  }

  function ExpectedCipher(): Name {
    Text("chacha20-poly1305@openssh.com")
  }

  function TestMarker(): Octets {
    Text("SSH_TEST_OK")
  }

  predicate Supported(kex: Kex, metadata: Metadata) {
    && kex.negotiated.kex == ExpectedKex()
    && kex.negotiated.cipherC2S == ExpectedCipher() && kex.negotiated.cipherS2C == ExpectedCipher()
    && metadata.algorithm == ExpectedKex() && metadata.recoveredSide == Text("client")
  }

  /** What recovery supports: one key exchange, one cipher in both directions, and a recovered client. */
  lemma SupportedExactly(kex: Kex, metadata: Metadata)
    ensures Supported(kex, metadata) <==>
            && kex.negotiated.kex == metadata.algorithm == Text("curve25519-sha256")
            && kex.negotiated.cipherC2S == kex.negotiated.cipherS2C == Text("chacha20-poly1305@openssh.com")
            && metadata.recoveredSide == Text("client")
    ensures TestMarker() == Text("SSH_TEST_OK")
  {
  }

  /** The state before the first turn. */
  function Started(kex: Kex, first: KeyEpoch): Run {
    Run(0, first.exchangeHash, first.keys, kex.encryptedC2S, kex.encryptedS2C,
        if kex.strict then 0 else kex.clearC2S, if kex.strict then 0 else kex.clearS2C,
        0, 0, [], [], [first], [])
  }

  /** Everything before the loop. */
  function Begin(c: Crypto, recoveries: seq<Recovery>, metadata: Metadata, kex: Kex, oracle: State): Outcome {
    if !Supported(kex, metadata) then Outcome(Err(ValueError), oracle)
    else
      var asked := Ask(recoveries, c.publicOf, oracle, kex.exchange.clientPublic, 0, 0);
      if asked.result.Err? then Outcome(Err(asked.result.error), asked.state)
      else if PublicOf(c.publicOf, asked.result.value) != Ok(kex.exchange.clientPublic)
          then Outcome(Err(ValueError), asked.state)
      else
        var first := Establish(c, kex, kex.exchange, asked.result.value, 0, None);
        if first.Err? then Outcome(Err(first.error), asked.state)
        else Outcome(Ok(Started(kex, first.value)), asked.state)
  }

  /** What the loop returns, given that the recovered channel data holds the test marker. */
  function Checked(outcome: Outcome): Outcome {
    if outcome.result.Ok? && !Contains(Flatten(outcome.result.value.chunks), TestMarker())
    then Outcome(Err(ValueError), outcome.oracle) else outcome
  }

  function Derive(c: Crypto, recoveries: seq<Recovery>, metadata: Metadata, kex: Kex, oracle: State): Outcome {
    var begun := Begin(c, recoveries, metadata, kex, oracle);
    if begun.result.Err? then begun
    else Checked(Recover(c, recoveries, kex, begun.result.value, begun.oracle))
  }

  /** The turn once both directions are open and counted. */
  function AfterOpening(c: Crypto, recoveries: seq<Recovery>, kex: Kex, r: Run, t: Turn, oracle: State): Outcome {
    if t.c2s.newkeys != t.s2c.newkeys then Outcome(Err(ValueError), oracle)
    else if !t.c2s.newkeys then Outcome(Ok(r), oracle)
    else
      var next := Rekey(c, recoveries, kex, r, t, oracle);
      if next.result.Err? then next else Recover(c, recoveries, kex, next.result.value, next.oracle)
  }

  /** The turn's outcomes in the order in which they are tried, on the loop's own values. */
  lemma TurnCases(c: Crypto, recoveries: seq<Recovery>, kex: Kex, r: Run, oracle: State)
    ensures Recover(c, recoveries, kex, r, oracle) ==
            var c2s := OpenEpoch(c.cipher, r.keys.encC2S, r.sequenceC2S, r.remainingC2S);
            if c2s.Err? then Outcome(Err(c2s.error), oracle)
            else
              var s2c := OpenEpoch(c.cipher, r.keys.encS2C, r.sequenceS2C, r.remainingS2C);
              if s2c.Err? then Outcome(Err(s2c.error), oracle)
              else
                var chunks := ChannelChunks(PayloadsOf(s2c.value.packets));
                if chunks.Err? then Outcome(Err(chunks.error), oracle)
                else AfterOpening(c, recoveries, kex, Counted(r, Turn(c2s.value, s2c.value)).value,
                                  Turn(c2s.value, s2c.value), oracle)
  {
    hide OpenEpoch, ChannelChunks, PayloadsOf, TotalSize, Rekey, Recover;
    RecoverStep(c, recoveries, kex, r, oracle);
  }

  lemma EstablishErrors(c: Crypto, kex: Kex, x: Exchange, scalar: Octets)
    ensures forall raw :: LengthPrefixed(raw).Err? ==> LengthPrefixed(raw) == Err(StructError)
    ensures forall raw :: var h := ExchangeHash(c.hash, kex.clientVersion, kex.serverVersion, x, raw);
                          h.Err? ==> h == Err(StructError)
    ensures forall h :: var v := VerifySignature(c, x.hostKey, x.signature, h);
                        v.Err? ==> v == Err(ValueError) || v == Err(InvalidSignature)
  {
    hide SshString, Strings, Hashable, ExchangeMpint, Ed25519, BigEndian;
  }

  /** Every way in which keys are not established: the signature alone has an error of its own. */
  lemma NotEstablished(c: Crypto, kex: Kex, x: Exchange, scalar: Octets, epoch: nat, sessionId: Option<Octets>)
    ensures var r := Establish(c, kex, x, scalar, epoch, sessionId);
            && (r == Err(ValueError) || r == Err(StructError) || r == Err(InvalidSignature) || r.Ok?)
            && (SharedSecret(c, scalar, x.serverPublic).Err? ==> r == Err(ValueError))
    ensures SharedSecret(c, scalar, x.serverPublic).Err? <==>
            |scalar| != 32 || |x.serverPublic| != 32 || c.shared(scalar, x.serverPublic).None?
  {
    hide LengthPrefixed, Transcript, Mpint, ExchangeMpint, Ed25519, ReadString, DeriveKeys;
    EstablishErrors(c, kex, x, scalar);
  }

  /** Without the supported algorithms nothing is asked of the oracle. */
  lemma UnsupportedRefused(c: Crypto, recoveries: seq<Recovery>, metadata: Metadata, kex: Kex, oracle: State)
    ensures !Supported(kex, metadata) ==>
              Derive(c, recoveries, metadata, kex, oracle) == Outcome(Err(ValueError), oracle)
  {
    hide Supported, Recover;
  }

  /** When only one direction of an epoch reaches NEWKEYS the run ends there, before the oracle is asked. */
  lemma LoneNewkeysRefused(c: Crypto, recoveries: seq<Recovery>, kex: Kex, r: Run, oracle: State)
    requires OpenTurn(c, r).Ok? && OpenTurn(c, r).value.c2s.newkeys != OpenTurn(c, r).value.s2c.newkeys
    ensures Recover(c, recoveries, kex, r, oracle) == Outcome(Err(ValueError), oracle)
  {
    hide OpenTurn, ChannelChunks, Recover, Rekey;
    RecoverStep(c, recoveries, kex, r, oracle);
    ChunksRefused(PayloadsOf(OpenTurn(c, r).value.s2c.packets));
  }

  /** The turn stops after opening, in each of the ways it can. */
  lemma TurnStops(c: Crypto, recoveries: seq<Recovery>, kex: Kex, r: Run, t: Turn, oracle: State)
    ensures t.c2s.newkeys != t.s2c.newkeys ==>
              AfterOpening(c, recoveries, kex, r, t, oracle) == Outcome(Err(ValueError), oracle)
    ensures !t.c2s.newkeys && !t.s2c.newkeys ==>
              AfterOpening(c, recoveries, kex, r, t, oracle) == Outcome(Ok(r), oracle)
    ensures var x := ExtractExchange(PayloadsOf(t.c2s.packets), PayloadsOf(t.s2c.packets));
            t.c2s.newkeys && t.s2c.newkeys && x.Err? ==>
              AfterOpening(c, recoveries, kex, r, t, oracle) == Outcome(Err(x.error), oracle)
  {
    hide ExtractExchange, PayloadsOf, Ask, Establish, Recover, Advanced;
  }

  /** The turn stops at the oracle, or at the next keys. */
  lemma RekeyStops(c: Crypto, recoveries: seq<Recovery>, kex: Kex, r: Run, t: Turn, oracle: State, x: Exchange,
      asked: Asked)
    requires t.c2s.newkeys && t.s2c.newkeys
    requires ExtractExchange(PayloadsOf(t.c2s.packets), PayloadsOf(t.s2c.packets)) == Ok(x)
    requires Ask(recoveries, c.publicOf, oracle, x.clientPublic, r.epoch + 1, r.authenticatedC2S + r.authenticatedS2C)
        == asked
    ensures asked.result.Err? ==>
              AfterOpening(c, recoveries, kex, r, t, oracle) == Outcome(Err(asked.result.error), asked.state)
    ensures asked.result.Ok? ==>
              var next := Establish(c, kex, x, asked.result.value, r.epoch + 1, Some(r.sessionId));
              next.Err? ==> AfterOpening(c, recoveries, kex, r, t, oracle) == Outcome(Err(next.error), asked.state)
  {
    hide ExtractExchange, PayloadsOf, Ask, Establish, Recover, Advanced;
  }

  /** The turn goes on: the oracle released a scalar for the next exchange, and its keys are established. */
  lemma TurnContinues(c: Crypto, recoveries: seq<Recovery>, kex: Kex, r: Run, t: Turn, oracle: State, x: Exchange,
      asked: Asked, next: KeyEpoch)
    requires t.c2s.newkeys && t.s2c.newkeys
    requires ExtractExchange(PayloadsOf(t.c2s.packets), PayloadsOf(t.s2c.packets)) == Ok(x)
    requires Ask(recoveries, c.publicOf, oracle, x.clientPublic, r.epoch + 1, r.authenticatedC2S + r.authenticatedS2C)
        == asked
    requires asked.result.Ok? && Establish(c, kex, x, asked.result.value, r.epoch + 1, Some(r.sessionId)) == Ok(next)
    ensures AfterOpening(c, recoveries, kex, r, t, oracle)
        == Recover(c, recoveries, kex, Advanced(kex, r, t, next), asked.state)
  {
    hide ExtractExchange, PayloadsOf, Ask, Establish, Recover, Advanced;
  }

  lemma CountedRun(r: Run, t: Turn)
    requires ChannelChunks(PayloadsOf(t.s2c.packets)).Ok?
    ensures var chunks := ChannelChunks(PayloadsOf(t.s2c.packets)).value;
            Counted(r, t) == Ok(Run(
              r.epoch, r.sessionId, r.keys, r.remainingC2S, r.remainingS2C, r.sequenceC2S, r.sequenceS2C,
              r.authenticatedC2S + |t.c2s.packets|, r.authenticatedS2C + |t.s2c.packets|, r.chunks + chunks,
              r.counts + [Counts(r.epoch, |t.c2s.packets|, |t.s2c.packets|, TotalSize(chunks))], r.epochs,
              r.turns + [t]))
  {
    hide ChannelChunks, PayloadsOf, TotalSize;
  }

  lemma AdvancedRun(kex: Kex, r: Run, t: Turn, next: KeyEpoch)
    ensures Advanced(kex, r, t, next) == Run(
              r.epoch + 1, r.sessionId, next.keys, t.c2s.remaining, t.s2c.remaining,
              if kex.strict then 0 else t.c2s.nextSequence, if kex.strict then 0 else t.s2c.nextSequence,
              r.authenticatedC2S, r.authenticatedS2C, r.chunks, r.counts, r.epochs + [next], r.turns)
  {
  }

  /** The outcomes before the loop, in the order in which they are tried. */
  lemma DeriveCases(c: Crypto, recoveries: seq<Recovery>, metadata: Metadata, kex: Kex, oracle: State)
    ensures Derive(c, recoveries, metadata, kex, oracle) ==
            if !Supported(kex, metadata) then Outcome(Err(ValueError), oracle)
            else
              var asked := Ask(recoveries, c.publicOf, oracle, kex.exchange.clientPublic, 0, 0);
              if asked.result.Err? then Outcome(Err(asked.result.error), asked.state)
              else if PublicOf(c.publicOf, asked.result.value) != Ok(kex.exchange.clientPublic)
                  then Outcome(Err(ValueError), asked.state)
              else
                var first := Establish(c, kex, kex.exchange, asked.result.value, 0, None);
                if first.Err? then Outcome(Err(first.error), asked.state)
                else Checked(Recover(c, recoveries, kex, Started(kex, first.value), asked.state))
  {
    hide Supported, Ask, PublicOf, Establish, Recover, Checked, Started;
  }

  /** b"".join */
  method JoinChunks(chunks: seq<Octets>) returns (data: Octets)
    ensures data == Flatten(chunks)
  {
    data := [];
    for i := 0 to |chunks|
      invariant data == Flatten(chunks[..i])
    {
      assert chunks[..i + 1][..i] == chunks[..i];
      data := data + chunks[i];
    }
    assert chunks[..|chunks|] == chunks;
  }

  method DeriveSsh(c: Crypto, oracle: SimulatedQuantumOracle, metadata: Metadata, kex: Kex) returns (r: Result<Run>)
    requires oracle.publicOf == c.publicOf
    modifies oracle, oracle.server
    ensures Outcome(r, oracle.Now()) == Derive(c, oracle.server.recoveries, metadata, kex, old(oracle.Now()))
  {
    hide Establish, Ask, OpenEpoch, ChannelChunks, ExtractExchange, Flatten, Contains, Supported, Recover, TotalSize,
        PublicOf, PayloadsOf, Derive, Begin, OneTurn, OpenTurn, Counted, Advanced,
        AfterOpening, Rekey;
    DeriveCases(c, oracle.server.recoveries, metadata, kex, oracle.Now());
    if !Supported(kex, metadata) {
      return Err(ValueError);
    }
    var scalar :- oracle.Recover(kex.exchange.clientPublic, 0, 0);
    if PublicOf(c.publicOf, scalar) != Ok(kex.exchange.clientPublic) {
      return Err(ValueError);
    }
    var first :- Establish(c, kex, kex.exchange, scalar, 0, None);
    var initialHash := first.exchangeHash;
    var derived := first.keys;
    var epochTraces := [first];
    var remainingC2S, remainingS2C := kex.encryptedC2S, kex.encryptedS2C;
    var sequenceC2S: nat := if kex.strict then 0 else kex.clearC2S;
    var sequenceS2C: nat := if kex.strict then 0 else kex.clearS2C;
    var authenticatedC2S: nat, authenticatedS2C: nat := 0, 0;
    var channelChunks: seq<Octets> := [];
    var packetCounts: seq<Counts> := [];
    var turns: seq<Turn> := [];
    var epoch: nat := 0;
    ghost var recoveries := oracle.server.recoveries;
    ghost var whole := Recover(c, recoveries, kex, Started(kex, first), oracle.Now());
    while true
      invariant oracle.publicOf == c.publicOf && oracle.server.recoveries == recoveries
      invariant Recover(c, recoveries, kex,
                        Run(epoch, initialHash, derived, remainingC2S, remainingS2C, sequenceC2S, sequenceS2C,
                            authenticatedC2S, authenticatedS2C, channelChunks, packetCounts, epochTraces, turns),
                        oracle.Now()) == whole
      decreases |remainingC2S|
    {
      ghost var run := Run(epoch, initialHash, derived, remainingC2S, remainingS2C, sequenceC2S, sequenceS2C,
                           authenticatedC2S, authenticatedS2C, channelChunks, packetCounts, epochTraces, turns);
      TurnCases(c, recoveries, kex, run, oracle.Now());
      var c2s :- DecryptEpoch(c.cipher, remainingC2S, derived.encC2S, sequenceC2S);
      var s2c :- DecryptEpoch(c.cipher, remainingS2C, derived.encS2C, sequenceS2C);
      authenticatedC2S := authenticatedC2S + |c2s.packets|;
      authenticatedS2C := authenticatedS2C + |s2c.packets|;
      var epochChunks :- ChannelChunks(PayloadsOf(s2c.packets));
      CountedRun(run, Turn(c2s, s2c));
      ghost var counted, t, state := Counted(run, Turn(c2s, s2c)).value, Turn(c2s, s2c), oracle.Now();
      TurnStops(c, recoveries, kex, counted, t, state);
      packetCounts := packetCounts + [Counts(epoch, |c2s.packets|, |s2c.packets|, TotalSize(epochChunks))];
      channelChunks := channelChunks + epochChunks;
      turns := turns + [Turn(c2s, s2c)];
      if c2s.newkeys != s2c.newkeys {
        return Err(ValueError);
      }
      if !c2s.newkeys {
        break;
      }
      var rekey :- ExtractExchange(PayloadsOf(c2s.packets), PayloadsOf(s2c.packets));
      epoch := epoch + 1;
      RekeyStops(c, recoveries, kex, counted, t, state, rekey,
                 Ask(recoveries, c.publicOf, state, rekey.clientPublic, epoch, authenticatedC2S + authenticatedS2C));
      var nextScalar :- oracle.Recover(rekey.clientPublic, epoch, authenticatedC2S + authenticatedS2C);
      var next :- Establish(c, kex, rekey, nextScalar, epoch, Some(initialHash));
      AdvancedRun(kex, counted, t, next);
      TurnContinues(c, recoveries, kex, counted, t, state, rekey, Asked(Ok(nextScalar), oracle.Now()), next);
      epochTraces := epochTraces + [next];
      derived := next.keys;
      remainingC2S, remainingS2C := c2s.remaining, s2c.remaining;
      if kex.strict {
        sequenceC2S, sequenceS2C := 0, 0;
      } else {
        sequenceC2S, sequenceS2C := c2s.nextSequence, s2c.nextSequence;
      }
      assert Run(epoch, initialHash, derived, remainingC2S, remainingS2C, sequenceC2S, sequenceS2C, authenticatedC2S,
                 authenticatedS2C, channelChunks, packetCounts, epochTraces, turns) == Advanced(kex, counted, t, next);
    }
    ghost var end := Run(epoch, initialHash, derived, remainingC2S, remainingS2C, sequenceC2S, sequenceS2C,
                         authenticatedC2S, authenticatedS2C, channelChunks, packetCounts, epochTraces, turns);
    assert whole == Outcome(Ok(end), oracle.Now());
    var recovered := JoinChunks(channelChunks);
    if !Contains(recovered, TestMarker()) {
      return Err(ValueError);
    }
    return Ok(Run(epoch, initialHash, derived, remainingC2S, remainingS2C, sequenceC2S, sequenceS2C,
                  authenticatedC2S, authenticatedS2C, channelChunks, packetCounts, epochTraces, turns));
  }
}
