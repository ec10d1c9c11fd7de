/**
 * What any successful recovery run certifies, whatever was on the wire (decryptor/ssh/derive_ssh.py): every encrypted
 * byte belongs to one authenticated packet, packets carry consecutive sequence numbers, and releases are numbered.
 *
 * The first half treats one direction, the second both directions of a run, and the last the release trace.
 */
module SshAccounting {
  import opened Bytes
  import opened SshWire
  import opened SshNegotiation
  import opened SshKeys
  import opened SshCipher
  import opened SshOracle
  import opened SshRecovery
  import opened SshSessions

  // ----- One direction of a run

  /** The epochs of one direction opened one after the other, each under its key, until nothing remains. */
  ghost predicate Drained(c: Cipher, strict: bool, first: nat, keys: seq<Octets>, data: Octets, epochs: seq<Epoch>)
    decreases |epochs|
  {
    && |keys| == |epochs|
    && if epochs == [] then data == []
       else
         && OpenEpoch(c, keys[0], first, data) == Ok(epochs[0])
         && Drained(c, strict, if strict then 0 else epochs[0].nextSequence, keys[1..], epochs[0].remaining,
             epochs[1..])
  }

  lemma DrainedStep(c: Cipher, strict: bool, first: nat, keys: seq<Octets>, data: Octets, epochs: seq<Epoch>)
    requires epochs != []
    ensures Drained(c, strict, first, keys, data, epochs) <==>
            && |keys| == |epochs|
            && OpenEpoch(c, keys[0], first, data) == Ok(epochs[0])
            && Drained(c, strict, if strict then 0 else epochs[0].nextSequence, keys[1..], epochs[0].remaining,
                epochs[1..])
  {
    hide OpenEpoch;
  }

  /** Flights that hold the packets of the epochs, under the given keys. */
  ghost predicate Holds(flights: seq<Flight>, keys: seq<Octets>, epochs: seq<Epoch>) {
    && |flights| == |keys| == |epochs|
    && forall k :: 0 <= k < |flights| ==>
         flights[k].key == keys[k] && Payloads(flights[k].sent) == PayloadsOf(epochs[k].packets)
  }

  /** Within each epoch the numbers count up from the epoch's first. */
  ghost predicate NumberedEpochs(strict: bool, first: nat, epochs: seq<Epoch>)
    decreases |epochs|
  {
    epochs == [] ||
    (Numbered(epochs[0].packets, first)
        && NumberedEpochs(strict, Restart(strict, first, |epochs[0].packets|), epochs[1..]))
  }

  ghost predicate LongKeys(keys: seq<Octets>) {
    forall k :: 0 <= k < |keys| ==> |keys[k]| >= 64
  }

  lemma HoldsFirst(flight: Flight, more: seq<Flight>, keys: seq<Octets>, epochs: seq<Epoch>)
    requires |keys| == |epochs| > 0 && Holds(more, keys[1..], epochs[1..])
    requires flight.key == keys[0] && Payloads(flight.sent) == PayloadsOf(epochs[0].packets)
    ensures Holds([flight] + more, keys, epochs)
  {
    hide Payloads, PayloadsOf;
    var all := [flight] + more;
    forall k | 0 <= k < |all|
      ensures all[k].key == keys[k] && Payloads(all[k].sent) == PayloadsOf(epochs[k].packets)
    {
      if k > 0 {
        assert all[k] == more[k - 1] && keys[1..][k - 1] == keys[k] && epochs[1..][k - 1] == epochs[k];
      }
    }
  }

  lemma NoFlights(c: Cipher, strict: bool, first: nat)
    ensures Sealable([]) && Holds([], [], []) && Wire(c, strict, first, []) == []
  {
  }

  lemma SameCount(sent: seq<Sent>, packets: seq<Opened>)
    requires Payloads(sent) == PayloadsOf(packets)
    ensures |sent| == |packets|
  {
  }

  lemma NoPackets(c: Cipher, key: Octets, first: nat, rest: Octets)
    requires |key| >= 64
    ensures SealedStream(c, key, first, []) + rest == rest
  {
  }

  /** The bytes of a drained direction are exactly the sealed packets of its epochs, and those are numbered in order. */
  lemma {:induction false} DrainedWasSealed(c: Cipher, strict: bool, first: nat, keys: seq<Octets>, data: Octets,
      epochs: seq<Epoch>)
      returns (flights: seq<Flight>)
    requires Correct(c) && LongKeys(keys) && Drained(c, strict, first, keys, data, epochs)
    ensures Sealable(flights) && Holds(flights, keys, epochs)
    ensures data == Wire(c, strict, first, flights)
    ensures NumberedEpochs(strict, first, epochs)
    decreases |epochs|
  {
    hide Correct, OpenEpoch, Sealable, SealedStream, Numbered, Ends, Holds, Wire, AllSendable, PayloadsOf, Payloads;
    if epochs == [] {
      flights := [];
      NoFlights(c, strict, first);
    } else {
      DrainedStep(c, strict, first, keys, data, epochs);
      var sent := EpochWasSealed(c, keys[0], first, data);
      var next := if strict then 0 else epochs[0].nextSequence;
      SameCount(sent, epochs[0].packets);
      var more := DrainedWasSealed(c, strict, next, keys[1..], epochs[0].remaining, epochs[1..]);
      var flight := Flight(keys[0], sent);
      flights := [flight] + more;
      SealableSplit(flight, more);
      WireStep(c, strict, first, flight, more);
      HoldsFirst(flight, more, keys, epochs);
      if sent == [] {
        NoPackets(c, keys[0], first, epochs[0].remaining);
      }
    }
  }

  // ----- Sequence numbers, explicitly

  function PacketsBefore(epochs: seq<Epoch>, k: nat): nat
    requires k <= |epochs|
  {
    if k == 0 then 0 else PacketsBefore(epochs, k - 1) + |epochs[k - 1].packets|
  }

  lemma {:induction false} PacketsBeforeLater(epochs: seq<Epoch>, k: nat)
    requires k < |epochs|
    ensures PacketsBefore(epochs, k + 1) == |epochs[0].packets| + PacketsBefore(epochs[1..], k)
  {
    if k > 0 {
      PacketsBeforeLater(epochs, k - 1);
    }
  }

  lemma {:induction false} SequenceTwice(first: nat, m: nat, n: nat)
    ensures SequenceAfter(SequenceAfter(first, m), n) == SequenceAfter(first, m + n)
  {
    hide NextSequence;
    if n > 0 {
      SequenceTwice(first, m, n - 1);
    }
  }

  /** Without strict key exchange the numbers run through all epochs. */
  lemma {:induction false} ContinuousNumbers(first: nat, epochs: seq<Epoch>, k: nat)
    requires NumberedEpochs(false, first, epochs) && k < |epochs|
    ensures Numbered(epochs[k].packets, SequenceAfter(first, PacketsBefore(epochs, k)))
    decreases k
  {
    hide Numbered, SequenceAfter;
    if k == 0 {
      SequenceStart(first);
    } else {
      var n := |epochs[0].packets|;
      ContinuousNumbers(SequenceAfter(first, n), epochs[1..], k - 1);
      PacketsBeforeLater(epochs, k - 1);
      SequenceTwice(first, n, PacketsBefore(epochs[1..], k - 1));
    }
  }

  /** With strict key exchange every epoch starts at zero. */
  lemma {:induction false} RestartedNumbers(epochs: seq<Epoch>, k: nat)
    requires NumberedEpochs(true, 0, epochs) && k < |epochs|
    ensures Numbered(epochs[k].packets, 0)
    decreases k
  {
    hide Numbered;
    if k > 0 {
      RestartedNumbers(epochs[1..], k - 1);
    }
  }

  /** The i-th packet of epoch k: its number counts within the epoch, or from the clear packets on, modulo 2^32. */
  lemma SequenceNumbers(strict: bool, clear: nat, epochs: seq<Epoch>, k: nat, i: nat)
    requires clear < 0x1_0000_0000 && NumberedEpochs(strict, Start(strict, clear), epochs)
    requires k < |epochs| && i < |epochs[k].packets|
    ensures epochs[k].packets[i].sequence ==
            (if strict then i else clear + PacketsBefore(epochs, k) + i) % 0x1_0000_0000
  {
    hide NumberedEpochs, SequenceAfter;
    if strict {
      RestartedNumbers(epochs, k);
      SequenceAfterIs(0, i);
    } else {
      var n := PacketsBefore(epochs, k);
      ContinuousNumbers(clear, epochs, k);
      SequenceTwice(clear, n, i);
      SequenceAfterIs(clear, n + i);
    }
  }

  // ----- A whole run

  function EpochsC2S(turns: seq<Turn>): (epochs: seq<Epoch>)
    ensures |epochs| == |turns| && forall k :: 0 <= k < |turns| ==> epochs[k] == turns[k].c2s
  {
    seq(|turns|, k requires 0 <= k < |turns| => turns[k].c2s)
  }

  function EpochsS2C(turns: seq<Turn>): (epochs: seq<Epoch>)
    ensures |epochs| == |turns| && forall k :: 0 <= k < |turns| ==> epochs[k] == turns[k].s2c
  {
    seq(|turns|, k requires 0 <= k < |turns| => turns[k].s2c)
  }

  function KeysC2S(epochs: seq<KeyEpoch>): (keys: seq<Octets>)
    ensures |keys| == |epochs| && forall k :: 0 <= k < |epochs| ==> keys[k] == epochs[k].keys.encC2S
  {
    seq(|epochs|, k requires 0 <= k < |epochs| => epochs[k].keys.encC2S)
  }

  function KeysS2C(epochs: seq<KeyEpoch>): (keys: seq<Octets>)
    ensures |keys| == |epochs| && forall k :: 0 <= k < |epochs| ==> keys[k] == epochs[k].keys.encS2C
  {
    seq(|epochs|, k requires 0 <= k < |epochs| => epochs[k].keys.encS2C)
  }

  /** An epoch's keys come from its own secret and hash, under one session id. */
  predicate DerivedFrom(c: Crypto, sessionId: Octets, e: KeyEpoch) {
    e.keys == DeriveKeys(c.hash, e.sharedMpint, e.exchangeHash, sessionId)
  }

  /** What a run adds from state r on. */
  ghost predicate Adds(c: Crypto, kex: Kex, r: Run, done: Run, turns: seq<Turn>, epochs: seq<KeyEpoch>) {
    && done.turns == r.turns + turns && done.epochs == r.epochs + epochs
    && |turns| == |epochs| + 1
    && done.sessionId == r.sessionId
    && (forall k :: 0 <= k < |epochs| ==> DerivedFrom(c, r.sessionId, epochs[k]))
    && Drained(c.cipher, kex.strict, r.sequenceC2S, [r.keys.encC2S] + KeysC2S(epochs), r.remainingC2S, EpochsC2S(turns))
    && Drained(c.cipher, kex.strict, r.sequenceS2C, [r.keys.encS2C] + KeysS2C(epochs), r.remainingS2C, EpochsS2C(turns))
    && done.authenticatedC2S == r.authenticatedC2S + PacketsBefore(EpochsC2S(turns), |turns|)
    && done.authenticatedS2C == r.authenticatedS2C + PacketsBefore(EpochsS2C(turns), |turns|)
  }

  lemma DrainedMore(c: Cipher, strict: bool, first: nat, key: Octets, keys: seq<Octets>, data: Octets, e: Epoch,
      epochs: seq<Epoch>)
    requires OpenEpoch(c, key, first, data) == Ok(e) && |keys| == |epochs|
    requires Drained(c, strict, if strict then 0 else e.nextSequence, keys, e.remaining, epochs)
    ensures Drained(c, strict, first, [key] + keys, data, [e] + epochs)
    ensures PacketsBefore([e] + epochs, |epochs| + 1) == |e.packets| + PacketsBefore(epochs, |epochs|)
  {
    hide OpenEpoch, Drained;
    DrainedStep(c, strict, first, [key] + keys, data, [e] + epochs);
    assert ([key] + keys)[1..] == keys && ([e] + epochs)[1..] == epochs;
    PacketsBeforeLater([e] + epochs, |epochs|);
  }

  lemma TurnsApart(t: Turn, turns: seq<Turn>)
    ensures EpochsC2S([t] + turns) == [t.c2s] + EpochsC2S(turns)
    ensures EpochsS2C([t] + turns) == [t.s2c] + EpochsS2C(turns)
  {
  }

  lemma KeysApart(e: KeyEpoch, epochs: seq<KeyEpoch>)
    ensures KeysC2S([e] + epochs) == [e.keys.encC2S] + KeysC2S(epochs)
    ensures KeysS2C([e] + epochs) == [e.keys.encS2C] + KeysS2C(epochs)
  {
  }

  lemma CountedExactly(r: Run, t: Turn)
    requires Counted(r, t).Ok?
    ensures var done := Counted(r, t).value;
            && done.turns == r.turns + [t] && done.epochs == r.epochs && done.sessionId == r.sessionId
                && done.epoch == r.epoch
            && done.authenticatedC2S == r.authenticatedC2S + |t.c2s.packets|
            && done.authenticatedS2C == r.authenticatedS2C + |t.s2c.packets|
  {
    hide ChannelChunks;
  }

  /** A turn that ends the loop well left nothing in either direction. */
  lemma TurnStopped(c: Crypto, recoveries: seq<Recovery>, kex: Kex, r: Run, oracle: State)
    requires OneTurn(c, recoveries, kex, r, oracle).Stop? && OneTurn(c, recoveries, kex, r, oracle).outcome.result.Ok?
    ensures OpenTurn(c, r).Ok? && Counted(r, OpenTurn(c, r).value).Ok?
    ensures var t := OpenTurn(c, r).value;
            && t.c2s.remaining == [] && t.s2c.remaining == []
            && OneTurn(c, recoveries, kex, r, oracle).outcome == Outcome(Ok(Counted(r, t).value), oracle)
  {
    hide OpenEpoch, Counted, Rekey;
  }

  /** A turn after which the loop goes on found an exchange and derived the next keys under the same session id. */
  lemma TurnWentOn(c: Crypto, recoveries: seq<Recovery>, kex: Kex, r: Run, oracle: State) returns (next: KeyEpoch)
    requires OneTurn(c, recoveries, kex, r, oracle).Again?
    ensures OpenTurn(c, r).Ok? && Counted(r, OpenTurn(c, r).value).Ok?
    ensures var t := OpenTurn(c, r).value;
            && t.c2s.newkeys && t.s2c.newkeys
            && DerivedFrom(c, r.sessionId, next) && next.epoch == r.epoch + 1
            && OneTurn(c, recoveries, kex, r, oracle).run == Advanced(kex, Counted(r, t).value, t, next)
  {
    hide OpenEpoch, Counted, ExtractExchange, Ask, Advanced, DeriveKeys, SharedSecret, ExchangeHash, VerifySignature,
        Mpint, LengthPrefixed;
    var t := OpenTurn(c, r).value;
    var counted := Counted(r, t).value;
    CountedExactly(r, t);
    var x := ExtractExchange(PayloadsOf(t.c2s.packets), PayloadsOf(t.s2c.packets)).value;
    var asked := Ask(recoveries, c.publicOf, oracle, x.clientPublic, r.epoch + 1,
        counted.authenticatedC2S + counted.authenticatedS2C);
    next := Establish(c, kex, x, asked.result.value, r.epoch + 1, Some(r.sessionId)).value;
  }

  lemma AddsLast(c: Crypto, kex: Kex, r: Run, t: Turn)
    requires OpenTurn(c, r) == Ok(t) && Counted(r, t).Ok? && t.c2s.remaining == [] && t.s2c.remaining == []
    ensures Adds(c, kex, r, Counted(r, t).value, [t], [])
  {
    hide OpenEpoch, Counted;
    CountedExactly(r, t);
    assert r.epochs + [] == r.epochs;
    TurnsApart(t, []);
    DrainedMore(c.cipher, kex.strict, r.sequenceC2S, r.keys.encC2S, [], r.remainingC2S, t.c2s, []);
    DrainedMore(c.cipher, kex.strict, r.sequenceS2C, r.keys.encS2C, [], r.remainingS2C, t.s2c, []);
    assert KeysC2S([]) == [] && KeysS2C([]) == [] && EpochsC2S([]) == [] && EpochsS2C([]) == [];
    assert [t] + [] == [t];
  }

  lemma DerivedAll(c: Crypto, sessionId: Octets, next: KeyEpoch, epochs: seq<KeyEpoch>)
    requires DerivedFrom(c, sessionId, next) && forall k :: 0 <= k < |epochs| ==> DerivedFrom(c, sessionId, epochs[k])
    ensures forall k :: 0 <= k < |[next] + epochs| ==> DerivedFrom(c, sessionId, ([next] + epochs)[k])
  {
    hide DerivedFrom;
  }

  lemma AddsMore(c: Crypto, kex: Kex, r: Run, t: Turn, next: KeyEpoch, done: Run, turns: seq<Turn>,
      epochs: seq<KeyEpoch>)
    requires OpenTurn(c, r) == Ok(t) && Counted(r, t).Ok? && DerivedFrom(c, r.sessionId, next)
    requires Adds(c, kex, Advanced(kex, Counted(r, t).value, t, next), done, turns, epochs)
    ensures Adds(c, kex, r, done, [t] + turns, [next] + epochs)
  {
    hide OpenEpoch, Counted, Drained, PacketsBefore, DerivedFrom, EpochsC2S, EpochsS2C, KeysC2S, KeysS2C;
    CountedExactly(r, t);
    TurnsApart(t, turns);
    KeysApart(next, epochs);
    DrainedMore(c.cipher, kex.strict, r.sequenceC2S, r.keys.encC2S, [next.keys.encC2S] + KeysC2S(epochs),
        r.remainingC2S, t.c2s, EpochsC2S(turns));
    DrainedMore(c.cipher, kex.strict, r.sequenceS2C, r.keys.encS2C, [next.keys.encS2C] + KeysS2C(epochs),
        r.remainingS2C, t.s2c, EpochsS2C(turns));
    assert r.turns + [t] + turns == r.turns + ([t] + turns);
    assert r.epochs + [next] + epochs == r.epochs + ([next] + epochs);
    DerivedAll(c, r.sessionId, next, epochs);
  }

  lemma {:induction false} RunAdds(c: Crypto, recoveries: seq<Recovery>, kex: Kex, r: Run, oracle: State)
      returns (turns: seq<Turn>, epochs: seq<KeyEpoch>)
    requires Recover(c, recoveries, kex, r, oracle).result.Ok?
    ensures Adds(c, kex, r, Recover(c, recoveries, kex, r, oracle).result.value, turns, epochs)
    decreases |r.remainingC2S|
  {
    hide OneTurn, OpenTurn, Counted, Recover, Adds, DerivedFrom;
    RecoverStep(c, recoveries, kex, r, oracle);
    var step := OneTurn(c, recoveries, kex, r, oracle);
    if step.Stop? {
      TurnStopped(c, recoveries, kex, r, oracle);
      var t := OpenTurn(c, r).value;
      AddsLast(c, kex, r, t);
      turns, epochs := [t], [];
    } else {
      var next := TurnWentOn(c, recoveries, kex, r, oracle);
      var t := OpenTurn(c, r).value;
      var moreTurns, moreEpochs := RunAdds(c, recoveries, kex, step.run, step.oracle);
      AddsMore(c, kex, r, t, next, Recover(c, recoveries, kex, r, oracle).result.value, moreTurns, moreEpochs);
      turns, epochs := [t] + moreTurns, [next] + moreEpochs;
    }
  }

  // ----- What backs each epoch's keys

  /** The exchange an epoch came from, the scalar used for it, and the event of that scalar's release. */
  datatype Backing = Backing(exchange: Exchange, scalar: Octets, event: Event)

  /**
   * The scalar is a stored one, released for the share that the exchange announces; it yields the epoch's secret, and
   * the host's signature is valid for the epoch's hash, which is the hash of that exchange.
   */
  ghost predicate Backs(c: Crypto, recoveries: seq<Recovery>, kex: Kex, b: Backing, e: KeyEpoch) {
    && b.event.epoch == e.epoch && b.event.share == b.exchange.clientPublic && b.event.status == Released
    && Recovery(b.scalar, b.exchange.clientPublic) in recoveries && c.publicOf(b.scalar) == b.exchange.clientPublic
    && SharedSecret(c, b.scalar, b.exchange.serverPublic) == Ok(e.sharedRaw)
    && LengthPrefixed(Mpint(e.sharedRaw)) == Ok(e.sharedMpint)
    && ExchangeHash(c.hash, kex.clientVersion, kex.serverVersion, b.exchange, e.sharedRaw) == Ok(e.exchangeHash)
    && VerifySignature(c, b.exchange.hostKey, b.exchange.signature, e.exchangeHash).Ok?
  }

  lemma EstablishedBacks(c: Crypto, recoveries: seq<Recovery>, kex: Kex, x: Exchange, epoch: nat,
      sessionId: Option<Octets>, oracle: State, n: nat, asked: Asked) returns (b: Backing)
    requires asked == Ask(recoveries, c.publicOf, oracle, x.clientPublic, epoch, n) && asked.result.Ok?
    requires Establish(c, kex, x, asked.result.value, epoch, sessionId).Ok?
    ensures Backs(c, recoveries, kex, b, Establish(c, kex, x, asked.result.value, epoch, sessionId).value)
    ensures b.exchange == x && asked.state.trace == oracle.trace + [b.event]
  {
    hide Ask, SharedSecret, LengthPrefixed, Mpint, ExchangeHash, VerifySignature, DeriveKeys;
    ReleasedIsConsistent(recoveries, c.publicOf, oracle, x.clientPublic, epoch, n);
    var trace := asked.state.trace;
    assert trace == trace[..|trace| - 1] + [trace[|trace| - 1]];
    b := Backing(x, asked.result.value, trace[|trace| - 1]);
  }

  /** Both peers' packets of a turn announce the exchange. */
  ghost predicate AnnouncedIn(t: Turn, x: Exchange) {
    Announces(PayloadsOf(t.c2s.packets), PayloadsOf(t.s2c.packets), x)
  }

  /** A turn that goes on was backed by the exchange its own authenticated packets announce. */
  lemma TurnBacked(c: Crypto, recoveries: seq<Recovery>, kex: Kex, r: Run, oracle: State) returns (b: Backing)
    requires OneTurn(c, recoveries, kex, r, oracle).Again?
    ensures OpenTurn(c, r).Ok?
    ensures var step := OneTurn(c, recoveries, kex, r, oracle);
            var t := OpenTurn(c, r).value;
            && AnnouncedIn(t, b.exchange) && step.run.turns == r.turns + [t]
            && |step.run.epochs| == |r.epochs| + 1 && r.epochs <= step.run.epochs
            && Backs(c, recoveries, kex, b, step.run.epochs[|r.epochs|])
            && step.oracle.trace == oracle.trace + [b.event]
  {
    hide OpenEpoch, Counted, ExtractExchange, Ask, Establish, Announces, Backs, PayloadsOf;
    var t := OpenTurn(c, r).value;
    var counted := Counted(r, t).value;
    CountedExactly(r, t);
    var x := ExtractExchange(PayloadsOf(t.c2s.packets), PayloadsOf(t.s2c.packets)).value;
    ExchangeExactly(PayloadsOf(t.c2s.packets), PayloadsOf(t.s2c.packets), x);
    var n := counted.authenticatedC2S + counted.authenticatedS2C;
    b := EstablishedBacks(c, recoveries, kex, x, r.epoch + 1, Some(r.sessionId), oracle, n,
        Ask(recoveries, c.publicOf, oracle, x.clientPublic, r.epoch + 1, n));
  }

  /** In any turn of any run, an entry of the release trace is about the share that the turn's packets announce. */
  lemma AskedForAnnounced(c: Crypto, recoveries: seq<Recovery>, kex: Kex, r: Run, oracle: State)
      returns (x: Exchange, event: Event)
    requires var step := OneTurn(c, recoveries, kex, r, oracle);
             (if step.Stop? then step.outcome.oracle.trace else step.oracle.trace) != oracle.trace
    ensures OpenTurn(c, r).Ok? && AnnouncedIn(OpenTurn(c, r).value, x) && event.share == x.clientPublic
    ensures var step := OneTurn(c, recoveries, kex, r, oracle);
            (if step.Stop? then step.outcome.oracle.trace else step.oracle.trace) == oracle.trace + [event]
  {
    hide OpenEpoch, Counted, ExtractExchange, Ask, Establish, Announces, PayloadsOf;
    var t := OpenTurn(c, r).value;
    var counted := Counted(r, t).value;
    CountedExactly(r, t);
    x := ExtractExchange(PayloadsOf(t.c2s.packets), PayloadsOf(t.s2c.packets)).value;
    ExchangeExactly(PayloadsOf(t.c2s.packets), PayloadsOf(t.s2c.packets), x);
    var n := counted.authenticatedC2S + counted.authenticatedS2C;
    ReleasedIsConsistent(recoveries, c.publicOf, oracle, x.clientPublic, r.epoch + 1, n);
    var trace := Ask(recoveries, c.publicOf, oracle, x.clientPublic, r.epoch + 1, n).state.trace;
    event := trace[|trace| - 1];
    assert trace == trace[..|trace| - 1] + [event];
  }

  function EventsOf(backings: seq<Backing>): (events: seq<Event>)
    ensures |events| == |backings| && forall k :: 0 <= k < |backings| ==> events[k] == backings[k].event
  {
    seq(|backings|, k requires 0 <= k < |backings| => backings[k].event)
  }

  /** The epochs from i on, each announced in the turns from j on. */
  ghost predicate BackedFrom(c: Crypto, recoveries: seq<Recovery>, kex: Kex, done: Run, i: nat, j: nat,
                             backings: seq<Backing>) {
    && |done.epochs| == i + |backings| && |done.turns| >= j + |backings|
    && (forall k :: 0 <= k < |backings| ==> Backs(c, recoveries, kex, backings[k], done.epochs[i + k]))
    && (forall k :: 0 <= k < |backings| ==> AnnouncedIn(done.turns[j + k], backings[k].exchange))
  }

  lemma BackedMore(c: Crypto, recoveries: seq<Recovery>, kex: Kex, done: Run, i: nat, j: nat, b: Backing,
      more: seq<Backing>)
    requires i < |done.epochs| && j < |done.turns|
    requires Backs(c, recoveries, kex, b, done.epochs[i]) && AnnouncedIn(done.turns[j], b.exchange)
    requires BackedFrom(c, recoveries, kex, done, i + 1, j + 1, more)
    ensures BackedFrom(c, recoveries, kex, done, i, j, [b] + more)
    ensures EventsOf([b] + more) == [b.event] + EventsOf(more)
  {
    hide Backs, AnnouncedIn;
    var all := [b] + more;
    forall k | 0 <= k < |all|
      ensures Backs(c, recoveries, kex, all[k], done.epochs[i + k]) && AnnouncedIn(done.turns[j + k], all[k].exchange)
    {
      if k > 0 {
        assert all[k] == more[k - 1] && done.epochs[i + 1 + (k - 1)] == done.epochs[i + k];
        assert done.turns[j + 1 + (k - 1)] == done.turns[j + k];
      }
    }
  }

  lemma NothingBacked(c: Crypto, recoveries: seq<Recovery>, kex: Kex, done: Run, i: nat, j: nat)
    requires |done.epochs| == i && |done.turns| >= j
    ensures BackedFrom(c, recoveries, kex, done, i, j, []) && EventsOf([]) == []
  {
  }

  lemma {:induction false} RunBacked(c: Crypto, recoveries: seq<Recovery>, kex: Kex, r: Run, oracle: State)
      returns (backings: seq<Backing>)
    requires Recover(c, recoveries, kex, r, oracle).result.Ok?
    ensures var outcome := Recover(c, recoveries, kex, r, oracle);
            && r.epochs <= outcome.result.value.epochs && r.turns <= outcome.result.value.turns
            && BackedFrom(c, recoveries, kex, outcome.result.value, |r.epochs|, |r.turns|, backings)
            && outcome.oracle.trace == oracle.trace + EventsOf(backings)
    decreases |r.remainingC2S|
  {
    hide OneTurn, OpenTurn, Counted, Recover, Backs, AnnouncedIn, BackedFrom, EventsOf;
    RecoverStep(c, recoveries, kex, r, oracle);
    var step := OneTurn(c, recoveries, kex, r, oracle);
    var done := Recover(c, recoveries, kex, r, oracle).result.value;
    if step.Stop? {
      TurnStopped(c, recoveries, kex, r, oracle);
      CountedExactly(r, OpenTurn(c, r).value);
      backings := [];
      NothingBacked(c, recoveries, kex, done, |r.epochs|, |r.turns|);
      assert oracle.trace + [] == oracle.trace;
    } else {
      var b := TurnBacked(c, recoveries, kex, r, oracle);
      var more := RunBacked(c, recoveries, kex, step.run, step.oracle);
      assert done.epochs[|r.epochs|] == step.run.epochs[|r.epochs|];
      assert done.turns[|r.turns|] == step.run.turns[|r.turns|];
      BackedMore(c, recoveries, kex, done, |r.epochs|, |r.turns|, b, more);
      assert (oracle.trace + [b.event]) + EventsOf(more) == oracle.trace + ([b.event] + EventsOf(more));
      backings := [b] + more;
    }
  }

  /**
   * One backing an epoch, in order: the first for the exchange announced in the clear, every other one for the
   * exchange announced in the epoch before.
   */
  ghost predicate Backed(c: Crypto, recoveries: seq<Recovery>, kex: Kex, run: Run, backings: seq<Backing>) {
    && |backings| == |run.epochs| == |run.turns| > 0
    && backings[0].exchange == kex.exchange
    && (forall k :: 0 <= k < |backings| ==> Backs(c, recoveries, kex, backings[k], run.epochs[k]))
    && (forall k :: 0 < k < |backings| ==> AnnouncedIn(run.turns[k - 1], backings[k].exchange))
  }

  lemma BackedWithFirst(c: Crypto, recoveries: seq<Recovery>, kex: Kex, run: Run, b: Backing, more: seq<Backing>)
    requires |run.epochs| == |run.turns| > 0 && b.exchange == kex.exchange
    requires Backs(c, recoveries, kex, b, run.epochs[0]) && BackedFrom(c, recoveries, kex, run, 1, 0, more)
    ensures Backed(c, recoveries, kex, run, [b] + more)
    ensures EventsOf([b] + more) == [b.event] + EventsOf(more)
  {
    hide Backs, AnnouncedIn;
    var all := [b] + more;
    forall k | 0 < k < |all|
      ensures Backs(c, recoveries, kex, all[k], run.epochs[k]) && AnnouncedIn(run.turns[k - 1], all[k].exchange)
    {
      assert all[k] == more[k - 1] && run.epochs[1 + (k - 1)] == run.epochs[k];
      assert run.turns[0 + (k - 1)] == run.turns[k - 1];
    }
  }

  /** The first epoch's keys are backed by the exchange that was announced in the clear. */
  lemma BegunBacked(c: Crypto, recoveries: seq<Recovery>, metadata: Metadata, kex: Kex, oracle: State)
      returns (b: Backing)
    requires Begin(c, recoveries, metadata, kex, oracle).result.Ok?
    ensures var begun := Begin(c, recoveries, metadata, kex, oracle);
            && b.exchange == kex.exchange && |begun.result.value.epochs| == 1 && begun.result.value.turns == []
            && Backs(c, recoveries, kex, b, begun.result.value.epochs[0])
            && begun.oracle.trace == oracle.trace + [b.event]
  {
    hide Ask, Establish, Supported, PublicOf, Backs;
    b := EstablishedBacks(c, recoveries, kex, kex.exchange, 0, None, oracle, 0,
        Ask(recoveries, c.publicOf, oracle, kex.exchange.clientPublic, 0, 0));
  }

  // ----- A whole recovery

  /** One direction of a successful recovery, under one key an epoch. */
  ghost predicate Conserved(c: Cipher, strict: bool, clear: nat, keys: seq<Octets>, data: Octets, epochs: seq<Epoch>,
                            flights: seq<Flight>) {
    && Sealable(flights) && Holds(flights, keys, epochs)
    && data == Wire(c, strict, Start(strict, clear), flights)
    && (clear < SEQUENCE_MODULUS ==>
          forall k, i :: 0 <= k < |epochs| && 0 <= i < |epochs[k].packets| ==>
            epochs[k].packets[i].sequence == (if strict then i
                else clear + PacketsBefore(epochs, k) + i) % SEQUENCE_MODULUS)
  }

  lemma DirectionConserved(c: Cipher, strict: bool, clear: nat, keys: seq<Octets>, data: Octets, epochs: seq<Epoch>)
      returns (flights: seq<Flight>)
    requires Correct(c) && LongKeys(keys) && Drained(c, strict, Start(strict, clear), keys, data, epochs)
    ensures Conserved(c, strict, clear, keys, data, epochs, flights)
  {
    hide Correct, Drained, Sealable, Holds, Wire, NumberedEpochs, LongKeys;
    flights := DrainedWasSealed(c, strict, Start(strict, clear), keys, data, epochs);
    if clear < SEQUENCE_MODULUS {
      forall k, i | 0 <= k < |epochs| && 0 <= i < |epochs[k].packets|
        ensures epochs[k].packets[i].sequence
            == (if strict then i else clear + PacketsBefore(epochs, k) + i) % SEQUENCE_MODULUS
      {
        SequenceNumbers(strict, clear, epochs, k, i);
      }
    }
  }

  lemma DerivedKeysAreLong(c: Crypto, sessionId: Octets, epochs: seq<KeyEpoch>)
    requires FixedOutput(c.hash, c.digestSize)
    requires forall k :: 0 <= k < |epochs| ==> DerivedFrom(c, sessionId, epochs[k])
    ensures LongKeys(KeysC2S(epochs)) && LongKeys(KeysS2C(epochs))
  {
    hide DerivedKey, FixedOutput;
    forall k | 0 <= k < |epochs|
      ensures |epochs[k].keys.encC2S| == 64 && |epochs[k].keys.encS2C| == 64
    {
      var e := epochs[k];
      assert DerivedFrom(c, sessionId, e);
      ShorterKeyIsPrefix(c.hash, c.digestSize, e.sharedMpint, e.exchangeHash, 67, sessionId, 64, 64);
      ShorterKeyIsPrefix(c.hash, c.digestSize, e.sharedMpint, e.exchangeHash, 68, sessionId, 64, 64);
    }
  }

  lemma BegunState(c: Crypto, recoveries: seq<Recovery>, metadata: Metadata, kex: Kex,
      oracle: State) returns (first: KeyEpoch)
    requires Begin(c, recoveries, metadata, kex, oracle).result.Ok?
    ensures Begin(c, recoveries, metadata, kex, oracle).result.value == Started(kex, first)
    ensures DerivedFrom(c, first.exchangeHash, first) && first.epoch == 0
  {
    hide Ask, DeriveKeys, SharedSecret, ExchangeHash, VerifySignature, Mpint, LengthPrefixed, Supported, PublicOf;
    var asked := Ask(recoveries, c.publicOf, oracle, kex.exchange.clientPublic, 0, 0);
    first := Establish(c, kex, kex.exchange, asked.result.value, 0, None).value;
  }

  /** What holds of the result of every successful recovery. */
  ghost predicate Certified(c: Crypto, kex: Kex, run: Run, c2s: seq<Flight>, s2c: seq<Flight>) {
    && |run.turns| == |run.epochs| > 0
    && (forall k :: 0 <= k < |run.epochs| ==> DerivedFrom(c, run.epochs[0].exchangeHash, run.epochs[k]))
    && Conserved(c.cipher, kex.strict, kex.clearC2S, KeysC2S(run.epochs), kex.encryptedC2S, EpochsC2S(run.turns), c2s)
    && Conserved(c.cipher, kex.strict, kex.clearS2C, KeysS2C(run.epochs), kex.encryptedS2C, EpochsS2C(run.turns), s2c)
    && run.authenticatedC2S == PacketsBefore(EpochsC2S(run.turns), |run.turns|)
    && run.authenticatedS2C == PacketsBefore(EpochsS2C(run.turns), |run.turns|)
  }

  lemma CertifiedFrom(c: Crypto, kex: Kex, first: KeyEpoch, run: Run, turns: seq<Turn>, epochs: seq<KeyEpoch>)
      returns (c2s: seq<Flight>, s2c: seq<Flight>)
    requires Sane(c) && DerivedFrom(c, first.exchangeHash, first)
        && Adds(c, kex, Started(kex, first), run, turns, epochs)
    ensures Certified(c, kex, run, c2s, s2c)
  {
    hide Conserved, Drained, DerivedFrom, Correct, FixedOutput, LongKeys, PacketsBefore, KeysC2S, KeysS2C, EpochsC2S,
        EpochsS2C;
    assert [] + turns == turns;
    DerivedAll(c, first.exchangeHash, first, epochs);
    KeysApart(first, epochs);
    DerivedKeysAreLong(c, first.exchangeHash, run.epochs);
    c2s := DirectionConserved(c.cipher, kex.strict, kex.clearC2S, KeysC2S(run.epochs), kex.encryptedC2S,
        EpochsC2S(turns));
    s2c := DirectionConserved(c.cipher, kex.strict, kex.clearS2C, KeysS2C(run.epochs), kex.encryptedS2C,
        EpochsS2C(turns));
  }

  lemma CertifiedSizes(c: Crypto, kex: Kex, run: Run, c2s: seq<Flight>, s2c: seq<Flight>)
    requires Certified(c, kex, run, c2s, s2c)
    ensures |run.turns| == |run.epochs| > 0
  {
  }

  /**
   * Whatever was captured, a successful recovery has taken both encrypted streams apart completely: each is the
   * sealed packets of its epochs, one after the other, under keys derived with the first exchange hash as session
   * id; every packet has its place's sequence number, and every packet is counted. Every epoch's keys are backed by
   * one release, for the share of an exchange that was announced and whose host signature is valid; nothing else was
   * released.
   */
  lemma SuccessIsCertified(c: Crypto, recoveries: seq<Recovery>, metadata: Metadata, kex: Kex, oracle: State)
      returns (c2s: seq<Flight>, s2c: seq<Flight>, backings: seq<Backing>)
    requires Sane(c) && Derive(c, recoveries, metadata, kex, oracle).result.Ok?
    ensures var outcome := Derive(c, recoveries, metadata, kex, oracle);
            && Certified(c, kex, outcome.result.value, c2s, s2c)
            && Backed(c, recoveries, kex, outcome.result.value, backings)
            && outcome.oracle.trace == oracle.trace + EventsOf(backings)
            && Contains(Flatten(outcome.result.value.chunks), TestMarker())
  {
    hide Sane, Recover, Begin, Certified, Started, Contains, Flatten, TestMarker, Adds, DerivedFrom, Backs, BackedFrom,
      Backed, EventsOf;
    var begun := Begin(c, recoveries, metadata, kex, oracle);
    var run := Derive(c, recoveries, metadata, kex, oracle).result.value;
    var first := BegunState(c, recoveries, metadata, kex, oracle);
    var turns, epochs := RunAdds(c, recoveries, kex, begun.result.value, begun.oracle);
    c2s, s2c := CertifiedFrom(c, kex, first, run, turns, epochs);
    CertifiedSizes(c, kex, run, c2s, s2c);
    var b := BegunBacked(c, recoveries, metadata, kex, oracle);
    var more := RunBacked(c, recoveries, kex, begun.result.value, begun.oracle);
    assert run.epochs[0] == begun.result.value.epochs[0];
    BackedWithFirst(c, recoveries, kex, run, b, more);
    assert (oracle.trace + [b.event]) + EventsOf(more) == oracle.trace + ([b.event] + EventsOf(more));
    backings := [b] + more;
  }

  // ----- The packet counts

  function ChannelTotal(counts: seq<Counts>): nat {
    if counts == [] then 0 else ChannelTotal(counts[..|counts| - 1]) + counts[|counts| - 1].channelBytes
  }

  /** One entry an epoch, in order, with that epoch's packet counts, and all the recovered channel bytes. */
  ghost predicate CountsExact(r: Run) {
    && |r.counts| == |r.turns|
    && (forall k :: 0 <= k < |r.counts| ==>
          && r.counts[k].epoch == k
          && r.counts[k].c2s == |r.turns[k].c2s.packets| && r.counts[k].s2c == |r.turns[k].s2c.packets|)
    && ChannelTotal(r.counts) == |Flatten(r.chunks)|
  }

  lemma {:induction false} TotalSizeIsLength(chunks: seq<Octets>)
    ensures TotalSize(chunks) == |Flatten(chunks)|
  {
    hide Flatten;
    if chunks == [] {
      FlattenNothing();
    } else {
      TotalSizeIsLength(chunks[1..]);
      FlattenCons(chunks[0], chunks[1..]);
      assert chunks == [chunks[0]] + chunks[1..];
    }
  }

  lemma CountedStaysExact(r: Run, t: Turn)
    requires CountsExact(r) && r.epoch == |r.turns| && Counted(r, t).Ok?
    ensures CountsExact(Counted(r, t).value) && |Counted(r, t).value.turns| == r.epoch + 1
  {
    hide ChannelChunks, Flatten, TotalSize;
    var chunks := ChannelChunks(PayloadsOf(t.s2c.packets)).value;
    var done := Counted(r, t).value;
    TotalSizeIsLength(chunks);
    FlattenAppend(r.chunks, chunks);
    assert done.counts[..|done.counts| - 1] == r.counts;
  }

  lemma AdvancedKeepsCounts(kex: Kex, r: Run, t: Turn, next: KeyEpoch)
    requires CountsExact(r)
    ensures CountsExact(Advanced(kex, r, t, next)) && Advanced(kex, r, t, next).epoch == r.epoch + 1
    ensures Advanced(kex, r, t, next).turns == r.turns
  {
    hide ChannelTotal, Flatten;
  }

  lemma {:induction false} RunCounts(c: Crypto, recoveries: seq<Recovery>, kex: Kex, r: Run, oracle: State)
    requires CountsExact(r) && r.epoch == |r.turns| && Recover(c, recoveries, kex, r, oracle).result.Ok?
    ensures CountsExact(Recover(c, recoveries, kex, r, oracle).result.value)
    decreases |r.remainingC2S|
  {
    hide OneTurn, OpenTurn, Counted, Recover, DerivedFrom, CountsExact;
    RecoverStep(c, recoveries, kex, r, oracle);
    var step := OneTurn(c, recoveries, kex, r, oracle);
    if step.Stop? {
      TurnStopped(c, recoveries, kex, r, oracle);
      CountedStaysExact(r, OpenTurn(c, r).value);
    } else {
      var next := TurnWentOn(c, recoveries, kex, r, oracle);
      var t := OpenTurn(c, r).value;
      CountedStaysExact(r, t);
      CountedExactly(r, t);
      AdvancedKeepsCounts(kex, Counted(r, t).value, t, next);
      RunCounts(c, recoveries, kex, step.run, step.oracle);
    }
  }

  /** The counts a successful recovery reports are those of the packets it opened and the data it recovered. */
  lemma CountsAreExact(c: Crypto, recoveries: seq<Recovery>, metadata: Metadata, kex: Kex, oracle: State)
    requires Derive(c, recoveries, metadata, kex, oracle).result.Ok?
    ensures CountsExact(Derive(c, recoveries, metadata, kex, oracle).result.value)
  {
    hide Recover, Begin, Contains, TestMarker, DerivedFrom;
    var begun := Begin(c, recoveries, metadata, kex, oracle);
    var first := BegunState(c, recoveries, metadata, kex, oracle);
    RunCounts(c, recoveries, kex, begun.result.value, begun.oracle);
  }

  // ----- The release trace of every run, successful or not

  /** Events from epoch n on, each after more authenticated packets than the one before; all but the last released. */
  ghost predicate ReleasesFrom(events: seq<Event>, n: nat, more: nat) {
    && (forall i :: 0 <= i < |events| ==> events[i].epoch == n + i)
    && (forall i :: 0 <= i < |events| ==> events[i].packetsBefore >= more)
    && (forall i, j :: 0 <= i < j < |events| ==> events[i].packetsBefore < events[j].packetsBefore)
    && (forall i :: 0 <= i < |events| - 1 ==> events[i].status == Released)
  }

  lemma NewkeysWasOpened(c: Crypto, r: Run)
    requires OpenTurn(c, r).Ok? && OpenTurn(c, r).value.c2s.newkeys
    ensures OpenTurn(c, r).value.c2s.packets != []
  {
    hide OpenEpoch, OpenPacket;
    EpochStep(c.cipher, r.keys.encC2S, r.sequenceC2S, r.remainingC2S);
  }

  /** What one turn does to the trace: at most one event, for the next epoch, after more packets than before. */
  lemma TurnReleases(c: Crypto, recoveries: seq<Recovery>, kex: Kex, r: Run, oracle: State) returns (events: seq<Event>)
    ensures var step := OneTurn(c, recoveries, kex, r, oracle);
            && (if step.Stop? then step.outcome.oracle.trace else step.oracle.trace) == oracle.trace + events
            && |events| <= 1
            && (events != [] ==> events[0].epoch == r.epoch + 1
                                 && events[0].packetsBefore > r.authenticatedC2S + r.authenticatedS2C)
            && (step.Stop? && step.outcome.result.Ok? ==> events == [] && step.outcome.result.value.epochs == r.epochs)
            && (step.Again? ==>
                  && |step.run.epochs| == |r.epochs| + 1 && step.run.epoch == r.epoch + 1
                  && events != [] && events[0].status == Released
                  && events[0].packetsBefore == step.run.authenticatedC2S + step.run.authenticatedS2C)
  {
    hide OpenEpoch, Counted, ExtractExchange, Ask, Establish, OpenTurn;
    events := [];
    assert oracle.trace + [] == oracle.trace;
    var turn := OpenTurn(c, r);
    if turn.Ok? && Counted(r, turn.value).Ok? {
      CountedExactly(r, turn.value);
    }
    if turn.Ok? && Counted(r, turn.value).Ok? && turn.value.c2s.newkeys && turn.value.s2c.newkeys {
      var t := turn.value;
      var counted := Counted(r, t).value;
      NewkeysWasOpened(c, r);
      var found := ExtractExchange(PayloadsOf(t.c2s.packets), PayloadsOf(t.s2c.packets));
      if found.Ok? {
        var share, n := found.value.clientPublic, counted.authenticatedC2S + counted.authenticatedS2C;
        ReleasedIsConsistent(recoveries, c.publicOf, oracle, share, r.epoch + 1, n);
        var trace := Ask(recoveries, c.publicOf, oracle, share, r.epoch + 1, n).state.trace;
        events := [trace[|trace| - 1]];
        assert trace[..|trace| - 1] + events == trace;
      }
    }
  }

  lemma ReleasesFirst(event: Event, events: seq<Event>, n: nat, more: nat)
    requires event.epoch == n && event.packetsBefore >= more && (events != [] ==> event.status == Released)
    requires ReleasesFrom(events, n + 1, event.packetsBefore + 1)
    ensures ReleasesFrom([event] + events, n, more)
  {
    var all := [event] + events;
    forall i | 0 <= i < |all|
      ensures i > 0 ==> all[i] == events[i - 1]
    {
    }
  }

  lemma FewReleases(events: seq<Event>, n: nat, more: nat)
    requires |events| <= 1 && (events != [] ==> events[0].epoch == n && events[0].packetsBefore >= more)
    ensures ReleasesFrom(events, n, more)
  {
  }

  lemma ReleasedToo(event: Event, later: seq<Event>)
    requires event.status == Released && forall i :: 0 <= i < |later| ==> later[i].status == Released
    ensures forall i :: 0 <= i < |[event] + later| ==> ([event] + later)[i].status == Released
  {
  }

  lemma {:induction false} RunReleases(c: Crypto, recoveries: seq<Recovery>, kex: Kex, r: Run,
      oracle: State) returns (events: seq<Event>)
    ensures Recover(c, recoveries, kex, r, oracle).oracle.trace == oracle.trace + events
    ensures ReleasesFrom(events, r.epoch + 1, r.authenticatedC2S + r.authenticatedS2C + 1)
    ensures Recover(c, recoveries, kex, r, oracle).result.Ok? ==>
              && (forall i :: 0 <= i < |events| ==> events[i].status == Released)
              && |Recover(c, recoveries, kex, r, oracle).result.value.epochs| == |r.epochs| + |events|
    decreases |r.remainingC2S|
  {
    hide OneTurn, Recover, ReleasesFrom;
    RecoverStep(c, recoveries, kex, r, oracle);
    var step := OneTurn(c, recoveries, kex, r, oracle);
    events := TurnReleases(c, recoveries, kex, r, oracle);
    if step.Again? {
      var event := events[0];
      var later := RunReleases(c, recoveries, kex, step.run, step.oracle);
      ReleasesFirst(event, later, r.epoch + 1, r.authenticatedC2S + r.authenticatedS2C + 1);
      assert oracle.trace + [event] + later == oracle.trace + ([event] + later);
      events := [event] + later;
      if Recover(c, recoveries, kex, r, oracle).result.Ok? {
        ReleasedToo(event, later);
      }
    } else {
      FewReleases(events, r.epoch + 1, r.authenticatedC2S + r.authenticatedS2C + 1);
    }
  }

  /**
   * In every run, successful or not, the release events are numbered 0, 1, 2, ..., each records more authenticated
   * packets than the one before, and only the last may be a refusal; a successful run has one release for each
   * epoch. The first is for the share announced in the clear.
   */
  lemma ReleasesAreNumbered(c: Crypto, recoveries: seq<Recovery>, metadata: Metadata, kex: Kex)
    ensures var outcome := Derive(c, recoveries, metadata, kex, State({}, []));
            && ReleasesFrom(outcome.oracle.trace, 0, 0)
            && (outcome.oracle.trace != [] ==> outcome.oracle.trace[0].share == kex.exchange.clientPublic)
            && (outcome.result.Ok? ==>
                  && (forall i :: 0 <= i < |outcome.oracle.trace| ==> outcome.oracle.trace[i].status == Released)
                  && |outcome.oracle.trace| == |outcome.result.value.epochs|)
  {
    hide ReleasesFrom, Recover, Establish, Supported, Contains, Flatten, TestMarker, Ask, PublicOf;
    var start := State({}, []);
    var share := kex.exchange.clientPublic;
    ReleasedIsConsistent(recoveries, c.publicOf, start, share, 0, 0);
    var asked := Ask(recoveries, c.publicOf, start, share, 0, 0);
    assert asked.state.trace[..0] + [asked.state.trace[0]] == asked.state.trace;
    var begun := Begin(c, recoveries, metadata, kex, start);
    if begun.result.Ok? {
      var later := RunReleases(c, recoveries, kex, begun.result.value, begun.oracle);
      ReleasesFirst(asked.state.trace[0], later, 0, 0);
    } else {
      FewReleases(begun.oracle.trace, 0, 0);
    }
  }

  // ----- How many packets each release of a successful run came after

  function PacketsUpTo(turns: seq<Turn>, k: nat): nat
    requires k <= |turns|
  {
    if k == 0 then 0
    else PacketsUpTo(turns, k - 1) + |turns[k - 1].c2s.packets| + |turns[k - 1].s2c.packets|
  }

  lemma {:induction false} PacketsUpToLater(t: Turn, turns: seq<Turn>, k: nat)
    requires k <= |turns|
    ensures PacketsUpTo([t] + turns, k + 1) == |t.c2s.packets| + |t.s2c.packets| + PacketsUpTo(turns, k)
  {
    if k > 0 {
      PacketsUpToLater(t, turns, k - 1);
      assert ([t] + turns)[k] == turns[k - 1];
    }
  }

  /** Each event counts the packets of the turns up to its own, on top of those counted before. */
  ghost predicate CountsTurns(events: seq<Event>, turns: seq<Turn>, start: nat) {
    && |turns| == |events| + 1
    && forall k :: 0 <= k < |events| ==> events[k].packetsBefore == start + PacketsUpTo(turns, k + 1)
  }

  lemma CountsFirst(event: Event, later: seq<Event>, t: Turn, turns: seq<Turn>, start: nat)
    requires event.packetsBefore == start + |t.c2s.packets| + |t.s2c.packets|
    requires CountsTurns(later, turns, event.packetsBefore)
    ensures CountsTurns([event] + later, [t] + turns, start)
  {
    var events := [event] + later;
    forall k | 0 <= k < |events|
      ensures events[k].packetsBefore == start + PacketsUpTo([t] + turns, k + 1)
    {
      PacketsUpToLater(t, turns, k);
      if k > 0 {
        assert events[k] == later[k - 1];
      }
    }
  }

  lemma LastTurnCounts(t: Turn, start: nat)
    ensures CountsTurns([], [t], start)
  {
  }

  lemma {:induction false} RunMeasured(c: Crypto, recoveries: seq<Recovery>, kex: Kex, r: Run, oracle: State)
      returns (events: seq<Event>, turns: seq<Turn>)
    requires Recover(c, recoveries, kex, r, oracle).result.Ok?
    ensures var outcome := Recover(c, recoveries, kex, r, oracle);
            && outcome.oracle.trace == oracle.trace + events && outcome.result.value.turns == r.turns + turns
    ensures CountsTurns(events, turns, r.authenticatedC2S + r.authenticatedS2C)
    decreases |r.remainingC2S|
  {
    hide OneTurn, OpenTurn, Counted, Recover, DerivedFrom, CountsTurns;
    RecoverStep(c, recoveries, kex, r, oracle);
    var step := OneTurn(c, recoveries, kex, r, oracle);
    events := TurnReleases(c, recoveries, kex, r, oracle);
    if step.Stop? {
      TurnStopped(c, recoveries, kex, r, oracle);
      var t := OpenTurn(c, r).value;
      CountedExactly(r, t);
      turns := [t];
      LastTurnCounts(t, r.authenticatedC2S + r.authenticatedS2C);
    } else {
      var next := TurnWentOn(c, recoveries, kex, r, oracle);
      var t, event := OpenTurn(c, r).value, events[0];
      CountedExactly(r, t);
      var later, more := RunMeasured(c, recoveries, kex, step.run, step.oracle);
      CountsFirst(event, later, t, more, r.authenticatedC2S + r.authenticatedS2C);
      assert events == [event];
      assert oracle.trace + [event] + later == oracle.trace + ([event] + later);
      assert r.turns + [t] + more == r.turns + ([t] + more);
      events, turns := [event] + later, [t] + more;
    }
  }

  /** In a successful run the release for epoch k came after exactly the packets of the epochs before it. */
  lemma ReleasesCountPackets(c: Crypto, recoveries: seq<Recovery>, metadata: Metadata, kex: Kex)
    requires Derive(c, recoveries, metadata, kex, State({}, [])).result.Ok?
    ensures var outcome := Derive(c, recoveries, metadata, kex, State({}, []));
            var trace, turns := outcome.oracle.trace, outcome.result.value.turns;
            && |trace| == |turns|
            && forall k :: 0 <= k < |trace| ==> trace[k].packetsBefore == PacketsUpTo(turns, k)
  {
    hide Recover, Establish, Supported, Contains, Flatten, TestMarker, Ask, PublicOf, DerivedFrom;
    var start := State({}, []);
    var share := kex.exchange.clientPublic;
    ReleasedIsConsistent(recoveries, c.publicOf, start, share, 0, 0);
    var asked := Ask(recoveries, c.publicOf, start, share, 0, 0);
    assert asked.state.trace[..0] + [asked.state.trace[0]] == asked.state.trace;
    var begun := Begin(c, recoveries, metadata, kex, start);
    var first := BegunState(c, recoveries, metadata, kex, start);
    var later, turns := RunMeasured(c, recoveries, kex, begun.result.value, begun.oracle);
    assert [] + turns == turns;
    forall k | 0 < k < |turns|
      ensures ([asked.state.trace[0]] + later)[k].packetsBefore == PacketsUpTo(turns, k)
    {
      assert ([asked.state.trace[0]] + later)[k] == later[k - 1];
    }
  }
}
