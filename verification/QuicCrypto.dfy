/** CRYPTO data out of order (decryptor/quic/derive_quic.py; section 19.6 of RFC 9000). */
module QuicCrypto {
  import opened Bytes
  import opened QuicFrames
  import Handshakes

  type Segments = map<nat, Octets>

  // ----- sorted(segments)

  ghost predicate SortedKeys(keys: seq<nat>, segments: Segments) {
    && (forall i, j :: 0 <= i < j < |keys| ==> keys[i] < keys[j])
    && (forall i :: 0 <= i < |keys| ==> keys[i] in segments)
    && (forall k :: k in segments ==> k in keys)
  }

  method Least(s: set<nat>) returns (least: nat)
    requires s != {}
    ensures least in s && forall k :: k in s ==> least <= k
  {
    least :| least in s;
    var left := s - {least};
    while left != {}
      invariant left <= s && least in s
      invariant forall k :: k in s ==> least <= k || k in left
      decreases left
    {
      var k :| k in left;
      if k < least {
        least := k;
      }
      left := left - {k};
    }
  }

  method Sorted(segments: Segments) returns (keys: seq<nat>)
    ensures SortedKeys(keys, segments)
  {
    keys := [];
    var left := segments.Keys;
    while left != {}
      invariant left <= segments.Keys
      invariant forall i, j :: 0 <= i < j < |keys| ==> keys[i] < keys[j]
      invariant forall i :: 0 <= i < |keys| ==> keys[i] in segments
      invariant forall k :: k in segments ==> k in keys || k in left
      invariant forall i, k :: 0 <= i < |keys| && k in left ==> keys[i] < k
      decreases left
    {
      var least := Least(left);
      keys := keys + [least];
      left := left - {least};
    }
  }

  // ----- Coverage

  ghost predicate Covers(segments: Segments, k: nat, p: nat) {
    k in segments && k <= p < k + |segments[k]|
  }

  /** Some entry holds stream position p. */
  ghost predicate Covered(segments: Segments, p: nat) {
    exists k :: Covers(segments, k, p)
  }

  /** Some entry holds byte b at position p. */
  ghost predicate Holds(segments: Segments, p: nat, b: Byte) {
    exists k :: Covers(segments, k, p) && segments[k][p - k] == b
  }

  /** Every entry is a slice of one stream. */
  ghost predicate SlicesOf(segments: Segments, truth: nat -> Byte) {
    forall k, p :: Covers(segments, k, p) ==> segments[k][p - k] == truth(p)
  }

  /** The bytes come from entries, and the first position past them is not covered. */
  ghost predicate MaximalPrefix(segments: Segments, out: Octets) {
    (forall p :: 0 <= p < |out| ==> Holds(segments, p, out[p])) && !Covered(segments, |out|)
  }

  /** Where a processed entry's bytes end. */
  ghost predicate Absorbed(segments: Segments, keys: seq<nat>, n: nat, end: nat)
    requires n <= |keys| && forall i :: 0 <= i < |keys| ==> keys[i] in segments
  {
    forall i :: 0 <= i < n ==> keys[i] + |segments[keys[i]]| <= end
  }

  lemma ExtendHeld(segments: Segments, out: Octets, k: nat)
    requires k in segments && k <= |out| < k + |segments[k]|
    requires forall p :: 0 <= p < |out| ==> Holds(segments, p, out[p])
    ensures var more := out + Skip(segments[k], |out| - k);
            && |more| == k + |segments[k]|
            && forall p :: 0 <= p < |more| ==> Holds(segments, p, more[p])
  {
    var more := out + Skip(segments[k], |out| - k);
    forall p | 0 <= p < |more|
      ensures Holds(segments, p, more[p])
    {
      if p < |out| {
        assert more[p] == out[p];
      } else {
        assert Covers(segments, k, p);
        assert more[p] == segments[k][p - k];
      }
    }
  }

  lemma NothingCovers(segments: Segments, keys: seq<nat>, n: nat, end: nat)
    requires SortedKeys(keys, segments) && n <= |keys| && Absorbed(segments, keys, n, end)
    requires n < |keys| ==> keys[n] > end
    ensures !Covered(segments, end)
  {
    forall k | k in segments
      ensures !Covers(segments, k, end)
    {
      var i :| 0 <= i < |keys| && keys[i] == k;
      if i >= n {
        assert keys[n] <= k;
      }
    }
  }

  /** _reassemble_crypto_prefix */
  method ReassembleCryptoPrefix(segments: Segments) returns (out: Octets)
    ensures MaximalPrefix(segments, out)
  {
    hide Holds, Covers;
    var keys := Sorted(segments);
    out := [];
    for i := 0 to |keys|
      invariant forall p :: 0 <= p < |out| ==> Holds(segments, p, out[p])
      invariant Absorbed(segments, keys, i, |out|)
    {
      var offset := keys[i];
      var data := segments[offset];
      if offset > |out| {
        NothingCovers(segments, keys, i, |out|);
        return;
      }
      var overlap := |out| - offset;
      if overlap < |data| {
        ExtendHeld(segments, out, offset);
        out := out + Skip(data, overlap);
      }
    }
    NothingCovers(segments, keys, |keys|, |out|);
  }

  // ----- The gap-filling form

  /** Covered positions hold an entry's byte, uncovered ones zero, and the end is the furthest entry's. */
  ghost predicate GapFilled(segments: Segments, out: Octets) {
    && (forall p :: 0 <= p < |out| ==> if Covered(segments, p) then Holds(segments, p, out[p]) else out[p] == 0)
    && (forall k :: k in segments ==> k + |segments[k]| <= |out|)
    && (|out| == 0 || exists k :: k in segments && k + |segments[k]| == |out|)
  }

  ghost predicate HeldOrZero(segments: Segments, p: nat, b: Byte) {
    Holds(segments, p, b) || (b == 0 && !Covered(segments, p))
  }

  ghost predicate FilledSoFar(segments: Segments, keys: seq<nat>, n: nat, out: Octets)
    requires n <= |keys| && forall i :: 0 <= i < |keys| ==> keys[i] in segments
  {
    && (forall p :: 0 <= p < |out| ==> HeldOrZero(segments, p, out[p]))
    && Absorbed(segments, keys, n, |out|)
    && (|out| == 0 || exists k :: k in segments && k + |segments[k]| == |out|)
  }

  lemma NothingFilled(segments: Segments, keys: seq<nat>)
    requires SortedKeys(keys, segments)
    ensures FilledSoFar(segments, keys, 0, [])
  {
  }

  /** One turn of the loop. */
  function Fill(out: Octets, off: nat, data: Octets): Octets {
    if off > |out| then (out + Zeros(off - |out|)) + data
    else if off + |data| > |out| then out + Skip(data, |out| - off)
    else out
  }

  lemma FillAt(out: Octets, off: nat, data: Octets, p: nat)
    requires p < |Fill(out, off, data)|
    ensures p < |out| || p < off + |data|
    ensures Fill(out, off, data)[p] == if p < |out| then out[p] else if p < off then 0 else data[p - off]
  {
  }

  lemma GapUncovered(segments: Segments, keys: seq<nat>, i: nat, end: nat, p: nat)
    requires SortedKeys(keys, segments) && i < |keys| && Absorbed(segments, keys, i, end) && end <= p < keys[i]
    ensures !Covered(segments, p)
  {
    forall k | k in segments
      ensures !Covers(segments, k, p)
    {
      var j :| 0 <= j < |keys| && keys[j] == k;
      if j >= i {
        assert keys[i] <= k;
      }
    }
  }

  lemma HeldHere(segments: Segments, k: nat, p: nat)
    requires Covers(segments, k, p)
    ensures Holds(segments, p, segments[k][p - k])
  {
  }

  lemma FillByte(segments: Segments, keys: seq<nat>, i: nat, out: Octets, p: nat)
    requires SortedKeys(keys, segments) && i < |keys| && FilledSoFar(segments, keys, i, out)
    requires p < |Fill(out, keys[i], segments[keys[i]])|
    ensures HeldOrZero(segments, p, Fill(out, keys[i], segments[keys[i]])[p])
  {
    hide Holds, Covered, Fill, Absorbed;
    var off, data := keys[i], segments[keys[i]];
    FillAt(out, off, data, p);
    if |out| <= p < off {
      GapUncovered(segments, keys, i, |out|, p);
    } else if |out| <= p {
      HeldHere(segments, off, p);
    }
  }

  lemma FillEnds(segments: Segments, keys: seq<nat>, i: nat, out: Octets)
    requires SortedKeys(keys, segments) && i < |keys| && FilledSoFar(segments, keys, i, out)
    ensures var next := Fill(out, keys[i], segments[keys[i]]);
            && Absorbed(segments, keys, i + 1, |next|)
            && (|next| == 0 || exists k :: k in segments && k + |segments[k]| == |next|)
  {
    hide HeldOrZero;
    var next := Fill(out, keys[i], segments[keys[i]]);
    assert |next| == |out| || |next| == keys[i] + |segments[keys[i]]|;
  }

  lemma FillStep(segments: Segments, keys: seq<nat>, i: nat, out: Octets)
    requires SortedKeys(keys, segments) && i < |keys| && FilledSoFar(segments, keys, i, out)
    ensures FilledSoFar(segments, keys, i + 1, Fill(out, keys[i], segments[keys[i]]))
  {
    var off, data := keys[i], segments[keys[i]];
    var next := Fill(out, off, data);
    forall p | 0 <= p < |next|
      ensures HeldOrZero(segments, p, next[p])
    {
      FillByte(segments, keys, i, out, p);
    }
    FillEnds(segments, keys, i, out);
  }

  lemma FilledIsFinal(segments: Segments, keys: seq<nat>, out: Octets)
    requires SortedKeys(keys, segments) && FilledSoFar(segments, keys, |keys|, out)
    ensures GapFilled(segments, out)
  {
    forall p | 0 <= p < |out|
      ensures if Covered(segments, p) then Holds(segments, p, out[p]) else out[p] == 0
    {
      if Holds(segments, p, out[p]) {
        var k :| Covers(segments, k, p) && segments[k][p - k] == out[p];
        assert Covered(segments, p);
      }
    }
    forall k | k in segments
      ensures k + |segments[k]| <= |out|
    {
      var j :| 0 <= j < |keys| && keys[j] == k;
    }
  }

  /** The reassembly loop of _extract_quic_decrypted_handshake. */
  method ReassembleGapFilled(segments: Segments) returns (out: Octets)
    ensures GapFilled(segments, out)
  {
    hide FilledSoFar, Covered, Holds;
    var keys := Sorted(segments);
    out := [];
    NothingFilled(segments, keys);
    for i := 0 to |keys|
      invariant FilledSoFar(segments, keys, i, out)
    {
      var off := keys[i];
      var data := segments[off];
      FillStep(segments, keys, i, out);
      if off <= |out| {
        if off + |data| > |out| {
          out := out + Skip(data, |out| - off);
        }
      } else {
        out := (out + Zeros(off - |out|)) + data;
      }
    }
    FilledIsFinal(segments, keys, out);
  }

  // ----- What the prefix is

  lemma HeldIsTrue(segments: Segments, truth: nat -> Byte, p: nat, b: Byte)
    requires SlicesOf(segments, truth) && Holds(segments, p, b)
    ensures Covered(segments, p) && b == truth(p)
  {
    var k :| Covers(segments, k, p) && segments[k][p - k] == b;
  }

  /**
   * For entries of one stream the result is the longest covered prefix of that stream: every byte is the
   * stream's, and no longer prefix is covered throughout.
   */
  lemma PrefixIsLongest(segments: Segments, truth: nat -> Byte, out: Octets, n: nat)
    requires SlicesOf(segments, truth) && MaximalPrefix(segments, out)
    ensures forall p :: 0 <= p < |out| ==> out[p] == truth(p)
    ensures (forall p :: 0 <= p < n ==> Covered(segments, p)) <==> n <= |out|
  {
    hide SlicesOf;
    forall p | 0 <= p < |out|
      ensures Covered(segments, p) && out[p] == truth(p)
    {
      HeldIsTrue(segments, truth, p, out[p]);
    }
    if n > |out| {
      assert !Covered(segments, |out|);
    }
  }

  /** Adding entries never takes anything back: the prefix of a larger dictionary extends the smaller one's. */
  lemma PrefixGrows(before: Segments, after: Segments, truth: nat -> Byte, short: Octets, long: Octets)
    requires forall k :: k in before ==> k in after && after[k] == before[k]
    requires SlicesOf(after, truth) && MaximalPrefix(before, short) && MaximalPrefix(after, long)
    ensures short <= long
  {
    assert SlicesOf(before, truth) by {
      forall k, p | Covers(before, k, p)
        ensures before[k][p - k] == truth(p)
      {
        assert Covers(after, k, p);
      }
    }
    PrefixIsLongest(before, truth, short, |short|);
    forall p | 0 <= p < |short|
      ensures Covered(after, p)
    {
      assert Covered(before, p);
      var k :| Covers(before, k, p);
      assert Covers(after, k, p);
    }
    PrefixIsLongest(after, truth, long, |short|);
  }

  /** The two reassemblies agree as far as the first gap: the prefix is a prefix of the zero-filled form. */
  lemma PrefixOfGapFilled(segments: Segments, truth: nat -> Byte, out: Octets, filled: Octets)
    requires SlicesOf(segments, truth) && MaximalPrefix(segments, out) && GapFilled(segments, filled)
    ensures out <= filled
    ensures out == filled <==> forall p :: 0 <= p < |filled| ==> Covered(segments, p)
  {
    hide SlicesOf;
    PrefixIsLongest(segments, truth, out, |out|);
    if |out| > 0 {
      assert Covered(segments, |out| - 1);
      var k :| Covers(segments, k, |out| - 1);
    }
    forall p | 0 <= p < |out|
      ensures out[p] == filled[p]
    {
      assert Covered(segments, p);
      HeldIsTrue(segments, truth, p, filled[p]);
    }
    PrefixIsLongest(segments, truth, out, |filled|);
  }

  // ----- The dictionary

  /** target.setdefault(offset, data), frame by frame. */
  function FirstFrames(frames: seq<CryptoData>): Segments {
    if frames == [] then map[]
    else
      var before := FirstFrames(frames[..|frames| - 1]);
      var last := frames[|frames| - 1];
      if last.offset in before then before else before[last.offset := last.data]
  }

  /** Stream position p lies in the frame. */
  predicate InFrame(f: CryptoData, p: nat) {
    f.offset <= p < f.offset + |f.data|
  }

  ghost predicate Received(frames: seq<CryptoData>, p: nat) {
    exists i :: 0 <= i < |frames| && InFrame(frames[i], p)
  }

  ghost predicate IsFirst(frames: seq<CryptoData>, i: nat)
    requires i < |frames|
  {
    forall h :: 0 <= h < i ==> frames[h].offset != frames[i].offset
  }

  /** No later frame at an offset is longer than the first one there. */
  ghost predicate FirstIsLongest(frames: seq<CryptoData>) {
    forall i, j :: 0 <= i < j < |frames| && IsFirst(frames, i) && frames[i].offset == frames[j].offset ==>
      |frames[j].data| <= |frames[i].data|
  }

  lemma {:induction false} FirstFrameKept(frames: seq<CryptoData>)
    ensures forall k :: k in FirstFrames(frames) <==> exists i :: 0 <= i < |frames| && frames[i].offset == k
    ensures forall k :: k in FirstFrames(frames) ==>
              exists i :: 0 <= i < |frames| && frames[i].offset == k && frames[i].data == FirstFrames(frames)[k]
                          && forall j :: 0 <= j < i ==> frames[j].offset != k
  {
    if frames != [] {
      var init, last := frames[..|frames| - 1], frames[|frames| - 1];
      FirstFrameKept(init);
      forall k | k in FirstFrames(frames)
        ensures exists i :: 0 <= i < |frames| && frames[i].offset == k && frames[i].data == FirstFrames(frames)[k]
                            && forall j :: 0 <= j < i ==> frames[j].offset != k
      {
        if k in FirstFrames(init) {
          var i :| 0 <= i < |init| && init[i].offset == k && init[i].data == FirstFrames(init)[k]
                   && forall j :: 0 <= j < i ==> init[j].offset != k;
          assert frames[i] == init[i];
          forall j | 0 <= j < i
            ensures frames[j].offset != k
          {
            assert frames[j] == init[j];
          }
        } else {
          forall j | 0 <= j < |init|
            ensures frames[j].offset != k
          {
            assert init[j] == frames[j];
          }
          assert frames[|frames| - 1].offset == k;
        }
      }
      forall k
        ensures k in FirstFrames(frames) <==> exists i :: 0 <= i < |frames| && frames[i].offset == k
      {
        if exists i :: 0 <= i < |frames| && frames[i].offset == k {
          var i :| 0 <= i < |frames| && frames[i].offset == k;
          if i < |init| {
            assert init[i].offset == k;
          }
        }
      }
    }
  }

  /** The first frame at an offset is the dictionary's entry there. */
  lemma EntryIsFirst(frames: seq<CryptoData>, j: nat) returns (i: nat)
    requires j < |frames|
    ensures i <= j && IsFirst(frames, i) && frames[i].offset == frames[j].offset
    ensures frames[j].offset in FirstFrames(frames) && frames[i].data == FirstFrames(frames)[frames[j].offset]
  {
    hide FirstFrames;
    FirstFrameKept(frames);
    var k := frames[j].offset;
    assert k in FirstFrames(frames);
    i :| 0 <= i < |frames| && frames[i].offset == k && frames[i].data == FirstFrames(frames)[k]
         && forall h :: 0 <= h < i ==> frames[h].offset != k;
  }

  /** Whether every frame's bytes fit into its own entry: exactly when the first frame at each offset is its longest. */
  lemma EntriesHoldTheirFrames(frames: seq<CryptoData>)
    ensures (forall j :: 0 <= j < |frames| ==>
               && frames[j].offset in FirstFrames(frames)
               && |frames[j].data| <= |FirstFrames(frames)[frames[j].offset]|)
            <==> FirstIsLongest(frames)
  {
    hide FirstFrames;
    forall j | 0 <= j < |frames|
      ensures frames[j].offset in FirstFrames(frames)
      ensures FirstIsLongest(frames) ==> |frames[j].data| <= |FirstFrames(frames)[frames[j].offset]|
    {
      var i := EntryIsFirst(frames, j);
    }
    forall i, j | 0 <= i < j < |frames| && IsFirst(frames, i) && frames[i].offset == frames[j].offset
      ensures frames[i].data == FirstFrames(frames)[frames[j].offset]
    {
      var h := EntryIsFirst(frames, j);
    }
  }

  /** Position p lies in some frame that is the first at its offset. */
  ghost predicate FirstHolds(frames: seq<CryptoData>, p: nat) {
    exists i :: 0 <= i < |frames| && IsFirst(frames, i) && InFrame(frames[i], p)
  }

  /** The frame that a dictionary's entry came from. */
  lemma FirstOfEntry(frames: seq<CryptoData>, k: nat) returns (i: nat)
    requires k in FirstFrames(frames)
    ensures i < |frames| && IsFirst(frames, i) && frames[i] == CryptoData(k, FirstFrames(frames)[k])
  {
    hide FirstFrames;
    FirstFrameKept(frames);
    i :| 0 <= i < |frames| && frames[i].offset == k && frames[i].data == FirstFrames(frames)[k]
         && forall j :: 0 <= j < i ==> frames[j].offset != k;
  }

  /** A frame that is the first at its offset is the entry there. */
  lemma EntryOfFirst(frames: seq<CryptoData>, i: nat)
    requires i < |frames| && IsFirst(frames, i)
    ensures frames[i].offset in FirstFrames(frames) && FirstFrames(frames)[frames[i].offset] == frames[i].data
  {
    hide FirstFrames;
    var h := EntryIsFirst(frames, i);
  }

  /** What the dictionary covers, said of the frames alone. */
  lemma CoveredByFirsts(frames: seq<CryptoData>, p: nat)
    ensures Covered(FirstFrames(frames), p) <==> FirstHolds(frames, p)
  {
    hide FirstFrames, IsFirst;
    var m := FirstFrames(frames);
    if Covered(m, p) {
      var k :| Covers(m, k, p);
      var i := FirstOfEntry(frames, k);
      assert InFrame(frames[i], p);
    }
    if FirstHolds(frames, p) {
      var i :| 0 <= i < |frames| && IsFirst(frames, i) && InFrame(frames[i], p);
      EntryOfFirst(frames, i);
      assert Covers(m, frames[i].offset, p);
    }
  }

  /** Then the dictionary covers every received byte, and it never covers any other. */
  lemma DictionaryCoversReceived(frames: seq<CryptoData>, p: nat)
    ensures Covered(FirstFrames(frames), p) ==> Received(frames, p)
    ensures FirstIsLongest(frames) && Received(frames, p) ==> Covered(FirstFrames(frames), p)
  {
    hide FirstFrames, Covered;
    CoveredByFirsts(frames, p);
    if FirstIsLongest(frames) && Received(frames, p) {
      var j :| 0 <= j < |frames| && InFrame(frames[j], p);
      var i := EntryIsFirst(frames, j);
      assert InFrame(frames[i], p);
    }
  }

  /** Frame j comes to the offset of the first frame i there, and goes on past it at p. */
  ghost predicate GoesPast(frames: seq<CryptoData>, i: nat, j: nat, p: nat)
    requires i < j < |frames|
  {
    && IsFirst(frames, i) && frames[i].offset == frames[j].offset
    && InFrame(frames[j], p) && !InFrame(frames[i], p)
  }

  /** Wherever a later frame goes on past the first one at its offset, some offset's first frame holds the byte. */
  ghost predicate ExcessHeld(frames: seq<CryptoData>) {
    forall i: nat, j: nat, p: nat :: i < j < |frames| && GoesPast(frames, i, j, p) ==> FirstHolds(frames, p)
  }

  /** Nothing received is lost exactly when the excess of every longer retransmission is in a first frame. */
  lemma DictionaryCompleteExactly(frames: seq<CryptoData>)
    ensures (forall p: nat :: Received(frames, p) ==> Covered(FirstFrames(frames), p)) <==> ExcessHeld(frames)
  {
    hide FirstFrames, Covered, IsFirst;
    forall p: nat
      ensures Covered(FirstFrames(frames), p) <==> FirstHolds(frames, p)
    {
      CoveredByFirsts(frames, p);
    }
    if forall p: nat :: Received(frames, p) ==> FirstHolds(frames, p) {
      forall i: nat, j: nat, p: nat | i < j < |frames| && GoesPast(frames, i, j, p)
        ensures FirstHolds(frames, p)
      {
        assert Received(frames, p);
      }
    }
    if ExcessHeld(frames) {
      forall p: nat | Received(frames, p)
        ensures FirstHolds(frames, p)
      {
        var j :| 0 <= j < |frames| && InFrame(frames[j], p);
        var i := EntryIsFirst(frames, j);
        if !InFrame(frames[i], p) {
          assert GoesPast(frames, i, j, p);
        }
      }
    }
  }

  /** A concrete loss: a longer retransmission at the same offset is dropped, and its second byte is never covered. */
  lemma LongerRetransmissionDropped()
    ensures var frames := [CryptoData(0, [1]), CryptoData(0, [1, 2])];
            Received(frames, 1) && !Covered(FirstFrames(frames), 1)
  {
    var frames := [CryptoData(0, [1]), CryptoData(0, [1, 2])];
    assert InFrame(frames[1], 1);
    assert frames[..1] == [CryptoData(0, [1])] && frames[..1][..0] == [];
    assert FirstFrames(frames[..1]) == map[0 := [1]];
    assert FirstFrames(frames) == map[0 := [1]];
  }

  // ----- The handshake message at the front

  /** _parse_handshake_from_crypto */
  function ParseHandshake(data: Octets): Option<Octets> {
    if |data| < 4 then None
    else
      var total := 4 + (65536 * data[1] as nat + 256 * data[2] as nat + data[3] as nat);
      if |data| < total then None else Some(data[..total])
  }

  /** What is found is the first whole message, and nothing is found exactly where none is whole. */
  lemma FirstMessageParsed(data: Octets)
    ensures var messages := Handshakes.Messages(data).messages;
            ParseHandshake(data) == if messages == [] then None else Some(messages[0])
  {
    hide Handshakes.Messages;
    Handshakes.MessagesStep(data);
    if |data| >= 4 {
      Handshakes.LengthField(data);
      var n := Handshakes.MessageLength(data);
      if n <= |data| {
        Handshakes.AfterFields([data[..n]], Handshakes.Messages(data[n..]));
      }
    }
  }

  /** It is the first of the complete messages, and once complete it never changes as the prefix grows. */
  lemma HandshakeNeverChanges(short: Octets, long: Octets)
    requires short <= long && ParseHandshake(short).Some?
    ensures ParseHandshake(long) == ParseHandshake(short)
    ensures Handshakes.Messages(long).messages != []
        && Some(Handshakes.Messages(long).messages[0]) == ParseHandshake(short)
  {
    BigEndian3(long[1..4]);
    assert long[1..4] == [short[1], short[2], short[3]];
    var total := Handshakes.MessageLength(long);
    assert long[..total] == short[..total];
  }

  // ----- From the frames to the message

  /** Every frame carries bytes of one stream. */
  ghost predicate FramesOf(frames: seq<CryptoData>, truth: nat -> Byte) {
    forall i, p: nat :: 0 <= i < |frames| && InFrame(frames[i], p) ==>
      frames[i].data[p - frames[i].offset] == truth(p)
  }

  /** More frames never take an entry of the dictionary back. */
  lemma {:induction false} DictionaryGrows(frames: seq<CryptoData>, n: nat)
    requires n <= |frames|
    ensures forall k :: k in FirstFrames(frames[..n]) ==>
              k in FirstFrames(frames) && FirstFrames(frames)[k] == FirstFrames(frames[..n])[k]
    decreases |frames|
  {
    if n == |frames| {
      assert frames[..n] == frames;
    } else {
      var init := frames[..|frames| - 1];
      DictionaryGrows(init, n);
      assert init[..n] == frames[..n];
    }
  }

  lemma DictionaryOfStream(frames: seq<CryptoData>, truth: nat -> Byte)
    requires FramesOf(frames, truth)
    ensures SlicesOf(FirstFrames(frames), truth)
  {
    hide FirstFrames;
    var m := FirstFrames(frames);
    FirstFrameKept(frames);
    forall k: nat, p: nat | Covers(m, k, p)
      ensures m[k][p - k] == truth(p)
    {
      var i :| 0 <= i < |frames| && frames[i].offset == k && frames[i].data == m[k];
      assert InFrame(frames[i], p);
    }
  }

  /**
   * Dictionary, prefix and message together: for frames of one stream, the handshake message found after the first
   * n frames is the one found after all of them, whatever arrives later and in whatever order.
   */
  lemma HandshakeStays(frames: seq<CryptoData>, n: nat, truth: nat -> Byte, short: Octets, long: Octets)
    requires FramesOf(frames, truth) && n <= |frames|
    requires MaximalPrefix(FirstFrames(frames[..n]), short) && MaximalPrefix(FirstFrames(frames), long)
    ensures short <= long
    ensures ParseHandshake(short).Some? ==> ParseHandshake(long) == ParseHandshake(short)
  {
    hide FirstFrames, MaximalPrefix, SlicesOf, ParseHandshake;
    DictionaryGrows(frames, n);
    DictionaryOfStream(frames, truth);
    PrefixGrows(FirstFrames(frames[..n]), FirstFrames(frames), truth, short, long);
    if ParseHandshake(short).Some? {
      HandshakeNeverChanges(short, long);
    }
  }
}
