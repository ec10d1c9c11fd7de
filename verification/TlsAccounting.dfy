/** What the sizes of a TLS projection depend on, and that no transported byte is unaccounted for. */
module TlsAccounting {
  import opened Bytes
  import opened Binary
  import opened Chunks
  import opened Envelope
  import opened TlsRecords
  import opened TlsCodec
  import opened TlsArchive

  // ----- Opaque content cannot influence size

  /** Equal directions, types, versions and lengths throughout, and equal bytes wherever a fragment is clear. */
  ghost predicate SameShape(a: seq<Record>, b: seq<Record>) {
    && |a| == |b|
    && (forall i :: 0 <= i < |a| ==>
          && a[i].direction == b[i].direction
          && a[i].contentType == b[i].contentType
          && a[i].version == b[i].version
          && |a[i].fragment| == |b[i].fragment|)
    && (forall i :: 0 <= i < |a| && !OpaqueAt(a, i) ==> a[i].fragment == b[i].fragment)
  }

  lemma SameProtection(a: seq<Record>, b: seq<Record>, i: nat)
    requires SameShape(a, b) && i < |a|
    ensures OpaqueAt(a, i) <==> OpaqueAt(b, i)
  {
    var d := a[i].direction;
    if ActiveBefore(a, i, d) {
      var j :| 0 <= j < i && a[j].direction == d && a[j].contentType == CHANGE_CIPHER_SPEC;
      assert b[j].direction == d && b[j].contentType == CHANGE_CIPHER_SPEC;
    }
    if ActiveBefore(b, i, d) {
      var j :| 0 <= j < i && b[j].direction == d && b[j].contentType == CHANGE_CIPHER_SPEC;
      assert a[j].direction == d && a[j].contentType == CHANGE_CIPHER_SPEC;
    }
  }

  lemma SameLengths(a: seq<Record>, b: seq<Record>)
    requires SameShape(a, b)
    ensures |a| == |b|
  {
  }

  /** One record's share of the layout and of the opaque stream. */
  lemma LayoutStep(records: seq<Record>, i: nat)
    requires i <= |records|
    ensures i == |records| ==> LayoutFrom(records, i) == [] && OpaqueFrom(records, i) == []
    ensures i < |records| ==>
              && LayoutFrom(records, i) == RecordLayout(records[i], OpaqueAt(records, i)) + LayoutFrom(records, i + 1)
              && OpaqueFrom(records, i)
                 == (if OpaqueAt(records, i) then records[i].fragment else []) + OpaqueFrom(records, i + 1)
  {
    hide RecordLayout, OpaqueAt;
  }

  lemma RecordLayoutDependsOn(r: Record, q: Record, isOpaque: bool)
    requires r.direction == q.direction && r.contentType == q.contentType && r.version == q.version
    requires |r.fragment| == |q.fragment|
    requires isOpaque || r.fragment == q.fragment
    ensures RecordLayout(r, isOpaque) == RecordLayout(q, isOpaque)
  {
    hide UVarint, Tag, ContentCode, VersionCode;
  }

  lemma SameAt(a: seq<Record>, b: seq<Record>, i: nat)
    requires SameShape(a, b) && i < |a|
    ensures |a| == |b| && (OpaqueAt(a, i) <==> OpaqueAt(b, i))
    ensures RecordLayout(a[i], OpaqueAt(a, i)) == RecordLayout(b[i], OpaqueAt(b, i))
    ensures |a[i].fragment| == |b[i].fragment|
  {
    SameProtection(a, b, i);
    RecordLayoutDependsOn(a[i], b[i], OpaqueAt(a, i));
  }

  lemma {:induction false} SameShapeSameLayout(a: seq<Record>, b: seq<Record>, i: nat)
    requires SameShape(a, b) && i <= |a|
    ensures |a| == |b| && LayoutFrom(a, i) == LayoutFrom(b, i)
    ensures |OpaqueFrom(a, i)| == |OpaqueFrom(b, i)|
    decreases |a| - i
  {
    hide RecordLayout, OpaqueAt, SameShape, LayoutFrom, OpaqueFrom;
    SameLengths(a, b);
    LayoutStep(a, i);
    LayoutStep(b, i);
    if i < |a| {
      SameAt(a, b, i);
      SameShapeSameLayout(a, b, i + 1);
    }
  }

  lemma {:induction false} EnvelopeSizes(a: seq<Part>, b: seq<Part>, i: nat)
    requires |a| == |b| && i <= |a|
    requires forall k :: 0 <= k < |a| ==> a[k].layout == b[k].layout && |a[k].hidden| == |b[k].hidden|
    ensures LayoutsFrom(a, i) == LayoutsFrom(b, i)
    ensures |HiddenFrom(a, i)| == |HiddenFrom(b, i)|
    decreases |a| - i
  {
    hide Blob;
    if i < |a| {
      EnvelopeSizes(a, b, i + 1);
    }
  }

  /**
   * The boundary the format promises: captures that differ only in protected bytes have byte-identical layouts
   * and equally long opaque regions.
   */
  lemma OpaqueContentCannotInfluenceSize(a: seq<seq<Record>>, b: seq<seq<Record>>)
    requires |a| == |b| && forall k :: 0 <= k < |a| ==> SameShape(a[k], b[k])
    ensures ArchiveLayout(PartsOf(a)) == ArchiveLayout(PartsOf(b))
    ensures |ArchiveHidden(PartsOf(a))| == |ArchiveHidden(PartsOf(b))|
  {
    forall k | 0 <= k < |a|
      ensures PartsOf(a)[k].layout == PartsOf(b)[k].layout && |PartsOf(a)[k].hidden| == |PartsOf(b)[k].hidden|
    {
      SameShapeSameLayout(a[k], b[k], 0);
    }
    EnvelopeSizes(PartsOf(a), PartsOf(b), 0);
  }

  // ----- Byte accounting of one capture

  function FragmentTotal(records: seq<Record>): nat {
    if records == [] then 0 else FragmentTotal(records[..|records| - 1]) + |records[|records| - 1].fragment|
  }

  lemma {:induction false} SerialiseSnoc(records: seq<Record>, last: Record)
    requires AllWellFormed(records) && WellFormed(last)
    ensures AllWellFormed(records + [last])
    ensures SerialiseAll(records + [last]) == SerialiseAll(records) + Serialise(last)
  {
    hide Serialise;
    var all := records + [last];
    if records == [] {
      assert all[1..] == [];
    } else {
      SerialiseSnoc(records[1..], last);
      assert all[1..] == records[1..] + [last];
    }
  }

  lemma {:induction false} SerialisedLength(records: seq<Record>)
    requires AllWellFormed(records)
    ensures |SerialiseAll(records)| == 5 * |records| + FragmentTotal(records)
  {
    if records != [] {
      var init, last := records[..|records| - 1], records[|records| - 1];
      SerialisedLength(init);
      SerialiseSnoc(init, last);
      assert records == init + [last];
    }
  }

  lemma {:induction false} DirectionsPartition(records: seq<Record>)
    ensures |RecordsOf(records, 0)| + |RecordsOf(records, 1)| == |records|
    ensures FragmentTotal(RecordsOf(records, 0)) + FragmentTotal(RecordsOf(records, 1)) == FragmentTotal(records)
  {
    if records != [] {
      var init, last := records[..|records| - 1], records[|records| - 1];
      DirectionsPartition(init);
      forall d: Direction
        ensures FragmentTotal(RecordsOf(records, d))
                == FragmentTotal(RecordsOf(init, d)) + if last.direction == d then |last.fragment| else 0
      {
        var mine := RecordsOf(records, d);
        if last.direction == d {
          assert mine[..|mine| - 1] == RecordsOf(init, d);
        } else {
          assert mine == RecordsOf(init, d);
        }
      }
      assert last.direction == 0 || last.direction == 1;
    }
  }

  lemma {:induction false} TallyMeaning(records: seq<Record>, i: nat, t: Tally)
    requires i <= |records|
    ensures var r := TallyFrom(records, i, t);
            && r.protectedBytes == t.protectedBytes + |OpaqueFrom(records, i)|
            && r.protectedBytes + r.clearBytes + FragmentTotal(records[..i])
               == t.protectedBytes + t.clearBytes + FragmentTotal(records)
    decreases |records| - i
  {
    if i == |records| {
      assert records[..i] == records;
    } else {
      TallyMeaning(records, i + 1, CountRecord(t, records[i], OpaqueAt(records, i)));
      assert records[..i + 1][..i] == records[..i];
    }
  }

  lemma TransportIsRecords(chunks: seq<Chunk>)
    requires Split(chunks).Ok?
    ensures TotalBytes(chunks) == 5 * |Split(chunks).value| + FragmentTotal(Split(chunks).value)
  {
    var records := Split(chunks).value;
    SplitConserves(chunks);
    TotalIsBothStreams(chunks);
    assert AllWellFormed(RecordsOf(records, 0)) && AllWellFormed(RecordsOf(records, 1));
    SerialisedLength(RecordsOf(records, 0));
    SerialisedLength(RecordsOf(records, 1));
    DirectionsPartition(records);
  }

  /**
   * Conservation: every transported byte is a removed record header, a protected byte or a clear byte, and the
   * protected bytes are exactly the opaque region.
   */
  lemma TransportAccounted(chunks: seq<Chunk>)
    requires Split(chunks).Ok?
    ensures var records := Split(chunks).value;
            var stats := StatsOf(chunks, records);
            && stats.transportBytes == stats.headerBytesRemoved + stats.tally.protectedBytes + stats.tally.clearBytes
            && stats.tally.protectedBytes == |OpaqueFrom(records, 0)|
  {
    TransportIsRecords(chunks);
    TallyMeaning(Split(chunks).value, 0, Tally(0, 0, 0));
  }

  // ----- The handshake counter

  /** The bytes of the handshake-typed records from i on; with clearOnly, of those not protected. */
  function HandshakeFrom(records: seq<Record>, i: nat, clearOnly: bool): nat
    requires i <= |records|
    decreases |records| - i
  {
    if i == |records| then 0
    else
      (if records[i].contentType == 22 && !(clearOnly && OpaqueAt(records, i)) then |records[i].fragment| else 0)
      + HandshakeFrom(records, i + 1, clearOnly)
  }

  lemma {:induction false} HandshakeTally(records: seq<Record>, i: nat, t: Tally)
    requires i <= |records|
    ensures TallyFrom(records, i, t).handshakeBytes == t.handshakeBytes + HandshakeFrom(records, i, false)
    decreases |records| - i
  {
    hide OpaqueAt, TallyFrom;
    if i == |records| {
      AllEncoded(records, t);
    } else {
      var next := CountRecord(t, records[i], OpaqueAt(records, i));
      TallyStep(records, i, t);
      HandshakeTally(records, i + 1, next);
    }
  }

  /** No protected record of handshake type from i on holds a byte. */
  ghost predicate NothingProtected(records: seq<Record>, i: nat)
    requires i <= |records|
  {
    forall j :: i <= j < |records| && records[j].contentType == 22 && OpaqueAt(records, j) ==>
      records[j].fragment == []
  }

  lemma {:induction false} ProtectedIsCounted(records: seq<Record>, i: nat)
    requires i <= |records|
    ensures HandshakeFrom(records, i, true) <= HandshakeFrom(records, i, false)
    ensures HandshakeFrom(records, i, true) == HandshakeFrom(records, i, false) <==> NothingProtected(records, i)
    decreases |records| - i
  {
    hide OpaqueAt;
    if i < |records| {
      ProtectedIsCounted(records, i + 1);
      assert NothingProtected(records, i) <==>
             NothingProtected(records, i + 1)
             && (records[i].contentType == 22 && OpaqueAt(records, i) ==> records[i].fragment == []);
    }
  }

  /**
   * The counter named after clear handshake payload is the total of all handshake-typed fragments. It is the total
   * of the clear ones exactly when every protected one is empty; otherwise it is more.
   */
  lemma HandshakeCounterExactly(chunks: seq<Chunk>)
    requires Split(chunks).Ok?
    ensures var records := Split(chunks).value;
            var counted := StatsOf(chunks, records).tally.handshakeBytes;
            && counted == HandshakeFrom(records, 0, false)
            && HandshakeFrom(records, 0, true) <= counted
            && (counted == HandshakeFrom(records, 0, true) <==> NothingProtected(records, 0))
  {
    hide Split, HandshakeFrom, NothingProtected, TotalBytes, TallyFrom;
    HandshakeTally(Split(chunks).value, 0, Tally(0, 0, 0));
    ProtectedIsCounted(Split(chunks).value, 0);
  }

  lemma FinishedLayout(records: seq<Record>)
    requires records == [Record(0, 20, [3, 3], [1]), Record(0, 22, [3, 3], [9, 0, 0, 0])]
    ensures CaptureLayout(records) == [2, 0, 1, 1, 66, 4] && OpaqueFrom(records, 0) == [9, 0, 0, 0]
  {
    hide OpaqueAt, RecordLayout, CountRecord;
    OpaqueExactly(records, 0);
    OpaqueExactly(records, 1);
    assert OpaqueAt(records, 1) by {
      assert records[0].direction == 0 && records[0].contentType == 20;
    }
    RecordBytes(records[0], false, 0);
    RecordBytes(records[1], true, 0);
    assert RecordLayout(records[0], false) == [0, 1, 1];
    assert RecordLayout(records[1], true) == [66, 4];
    LayoutStep(records, 0);
    LayoutStep(records, 1);
    LayoutStep(records, 2);
  }

  /** A concrete capture with no clear handshake byte, of which the counter reports four. */
  lemma ProtectedFinishedIsCounted(records: seq<Record>)
    requires records == [Record(0, 20, [3, 3], [1]), Record(0, 22, [3, 3], [9, 0, 0, 0])]
    ensures AllWellFormed(records) && Split(RecordChunks(records)) == Ok(records)
    ensures HandshakeFrom(records, 0, true) == 0
    ensures StatsOf(RecordChunks(records), records).tally.handshakeBytes == 4
    ensures CaptureLayout(records) == [2, 0, 1, 1, 66, 4] && OpaqueFrom(records, 0) == [9, 0, 0, 0]
  {
    hide Serialise, Split, RecordChunks, TotalBytes, TallyFrom;
    SplitRecordChunks(records);
    FinishedLayout(records);
    HandshakeTally(records, 0, Tally(0, 0, 0));
    assert OpaqueAt(records, 1) by {
      assert records[0].direction == 0 && records[0].contentType == 20;
    }
    assert HandshakeFrom(records, 2, true) == HandshakeFrom(records, 2, false) == 0;
    assert HandshakeFrom(records, 1, true) == 0 && HandshakeFrom(records, 1, false) == 4;
  }

  // ----- The opaque totals of a whole archive

  /** The sum that compact_capture compares with the length of the opaque stream. */
  function OpaqueTotal(stats: seq<Stats>): nat {
    if stats == [] then 0 else OpaqueTotal(stats[..|stats| - 1]) + stats[|stats| - 1].tally.protectedBytes
  }

  lemma OpaqueTotalStep(stats: seq<Stats>, last: Stats)
    ensures OpaqueTotal([]) == 0 && OpaqueTotal(stats + [last]) == OpaqueTotal(stats) + last.tally.protectedBytes
  {
    assert (stats + [last])[..|stats|] == stats;
  }

  lemma ProtectedIsOpaque(chunks: seq<Chunk>, records: seq<Record>)
    ensures StatsOf(chunks, records).tally.protectedBytes == |OpaqueFrom(records, 0)|
  {
    hide TotalBytes, OpaqueFrom, TallyFrom;
    TallyMeaning(records, 0, Tally(0, 0, 0));
  }

  lemma {:induction false} OpaqueTotals(captures: seq<seq<Chunk>>, records: seq<seq<Record>>)
    requires |records| == |captures|
    ensures OpaqueTotal(StatsAll(captures, records)) == |HiddenFrom(PartsOf(records), 0)|
  {
    hide OpaqueTotal, StatsAll, StatsOf, PartsOf, PartOf, HiddenFrom, LayoutsFrom;
    if captures == [] {
      NothingCompacted(captures);
      assert records == [] && captures[..0] == captures;
      OpaqueTotalStep([], Stats(0, 0, Tally(0, 0, 0), 0));
      PartAppended([], [], Part([], []));
    } else {
      var n := |captures| - 1;
      var init, last := records[..n], records[n];
      OpaqueTotals(captures[..n], init);
      assert records == init + [last] && captures[..n + 1] == captures;
      StatsStep(captures, n, init, last);
      OpaqueTotalStep(StatsAll(captures[..n], init), StatsOf(captures[n], last));
      PartsStep(init, last);
      PartAppended([], PartsOf(init), PartOf(last));
      ProtectedIsOpaque(captures[n], last);
    }
  }

  /** The accounting mismatch that compact_capture checks for never occurs. */
  lemma OpaqueTotalsMatch(captures: seq<seq<Chunk>>)
    requires CompactedTls(captures).Ok?
    ensures OpaqueTotal(CompactedTls(captures).value.measurements) == |CompactedTls(captures).value.hidden|
  {
    hide OpaqueTotal, StatsAll, PartsOf, HiddenFrom;
    OpaqueTotals(captures, SplitAll(captures).value);
  }
}
