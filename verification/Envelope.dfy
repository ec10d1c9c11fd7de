/**
 * The envelope both projections of minarx/protocols/common.py share: a capture count, one length-prefixed
 * layout per capture, and a single opaque stream that all captures draw from in turn.
 */
module Envelope {
  import opened Bytes
  import opened Binary
  import opened Chunks

  const MAX_CAPTURES: nat := 32

  /** What one capture contributes to the two streams. */
  datatype Part = Part(layout: Octets, hidden: Octets)

  /** Decodes one capture's layout against the opaque bytes left, returning what is left after it. */
  type Decoder = (Octets, Octets) -> Result<(seq<Chunk>, Octets)>

  function LayoutsFrom(parts: seq<Part>, i: nat): Octets
    requires i <= |parts|
    decreases |parts| - i
  {
    if i == |parts| then [] else Blob(parts[i].layout) + LayoutsFrom(parts, i + 1)
  }

  function HiddenFrom(parts: seq<Part>, i: nat): Octets
    requires i <= |parts|
    decreases |parts| - i
  {
    if i == |parts| then [] else parts[i].hidden + HiddenFrom(parts, i + 1)
  }

  function ArchiveLayout(parts: seq<Part>): Octets {
    UVarint(|parts|) + LayoutsFrom(parts, 0)
  }

  function ArchiveHidden(parts: seq<Part>): Octets {
    HiddenFrom(parts, 0)
  }

  lemma {:induction false} AddPart(parts: seq<Part>, p: Part, i: nat)
    requires i <= |parts|
    ensures LayoutsFrom(parts + [p], i) == LayoutsFrom(parts, i) + Blob(p.layout)
    ensures HiddenFrom(parts + [p], i) == HiddenFrom(parts, i) + p.hidden
    decreases |parts| - i
  {
    var all := parts + [p];
    if i == |parts| {
      assert LayoutsFrom(all, i + 1) == [] && HiddenFrom(all, i + 1) == [];
      LeftAndRightUnit(Blob(p.layout));
      LeftAndRightUnit(p.hidden);
    } else {
      AddPart(parts, p, i + 1);
      Regroup(Blob(parts[i].layout), LayoutsFrom(parts, i + 1), Blob(p.layout));
      Regroup(parts[i].hidden, HiddenFrom(parts, i + 1), p.hidden);
    }
  }

  /** One more part goes to the end of both streams. */
  lemma PartAppended(front: Octets, parts: seq<Part>, p: Part)
    ensures (front + LayoutsFrom(parts, 0)) + (UVarint(|p.layout|) + p.layout) == front + LayoutsFrom(parts + [p], 0)
    ensures HiddenFrom(parts, 0) + p.hidden == HiddenFrom(parts + [p], 0)
    ensures front + LayoutsFrom([], 0) == front && HiddenFrom([], 0) == []
  {
    hide UVarint;
    AddPart(parts, p, 0);
    Regroup(front, LayoutsFrom(parts, 0), Blob(p.layout));
    LeftAndRightUnit(front);
  }

  /** What compacting returns: both streams, and one measurement of each capture. */
  datatype Compacted<S> = Compacted(layout: Octets, hidden: Octets, measurements: seq<S>)

  // ----- Materializing

  /** What both cursors have left. */
  datatype Cursors = Cursors(layout: Octets, hidden: Octets)

  type Materialized = Leading<seq<Chunk>, Cursors>

  function MaterializeMany(decode: Decoder, count: nat, layout: Octets, hidden: Octets): Result<Materialized> {
    if count == 0 then Ok(Leading([], Cursors(layout, hidden)))
    else
      var b := ReadBlob(layout, MAX_FIELD_SIZE);
      var one :- b.result;
      var chunks :- decode(one, hidden);
      Prepend([chunks.0], MaterializeMany(decode, count - 1, Skip(layout, b.used), chunks.1))
  }

  /** The whole archive: the count must be the one the mode requires, and both readers must end at their ends. */
  function Materialize(decode: Decoder, layout: Octets, hidden: Octets, names: nat): Result<seq<seq<Chunk>>> {
    var n := ReadUVarint(layout, MAX_CAPTURES);
    var count :- n.result;
    if count != names then Err(DecodeError)
    else
      var t :- MaterializeMany(decode, names, Skip(layout, n.used), hidden);
      if t.rest != Cursors([], []) then Err(DecodeError) else Ok(t.items)
  }

  // ----- The one kind of failure

  /** A decoder that fails with nothing but decode errors. */
  ghost predicate DecodeErrorsOnly(decode: Decoder) {
    forall layout, hidden :: decode(layout, hidden).Err? ==> decode(layout, hidden) == Err(DecodeError)
  }

  lemma {:induction false} ManyFail(decode: Decoder, count: nat, layout: Octets, hidden: Octets)
    requires DecodeErrorsOnly(decode)
    ensures var r := MaterializeMany(decode, count, layout, hidden);
            r.Err? ==> r == Err(DecodeError)
    decreases count
  {
    hide ReadBlob;
    if count > 0 {
      ReadsFailExactly(layout, 0, MAX_FIELD_SIZE);
      var b := ReadBlob(layout, MAX_FIELD_SIZE);
      if b.result.Ok? && decode(b.result.value, hidden).Ok? {
        ManyFail(decode, count - 1, Skip(layout, b.used), decode(b.result.value, hidden).value.1);
      }
    }
  }

  /** An archive that is not materialized ends in a decode error, whatever is wrong with it. */
  lemma MaterializeFails(decode: Decoder, layout: Octets, hidden: Octets, names: nat)
    requires DecodeErrorsOnly(decode)
    ensures var r := Materialize(decode, layout, hidden, names);
            r.Err? ==> r == Err(DecodeError)
  {
    hide ReadUVarint, MaterializeMany;
    ReadsFailExactly(layout, 0, MAX_CAPTURES);
    var n := ReadUVarint(layout, MAX_CAPTURES);
    if n.result.Ok? {
      ManyFail(decode, names, Skip(layout, n.used), hidden);
    }
  }

  // ----- The two-cursor round trip, for any decoder that undoes each part

  /** Part i decodes to expected[i] whatever follows in the opaque stream, or never decodes. */
  ghost predicate Undoes(decode: Decoder, part: Part, accepted: bool, chunks: seq<Chunk>) {
    forall rest: Octets :: var r := decode(part.layout, part.hidden + rest);
                           if accepted then r == Ok((chunks, rest)) else r.Err?
  }

  predicate PartFits(part: Part, accepted: bool) {
    accepted && |part.layout| <= 0x8000_0000
  }

  predicate AllFit(parts: seq<Part>, accepted: seq<bool>, i: nat)
    requires |accepted| == |parts|
  {
    forall k :: i <= k < |parts| ==> PartFits(parts[k], accepted[k])
  }

  lemma OnePart(decode: Decoder, n: nat, part: Part, accepted: bool, chunks: seq<Chunk>, moreL: Octets, moreO: Octets)
    requires n > 0 && Undoes(decode, part, accepted, chunks)
    ensures var r := MaterializeMany(decode, n, Blob(part.layout) + moreL, part.hidden + moreO);
            if PartFits(part, accepted) then r == Prepend([chunks], MaterializeMany(decode, n - 1, moreL, moreO))
            else r.Err?
  {
    BlobRoundTrip(part.layout, moreL, MAX_FIELD_SIZE);
  }

  ghost predicate Yields(parts: seq<Part>, accepted: seq<bool>, expected: seq<seq<Chunk>>, i: nat,
                         restL: Octets, restO: Octets, r: Result<Materialized>)
    requires |accepted| == |parts| == |expected| && i <= |parts|
  {
    && (r.Ok? <==> AllFit(parts, accepted, i))
    && (r.Ok? ==> r.value == Leading(expected[i..], Cursors(restL, restO)))
  }

  lemma YieldsStep(parts: seq<Part>, accepted: seq<bool>, expected: seq<seq<Chunk>>, i: nat,
                   restL: Octets, restO: Octets, more: Result<Materialized>, r: Result<Materialized>)
    requires |accepted| == |parts| == |expected| && i < |parts|
    requires Yields(parts, accepted, expected, i + 1, restL, restO, more)
    requires if PartFits(parts[i], accepted[i]) then r == Prepend([expected[i]], more) else r.Err?
    ensures Yields(parts, accepted, expected, i, restL, restO, r)
  {
    assert AllFit(parts, accepted, i) <==> PartFits(parts[i], accepted[i]) && AllFit(parts, accepted, i + 1);
    assert [expected[i]] + expected[i + 1..] == expected[i..];
  }

  lemma {:induction false} PartsRoundTrip(decode: Decoder, parts: seq<Part>, accepted: seq<bool>,
                                          expected: seq<seq<Chunk>>, i: nat, restL: Octets, restO: Octets)
    requires |accepted| == |parts| == |expected| && i <= |parts|
    requires forall k :: 0 <= k < |parts| ==> Undoes(decode, parts[k], accepted[k], expected[k])
    ensures Yields(parts, accepted, expected, i, restL, restO,
                   MaterializeMany(decode, |parts| - i, LayoutsFrom(parts, i) + restL, HiddenFrom(parts, i) + restO))
    decreases |parts| - i
  {
    hide ReadBlob, Blob, PartFits, Undoes, Skip;
    if i == |parts| {
      LeftAndRightUnit(restL);
      LeftAndRightUnit(restO);
    } else {
      var moreL, moreO := LayoutsFrom(parts, i + 1) + restL, HiddenFrom(parts, i + 1) + restO;
      Regroup(Blob(parts[i].layout), LayoutsFrom(parts, i + 1), restL);
      Regroup(parts[i].hidden, HiddenFrom(parts, i + 1), restO);
      OnePart(decode, |parts| - i, parts[i], accepted[i], expected[i], moreL, moreO);
      PartsRoundTrip(decode, parts, accepted, expected, i + 1, restL, restO);
      YieldsStep(parts, accepted, expected, i, restL, restO, MaterializeMany(decode, |parts| - (i + 1), moreL, moreO),
                 MaterializeMany(decode, |parts| - i, Blob(parts[i].layout) + moreL, parts[i].hidden + moreO));
    }
  }

  /**
   * An archive is materialized exactly when it has at most 32 captures, each acceptable to the decoder and with
   * a layout of at most 2 GiB; every capture then comes back and both cursors end exactly at their ends.
   */
  lemma ArchiveRoundTrip(decode: Decoder, parts: seq<Part>, accepted: seq<bool>, expected: seq<seq<Chunk>>)
    requires |accepted| == |parts| == |expected|
    requires forall k :: 0 <= k < |parts| ==> Undoes(decode, parts[k], accepted[k], expected[k])
    ensures var r := Materialize(decode, ArchiveLayout(parts), ArchiveHidden(parts), |parts|);
            && (r.Ok? <==> |parts| <= 32 && AllFit(parts, accepted, 0))
            && (r.Ok? ==> r.value == expected)
  {
    UVarintRoundTrip(|parts|, LayoutsFrom(parts, 0), MAX_CAPTURES);
    PartsRoundTrip(decode, parts, accepted, expected, 0, [], []);
    LeftAndRightUnit(LayoutsFrom(parts, 0));
    LeftAndRightUnit(HiddenFrom(parts, 0));
    assert expected[0..] == expected;
  }
}
