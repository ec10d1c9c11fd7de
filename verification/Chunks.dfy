/** Direction-labelled payload, and what it means to coalesce it. */
module Chunks {
  import opened Bytes

  datatype Chunk = Chunk(direction: Direction, data: Octets)

  /** The bytes one direction carries, in order. */
  function StreamOf(chunks: seq<Chunk>, d: Direction): Octets {
    if chunks == [] then []
    else
      var last := chunks[|chunks| - 1];
      StreamOf(chunks[..|chunks| - 1], d) + if last.direction == d then last.data else []
  }

  function TotalBytes(chunks: seq<Chunk>): nat {
    if chunks == [] then 0 else TotalBytes(chunks[..|chunks| - 1]) + |chunks[|chunks| - 1].data|
  }

  /** Adds payload at the end: nothing when it is empty, and into the last chunk when the direction is the same. */
  function AppendPayload(chunks: seq<Chunk>, d: Direction, data: Octets): seq<Chunk> {
    if data == [] then chunks
    else if chunks != [] && chunks[|chunks| - 1].direction == d then
      chunks[..|chunks| - 1] + [Chunk(d, chunks[|chunks| - 1].data + data)]
    else
      chunks + [Chunk(d, data)]
  }

  function Coalesce(chunks: seq<Chunk>): seq<Chunk> {
    if chunks == [] then []
    else
      var last := chunks[|chunks| - 1];
      AppendPayload(Coalesce(chunks[..|chunks| - 1]), last.direction, last.data)
  }

  /** No empty chunk, and no two neighbours of one direction. */
  ghost predicate Coalesced(chunks: seq<Chunk>) {
    && (forall i :: 0 <= i < |chunks| ==> chunks[i].data != [])
    && (forall i :: 0 < i < |chunks| ==> chunks[i - 1].direction != chunks[i].direction)
  }

  lemma StreamSnoc(chunks: seq<Chunk>)
    requires chunks != []
    ensures var init, last := chunks[..|chunks| - 1], chunks[|chunks| - 1];
            forall d: Direction :: StreamOf(chunks, d) == StreamOf(init, d) + if d == last.direction then last.data
                else []
  {
  }

  lemma {:induction false} StreamAppend(a: seq<Chunk>, b: seq<Chunk>, d: Direction)
    ensures StreamOf(a + b, d) == StreamOf(a, d) + StreamOf(b, d)
  {
    if b == [] {
      assert a + b == a;
    } else {
      StreamAppend(a, b[..|b| - 1], d);
      assert (a + b)[..|a + b| - 1] == a + b[..|b| - 1];
    }
  }

  lemma AppendKeepsCoalesced(chunks: seq<Chunk>, d: Direction, data: Octets)
    requires Coalesced(chunks)
    ensures Coalesced(AppendPayload(chunks, d, data))
  {
  }

  lemma StreamOfSnoc(chunks: seq<Chunk>, last: Chunk, e: Direction)
    ensures StreamOf(chunks + [last], e) == StreamOf(chunks, e) + if last.direction == e then last.data else []
  {
    assert (chunks + [last])[..|chunks|] == chunks;
  }

  lemma AppendedStream(chunks: seq<Chunk>, d: Direction, data: Octets, e: Direction)
    ensures StreamOf(AppendPayload(chunks, d, data), e) == StreamOf(chunks, e) + if e == d then data else []
  {
    hide StreamOf;
    LeftAndRightUnit(StreamOf(chunks, e));
    if data == [] {
    } else if chunks != [] && chunks[|chunks| - 1].direction == d {
      var init, last := chunks[..|chunks| - 1], chunks[|chunks| - 1];
      assert chunks == init + [last];
      StreamOfSnoc(init, last, e);
      StreamOfSnoc(init, Chunk(d, last.data + data), e);
      Regroup(StreamOf(init, e), last.data, data);
    } else {
      StreamOfSnoc(chunks, Chunk(d, data), e);
    }
  }

  lemma AppendPayloadFacts(chunks: seq<Chunk>, d: Direction, data: Octets)
    requires Coalesced(chunks)
    ensures Coalesced(AppendPayload(chunks, d, data))
    ensures forall e: Direction :: StreamOf(AppendPayload(chunks, d, data), e)
                                   == StreamOf(chunks, e) + if e == d then data else []
  {
    hide Coalesced;
    AppendKeepsCoalesced(chunks, d, data);
    forall e: Direction
      ensures StreamOf(AppendPayload(chunks, d, data), e) == StreamOf(chunks, e) + if e == d then data else []
    {
      AppendedStream(chunks, d, data, e);
    }
  }

  lemma {:induction false} CoalesceFacts(chunks: seq<Chunk>)
    ensures Coalesced(Coalesce(chunks))
    ensures forall e: Direction :: StreamOf(Coalesce(chunks), e) == StreamOf(chunks, e)
  {
    if chunks != [] {
      var last := chunks[|chunks| - 1];
      CoalesceFacts(chunks[..|chunks| - 1]);
      AppendPayloadFacts(Coalesce(chunks[..|chunks| - 1]), last.direction, last.data);
    }
  }

  /** Coalescing changes exactly the lists that are not already coalesced. */
  lemma {:induction false} CoalesceFixed(chunks: seq<Chunk>)
    ensures Coalesce(chunks) == chunks <==> Coalesced(chunks)
  {
    CoalesceFacts(chunks);
    if chunks != [] && Coalesced(chunks) {
      var init := chunks[..|chunks| - 1];
      CoalesceFixed(init);
      if init != [] {
        assert init[|init| - 1] == chunks[|chunks| - 2];
      }
      assert chunks == init + [chunks[|chunks| - 1]];
    }
  }

  lemma {:induction false} CoalesceAppend(a: seq<Chunk>, b: seq<Chunk>)
    ensures Coalesce(a + b) == Coalesce(Coalesce(a) + b)
  {
    if b == [] {
      assert a + b == a && Coalesce(a) + b == Coalesce(a);
      CoalesceFacts(a);
      CoalesceFixed(Coalesce(a));
    } else {
      var b' := b[..|b| - 1];
      CoalesceAppend(a, b');
      assert (a + b)[..|a + b| - 1] == a + b';
      assert (Coalesce(a) + b)[..|Coalesce(a) + b| - 1] == Coalesce(a) + b';
    }
  }

  lemma {:induction false} TotalIsBothStreams(chunks: seq<Chunk>)
    ensures TotalBytes(chunks) == |StreamOf(chunks, 0)| + |StreamOf(chunks, 1)|
  {
    if chunks != [] {
      TotalIsBothStreams(chunks[..|chunks| - 1]);
    }
  }
}
