/** The Internet checksum of the synthetic frames (minarx/pcap.py and archive_policy.py; RFC 1071). */
module Checksum {
  import opened Bytes

  function Padded(data: Octets): (p: Octets)
    ensures |p| % 2 == 0
  {
    if |data| % 2 == 1 then data + [0] else data
  }

  function Word(high: Byte, low: Byte): nat {
    256 * high + low
  }

  function WordSum(data: Octets): nat
    requires |data| % 2 == 0
  {
    if data == [] then 0 else Word(data[0], data[1]) + WordSum(data[2..])
  }

  /** The end-around-carry sum: the representative of the total in 1..65535, or 0 for 0. */
  function Folded(total: nat): (f: nat)
    ensures f < 65536
  {
    if total == 0 then 0 else (total - 1) % 65535 + 1
  }

  function ChecksumOf(data: Octets): (c: nat)
    ensures c < 65536
  {
    65535 - Folded(WordSum(Padded(data)))
  }

  /** A receiver accepts data, its checksum field included, when the folded sum is all ones. */
  predicate Verifies(data: Octets) {
    Folded(WordSum(Padded(data))) == 65535
  }

  lemma OneMore(n: nat)
    ensures (n + 65535) % 65535 == n % 65535
  {
  }

  lemma {:induction false} AddMultiple(n: nat, k: nat)
    ensures (n + 65535 * k) % 65535 == n % 65535
  {
    if k > 0 {
      AddMultiple(n, k - 1);
      assert n + 65535 * k == (n + 65535 * (k - 1)) + 65535;
      OneMore(n + 65535 * (k - 1));
    }
  }

  lemma FoldStep(total: nat)
    requires total >= 65536
    ensures total % 65536 + total / 65536 < total
    ensures Folded(total % 65536 + total / 65536) == Folded(total)
  {
    var carry := total / 65536;
    var next := total % 65536 + carry;
    assert total == 65536 * carry + total % 65536;
    assert next == total - 65535 * carry;
    AddMultiple(next - 1, carry);
  }

  lemma FoldedSmall(total: nat)
    requires total < 65536
    ensures Folded(total) == total
  {
  }

  lemma WordSumEnds(padded: Octets)
    requires |padded| % 2 == 0
    ensures Skip(padded, 0) == padded && WordSum(Skip(padded, |padded|)) == 0
  {
  }

  lemma WordSumStep(padded: Octets, i: nat)
    requires |padded| % 2 == 0 && i % 2 == 0 && i < |padded|
    ensures i + 2 <= |padded|
    ensures WordSum(Skip(padded, i)) == Word(padded[i], padded[i + 1]) + WordSum(Skip(padded, i + 2))
  {
    var rest := Skip(padded, i);
    assert rest[2..] == Skip(padded, i + 2) && rest[0] == padded[i] && rest[1] == padded[i + 1];
  }

  /** _checksum: sum the big-endian words, fold the carries back while any remain, and complement. */
  method InternetChecksum(data: Octets) returns (c: nat)
    ensures c == ChecksumOf(data)
  {
    var padded := Padded(data);
    hide WordSum, Folded, Padded, Skip;
    var total: nat := 0;
    var i := 0;
    WordSumEnds(padded);
    while i < |padded|
      invariant 0 <= i <= |padded| && i % 2 == 0
      invariant total + WordSum(Skip(padded, i)) == WordSum(padded)
    {
      WordSumStep(padded, i);
      total := total + Word(padded[i], padded[i + 1]);
      i := i + 2;
    }
    while total / 65536 != 0
      invariant Folded(total) == Folded(WordSum(padded))
      decreases total
    {
      FoldStep(total);
      total := total % 65536 + total / 65536;
    }
    FoldedSmall(total);
    c := 65535 - total;
  }

  // ----- Which words are summed

  /** An odd byte at the end counts as the high half of a word. */
  lemma OddLengthPadded(data: Octets)
    requires |data| % 2 == 1
    ensures ChecksumOf(data) == ChecksumOf(data + [0])
  {
  }

  /** Words are big-endian: the example of section 3 of RFC 1071. */
  lemma SampleChecksum(data: Octets)
    requires data == [0x00, 0x01, 0xF2, 0x03, 0xF4, 0xF5, 0xF6, 0xF7]
    ensures ChecksumOf(data) == 0x220D
  {
    hide Folded;
    WordSumStep(data, 0);
    WordSumStep(data, 2);
    WordSumStep(data, 4);
    WordSumStep(data, 6);
    WordSumEnds(data);
    assert WordSum(data) == 0x1 + 0xF203 + 0xF4F5 + 0xF6F7 == 0x2DDF0;
    FoldStep(0x2DDF0);
    FoldedSmall(0xDDF2);
  }

  // ----- Filling in a zeroed field

  lemma {:induction false} WordSumAppend(a: Octets, b: Octets)
    requires |a| % 2 == 0 && |b| % 2 == 0
    ensures WordSum(a + b) == WordSum(a) + WordSum(b)
  {
    if a == [] {
      assert a + b == b;
    } else {
      WordSumAppend(a[2..], b);
      assert (a + b)[2..] == a[2..] + b;
    }
  }

  lemma PaddedAppend(a: Octets, b: Octets)
    requires |a| % 2 == 0
    ensures Padded(a + b) == a + Padded(b)
  {
    if |b| % 2 == 1 {
      assert (a + b) + [0] == a + (b + [0]);
    }
  }

  lemma WordSumOfField(v: nat)
    requires v < 65536
    ensures WordSum(U16(v)) == v
  {
    BigEndian2(U16(v));
    assert U16(v)[2..] == [];
  }

  /** struct-packing a checksum over two bytes of a header. */
  function Patch(bytes: Octets, at: nat, v: nat): (p: Octets)
    requires at + 2 <= |bytes| && v < 65536
    ensures |p| == |bytes|
  {
    bytes[..at] + U16(v) + bytes[at + 2..]
  }

  lemma PatchedFields(bytes: Octets, at: nat, v: nat)
    requires at + 2 <= |bytes| && v < 65536
    ensures Patch(bytes, at, v)[..at] == bytes[..at] && Patch(bytes, at, v)[at + 2..] == bytes[at + 2..]
    ensures Patch(bytes, at, v)[at..at + 2] == U16(v)
  {
    hide U16;
  }

  lemma PatchedSum(prefix: Octets, bytes: Octets, at: nat, v: nat)
    requires |prefix| % 2 == 0 && at % 2 == 0 && at + 2 <= |bytes| && v < 65536
    requires bytes[at] == 0 && bytes[at + 1] == 0
    ensures WordSum(Padded(prefix + Patch(bytes, at, v))) == WordSum(Padded(prefix + bytes)) + v
  {
    hide U16;
    var front, back := prefix + bytes[..at], bytes[at + 2..];
    var zero: Octets := [0, 0];
    assert prefix + bytes == front + (zero + back);
    assert prefix + Patch(bytes, at, v) == front + (U16(v) + back);
    PaddedAppend(front, zero + back);
    PaddedAppend(front, U16(v) + back);
    PaddedAppend(zero, back);
    PaddedAppend(U16(v), back);
    WordSumAppend(front, zero + Padded(back));
    WordSumAppend(front, U16(v) + Padded(back));
    WordSumAppend(zero, Padded(back));
    WordSumAppend(U16(v), Padded(back));
    WordSumOfField(v);
    assert zero[2..] == [];
  }

  lemma ComplementFills(total: nat, v: nat)
    requires v < 65536
    ensures Folded(total + v) == 65535 <==>
              (v == 65535 - Folded(total) || (Folded(total) == 65535 && v == 65535))
  {
    if total == 0 {
      FoldedSmall(v);
    } else {
      var f := Folded(total);
      var q := (total - 1) / 65535;
      assert total == 65535 * q + f;
      if f + v == 0 {
      } else {
        assert total + v - 1 == (f + v - 1) + 65535 * q;
        AddMultiple(f + v - 1, q);
      }
    }
  }

  /**
   * Checksum correctness: over a zeroed field at an even offset, the values a receiver accepts are exactly the
   * computed checksum and, when that is zero, its other representation 0xFFFF. Odd lengths included.
   */
  lemma AcceptedChecksums(prefix: Octets, bytes: Octets, at: nat, v: nat)
    requires |prefix| % 2 == 0 && at % 2 == 0 && at + 2 <= |bytes| && v < 65536
    requires bytes[at] == 0 && bytes[at + 1] == 0
    ensures Verifies(prefix + Patch(bytes, at, v)) <==>
              (v == ChecksumOf(prefix + bytes) || (ChecksumOf(prefix + bytes) == 0 && v == 65535))
  {
    PatchedSum(prefix, bytes, at, v);
    ComplementFills(WordSum(Padded(prefix + bytes)), v);
  }
}
