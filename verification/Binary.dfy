/** The canonical binary primitives of minarx/binary.py: varints, blobs and the forward reader. */
module Binary {
  import opened Bytes

  const MAX_FIELD_SIZE: nat := 0x8000_0000

  /** Ten septets, the longest varint the reader follows, hold exactly the values below this bound. */
  const UVARINT_BOUND: nat := 0x40_0000_0000_0000_0000

  const MAX_SEPTETS: nat := 10

  /** What one read yields, and how many bytes the reader has moved past when it returns or raises. */
  datatype Read<+T> = Read(result: Result<T>, used: nat)

  // ----- Varints

  function UVarint(n: nat): (bs: Octets)
    ensures bs != []
  {
    if n < 128 then [n] else [n % 128 + 128] + UVarint(n / 128)
  }

  method EncodeUVarint(value: int) returns (r: Result<Octets>)
    ensures r == if value < 0 then Err(ValueError) else Ok(UVarint(value))
  {
    if value < 0 {
      return Err(ValueError);
    }
    var v: nat := value;
    var out: Octets := [];
    while v >= 128
      invariant out + UVarint(v) == UVarint(value)
    {
      out := out + [v % 128 + 128];
      v := v / 128;
    }
    out := out + [v];
    return Ok(out);
  }

  /** The value of a run of septets, least significant first; the top bit of each byte is ignored. */
  function Septets(s: Octets): nat {
    if s == [] then 0 else s[0] % 128 + 128 * Septets(s[1..])
  }

  /** `value |= (octet & 0x7F) << shift`; the bits added lie above those already set, so this is a sum. */
  function AddSeptet(value: nat, octet: Byte, weight: nat): nat {
    value + (octet % 128) * weight
  }

  /** The reader's loop after the octets seen so far, weight being the shift already reached. */
  function ScanUVarint(s: Octets, maximum: nat, seen: Octets, acc: nat, weight: nat): (r: Read<nat>)
    ensures r.used <= |s|
    ensures r.result.Ok? ==> r.result.value <= maximum
    decreases MAX_SEPTETS - |seen|
  {
    if |seen| >= MAX_SEPTETS then Read(Err(DecodeError), 0)
    else if s == [] then Read(Err(DecodeError), 0)
    else
      var value := AddSeptet(acc, s[0], weight);
      if s[0] < 128 then
        Read(if value > maximum then Err(DecodeError) else Ok(value), 1)
      else
        var r := ScanUVarint(s[1..], maximum, seen + [s[0]], value, weight * 128);
        Read(r.result, r.used + 1)
  }

  function Later<T>(r: Read<T>, shift: nat): Read<T> {
    Read(r.result, r.used + shift)
  }

  /** One turn of the reader's loop. */
  lemma ScanStep(s: Octets, maximum: nat, seen: Octets, acc: nat, weight: nat)
    requires |seen| < MAX_SEPTETS
    ensures var r := ScanUVarint(s, maximum, seen, acc, weight);
            if s == [] then r == Read(Err(DecodeError), 0)
            else
              var value := AddSeptet(acc, s[0], weight);
              r == if s[0] < 128 then Read(if value > maximum then Err(DecodeError) else Ok(value), 1)
                   else Later(ScanUVarint(s[1..], maximum, seen + [s[0]], value, weight * 128), 1)
  {
  }

  function ReadUVarint(s: Octets, maximum: nat): (r: Read<nat>)
    ensures r.used <= |s|
    ensures r.result.Ok? ==> r.result.value <= maximum
  {
    ScanUVarint(s, maximum, [], 0, 1)
  }

  lemma ScanStart(s: Octets, maximum: nat)
    ensures ReadUVarint(s, maximum) == ScanUVarint(s, maximum, [], 0, 1)
  {
  }

  lemma ScanEnd(s: Octets, maximum: nat, seen: Octets, acc: nat, weight: nat)
    requires |seen| == MAX_SEPTETS
    ensures ScanUVarint(s, maximum, seen, acc, weight) == Read(Err(DecodeError), 0)
  {
  }

  function ReadByte(s: Octets): Read<Byte> {
    if s == [] then Read(Err(DecodeError), 0) else Read(Ok(s[0]), 1)
  }

  function ReadTake(s: Octets, length: int): (r: Read<Octets>)
    ensures r.used <= |s|
  {
    if length < 0 || length > |s| then Read(Err(DecodeError), 0) else Read(Ok(s[..length]), length)
  }

  function ReadBlob(s: Octets, maximum: nat): (r: Read<Octets>)
    ensures r.used <= |s|
    ensures r.result.Ok? ==> |r.result.value| <= maximum
  {
    var n := ReadUVarint(s, maximum);
    if n.result.Err? then Read(Err(n.result.error), n.used)
    else
      var b := ReadTake(Skip(s, n.used), n.result.value);
      Read(b.result, n.used + b.used)
  }

  function Blob(value: Octets): Octets {
    UVarint(|value|) + value
  }

  /** A cursor over one byte string. Every method is tied to the reading function on what is left. */
  class Reader {
    const data: Octets
    var offset: nat

    ghost predicate Valid()
      reads this
    {
      offset <= |data|
    }

    ghost function Rest(): Octets
      requires Valid()
      reads this
    {
      Skip(data, offset)
    }

    constructor (data: Octets)
      ensures this.data == data && offset == 0 && Valid() && Rest() == data
    {
      this.data := data;
      this.offset := 0;
    }

    method NextByte() returns (r: Result<Byte>)
      requires Valid()
      modifies this
      ensures Valid()
      ensures r == ReadByte(old(Rest())).result
      ensures offset == old(offset) + ReadByte(old(Rest())).used
      ensures Rest() == Skip(old(Rest()), ReadByte(old(Rest())).used)
    {
      if offset >= |data| {
        return Err(DecodeError);
      }
      SkipTwice(data, offset, 1);
      r := Ok(data[offset]);
      offset := offset + 1;
    }

    method NextUVarint(maximum: nat) returns (r: Result<nat>)
      requires Valid()
      modifies this
      ensures Valid()
      ensures r == ReadUVarint(old(Rest()), maximum).result
      ensures offset == old(offset) + ReadUVarint(old(Rest()), maximum).used
      ensures Rest() == Skip(old(Rest()), ReadUVarint(old(Rest()), maximum).used)
    {
      hide Skip, ReadUVarint, ScanUVarint, AddSeptet;
      var value: nat := 0;
      var weight: nat := 1;   // 1 << shift
      ghost var whole := ReadUVarint(Rest(), maximum);
      ghost var seen: Octets := [];
      ScanStart(Rest(), maximum);
      SkipTwice(data, offset, 0);
      for i := 0 to MAX_SEPTETS
        invariant Valid() && offset == old(offset) + i && |seen| == i
        invariant Rest() == Skip(old(Rest()), i)
        invariant var s := ScanUVarint(Rest(), maximum, seen, value, weight);
                  whole.result == s.result && whole.used == i + s.used
      {
        ScanStep(Rest(), maximum, seen, value, weight);
        ghost var here := offset;
        var octet :- NextByte();
        SkipTwice(data, here, 1);
        SkipTwice(data, old(offset), i + 1);
        value := AddSeptet(value, octet, weight);
        if octet < 128 {
          if value > maximum {
            return Err(DecodeError);
          }
          return Ok(value);
        }
        weight := weight * 128;
        seen := seen + [octet];
      }
      ScanEnd(Rest(), maximum, seen, value, weight);
      return Err(DecodeError);
    }

    method Take(length: int) returns (r: Result<Octets>)
      requires Valid()
      modifies this
      ensures Valid()
      ensures r == ReadTake(old(Rest()), length).result
      ensures offset == old(offset) + ReadTake(old(Rest()), length).used
      ensures Rest() == Skip(old(Rest()), ReadTake(old(Rest()), length).used)
    {
      if length < 0 || offset + length > |data| {
        return Err(DecodeError);
      }
      SkipTwice(data, offset, length);
      var value := data[offset..offset + length];
      offset := offset + length;
      return Ok(value);
    }

    method NextBlob(maximum: nat) returns (r: Result<Octets>)
      requires Valid()
      modifies this
      ensures Valid()
      ensures r == ReadBlob(old(Rest()), maximum).result
      ensures offset == old(offset) + ReadBlob(old(Rest()), maximum).used
      ensures Rest() == Skip(old(Rest()), ReadBlob(old(Rest()), maximum).used)
    {
      ghost var start := offset;
      var n :- NextUVarint(maximum);
      ghost var middle := offset;
      r := Take(n);
      SkipTwice(data, start, offset - start);
    }

    /** Raises unless the reader stands exactly at the end of its data. */
    method Finish() returns (r: Result<()>)
      requires Valid()
      ensures r.Ok? <==> Rest() == []
      ensures r.Err? ==> r.error == DecodeError
    {
      if offset != |data| {
        return Err(DecodeError);
      }
      return Ok(());
    }
  }

  // ----- When a read fails

  lemma {:induction false} ScanErrors(s: Octets, maximum: nat, seen: Octets, acc: nat, weight: nat)
    ensures var r := ScanUVarint(s, maximum, seen, acc, weight).result;
            r.Err? ==> r == Err(DecodeError)
    decreases MAX_SEPTETS - |seen|
  {
    if |seen| < MAX_SEPTETS && s != [] && s[0] >= 128 {
      ScanErrors(s[1..], maximum, seen + [s[0]], AddSeptet(acc, s[0], weight), weight * 128);
    }
  }

  /** Every failure is a decode error: no byte, more bytes asked for than there are, or fewer than none. */
  lemma ReadsFailExactly(s: Octets, length: int, maximum: nat)
    ensures ReadByte(s).result == if s == [] then Err(DecodeError) else Ok(s[0])
    ensures ReadTake(s, length).result == if 0 <= length <= |s| then Ok(s[..length]) else Err(DecodeError)
    ensures ReadUVarint(s, maximum).result.Err? ==> ReadUVarint(s, maximum).result == Err(DecodeError)
    ensures ReadBlob(s, maximum).result.Err? ==> ReadBlob(s, maximum).result == Err(DecodeError)
  {
    hide ScanUVarint;
    ScanErrors(s, maximum, [], 0, 1);
  }

  // ----- Reading back what was written

  lemma WeightedSplit(low: nat, high: nat, weight: nat)
    ensures low * weight + high * (weight * 128) == (low + 128 * high) * weight
  {
  }

  /** The scan's answer when it succeeds or runs over its limit, stated without the accumulator. */
  lemma {:induction false} ScanMeaning(s: Octets, maximum: nat, seen: Octets, acc: nat, weight: nat)
    ensures var r := ScanUVarint(s, maximum, seen, acc, weight);
            r.result.Ok? ==>
              && 1 <= r.used <= MAX_SEPTETS - |seen|
              && (forall i :: 0 <= i < r.used - 1 ==> s[i] >= 128)
              && s[r.used - 1] < 128
              && r.result.value == acc + Septets(s[..r.used]) * weight <= maximum
    decreases MAX_SEPTETS - |seen|
  {
    var r := ScanUVarint(s, maximum, seen, acc, weight);
    if |seen| < MAX_SEPTETS && s != [] {
      if s[0] < 128 {
        assert s[..1][1..] == [];
        assert Septets(s[..1]) == s[0] % 128 + 128 * Septets([]);
      } else {
        var value := AddSeptet(acc, s[0], weight);
        var t := ScanUVarint(s[1..], maximum, seen + [s[0]], value, weight * 128);
        ScanMeaning(s[1..], maximum, seen + [s[0]], value, weight * 128);
        if t.result.Ok? {
          assert s[..r.used][1..] == s[1..][..t.used];
          WeightedSplit(s[0] % 128, Septets(s[1..][..t.used]), weight);
          forall i | 0 <= i < r.used - 1
            ensures s[i] >= 128
          {
            if i > 0 {
              assert s[i] == s[1..][i - 1];
            }
          }
          assert s[r.used - 1] == s[1..][t.used - 1];
        }
      }
    }
  }

  lemma {:induction false} ScanEncoded(n: nat, rest: Octets, maximum: nat, seen: Octets, acc: nat, weight: nat)
    requires weight > 0 && |seen| <= MAX_SEPTETS
    ensures var r := ScanUVarint(UVarint(n) + rest, maximum, seen, acc, weight);
            if |UVarint(n)| > MAX_SEPTETS - |seen| then r.result == Err(DecodeError)
            else r == Read(if acc + n * weight > maximum then Err(DecodeError) else Ok(acc + n * weight), |UVarint(n)|)
    decreases MAX_SEPTETS - |seen|
  {
    if |seen| == MAX_SEPTETS {
    } else {
      var s := UVarint(n) + rest;
      ScanStep(s, maximum, seen, acc, weight);
      if n < 128 {
        assert s[0] == n == n % 128;
      } else {
        assert s[0] == n % 128 + 128 && s[1..] == UVarint(n / 128) + rest;
        ScanEncoded(n / 128, rest, maximum, seen + [s[0]], AddSeptet(acc, s[0], weight), weight * 128);
        assert s[0] % 128 == n % 128;
        WeightedSplit(n % 128, n / 128, weight);
        assert AddSeptet(acc, s[0], weight) + n / 128 * (weight * 128) == acc + n * weight;
      }
    }
  }

  function Pow128(k: nat): nat {
    if k == 0 then 1 else 128 * Pow128(k - 1)
  }

  lemma {:induction false} Pow128AtLeast(k: nat)
    requires k > 0
    ensures Pow128(k) >= 128
  {
    if k > 1 {
      Pow128AtLeast(k - 1);
    }
  }

  lemma {:induction false} UVarintLength(n: nat, k: nat)
    requires k > 0
    ensures |UVarint(n)| <= k <==> n < Pow128(k)
    decreases k
  {
    if k == 1 {
      assert Pow128(1) == 128 * Pow128(0);
    } else if n >= 128 {
      UVarintLength(n / 128, k - 1);
      assert Pow128(k) == 128 * Pow128(k - 1);
    } else {
      Pow128AtLeast(k);
    }
  }

  lemma UVarintBoundIsTenSeptets()
    ensures Pow128(10) == UVARINT_BOUND
  {
    assert Pow128(4) == 0x1000_0000;
    assert Pow128(8) == 128 * 128 * 128 * 128 * Pow128(4);
  }

  /**
   * Reading a written varint returns the value and consumes exactly its encoding, precisely for the
   * values within the limit; every larger value is refused.
   */
  lemma UVarintRoundTrip(n: nat, rest: Octets, maximum: nat)
    requires maximum < UVARINT_BOUND
    ensures ReadUVarint(UVarint(n) + rest, maximum).result.Ok? <==> n <= maximum
    ensures n <= maximum ==> ReadUVarint(UVarint(n) + rest, maximum) == Read(Ok(n), |UVarint(n)|)
    ensures n <= maximum ==> (UVarint(n) + rest)[|UVarint(n)|..] == rest
  {
    ScanEncoded(n, rest, maximum, [], 0, 1);
    UVarintLength(n, 10);
    UVarintBoundIsTenSeptets();
  }

  lemma BlobRoundTrip(value: Octets, rest: Octets, maximum: nat)
    requires maximum < UVARINT_BOUND
    ensures ReadBlob(Blob(value) + rest, maximum).result.Ok? <==> |value| <= maximum
    ensures |value| <= maximum ==> ReadBlob(Blob(value) + rest, maximum) == Read(Ok(value), |Blob(value)|)
    ensures |value| <= maximum ==> (Blob(value) + rest)[|Blob(value)|..] == rest
  {
    assert Blob(value) + rest == UVarint(|value|) + (value + rest);
    UVarintRoundTrip(|value|, value + rest, maximum);
    if |value| <= maximum {
      assert (value + rest)[..|value|] == value;
    }
  }

  // ----- The reader accepts encodings the writer never produces

  lemma UVarintStep(n: nat)
    ensures UVarint(n) == if n < 128 then [n] else [n % 128 + 128] + UVarint(n / 128)
  {
  }

  /** A continuation byte before a run: the longer value encodes as the byte and the run, unless the run is zero. */
  lemma PrefixedRun(b: Byte, n: nat)
    requires b >= 128
    ensures n > 0 ==> UVarint(b % 128 + 128 * n) == [b] + UVarint(n)
    ensures n == 0 ==> UVarint(b % 128 + 128 * n) == [b - 128]
  {
    hide UVarint;
    var m := b % 128 + 128 * n;
    assert m % 128 == b % 128 == b - 128 && m / 128 == n;
    UVarintStep(m);
  }

  lemma {:induction false} MinimalRun(w: Octets)
    requires w != []
    requires forall i :: 0 <= i < |w| - 1 ==> w[i] >= 128
    requires w[|w| - 1] < 128
    ensures Septets(w) == 0 ==> w[|w| - 1] == 0
    ensures UVarint(Septets(w)) == w <==> (|w| == 1 || w[|w| - 1] != 0)
  {
    var t := w[1..];
    if |w| == 1 {
      assert t == [];
    } else {
      forall i | 0 <= i < |t| - 1
        ensures t[i] >= 128
      {
        assert t[i] == w[i + 1];
      }
      MinimalRun(t);
      if |t| == 1 {
        assert t[1..] == [];
      }
      assert w == [w[0]] + t;
      PrefixedRun(w[0], Septets(t));
    }
  }

  /** An accepted varint is the writer's own encoding exactly when it carries no superfluous zero septet. */
  lemma AcceptedUVarintIsCanonical(s: Octets, maximum: nat)
    requires ReadUVarint(s, maximum).result.Ok?
    ensures var r := ReadUVarint(s, maximum);
            && 1 <= r.used <= 10
            && (s[..r.used] == UVarint(r.result.value) <==> (r.used == 1 || s[r.used - 1] != 0))
  {
    var r := ReadUVarint(s, maximum);
    ScanMeaning(s, maximum, [], 0, 1);
    MinimalRun(s[..r.used]);
  }

  /** A concrete non-canonical input: two bytes that read as zero. */
  lemma OverlongZeroAccepted()
    ensures ReadUVarint([128, 0], MAX_FIELD_SIZE) == Read(Ok(0), 2)
    ensures UVarint(0) != [128, 0]
  {
    hide ScanUVarint, ReadUVarint;
    var s: Octets := [128, 0];
    assert s[1..] == [0];
    ScanStart(s, MAX_FIELD_SIZE);
    ScanStep(s, MAX_FIELD_SIZE, [], 0, 1);
    ScanStep([0], MAX_FIELD_SIZE, [] + [128], 0, 128);
  }
}
