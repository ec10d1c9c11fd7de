/** QUIC variable-length integers (_decode_varint in decryptor/quic/derive_quic.py; section 16 of RFC 9000). */
module QuicVarint {
  import opened Bytes

  /** 1 << prefix, the prefix being the top two bits of the first byte. */
  function WidthOf(first: Byte): (w: nat)
    ensures w == 1 || w == 2 || w == 4 || w == 8
  {
    if first < 64 then 1 else if first < 128 then 2 else if first < 192 then 4 else 8
  }

  function Prefix(width: nat): nat
    requires width == 1 || width == 2 || width == 4 || width == 8
  {
    if width == 1 then 0 else if width == 2 then 1 else if width == 4 then 2 else 3
  }

  /** The value and the number of bytes it takes up, or ValueError when the data stops short of its width. */
  function Decode(data: Octets): (r: Result<(nat, nat)>)
    ensures r.Ok? ==> 1 <= r.value.1 <= |data|
  {
    if data == [] || |data| < WidthOf(data[0]) then Err(ValueError)
    else Ok((BigEndian([data[0] % 64] + data[1..WidthOf(data[0])]), WidthOf(data[0])))
  }

  lemma OneDigitMore(digits: Octets, b: Byte)
    ensures BigEndian(digits + [b]) == 256 * BigEndian(digits) + b
  {
    assert (digits + [b])[..|digits|] == digits;
  }

  lemma DigitsRead(first: Byte, data: Octets, i: nat)
    requires 1 <= i < |data|
    ensures BigEndian([first] + data[1..i + 1]) == 256 * BigEndian([first] + data[1..i]) + data[i]
  {
    hide BigEndian;
    assert [first] + data[1..i + 1] == ([first] + data[1..i]) + [data[i]];
    OneDigitMore([first] + data[1..i], data[i]);
  }

  lemma NoDigits()
    ensures BigEndian([]) == 0
  {
  }

  /** _decode_varint */
  method DecodeVarint(data: Octets) returns (r: Result<(nat, nat)>)
    ensures r == Decode(data)
  {
    if data == [] {
      return Err(ValueError);
    }
    var length := WidthOf(data[0]);
    if |data| < length {
      return Err(ValueError);
    }
    hide BigEndian;
    var value: nat := data[0] % 64;
    assert [data[0] % 64] + data[1..1] == [] + [data[0] % 64];
    OneDigitMore([], data[0] % 64);
    NoDigits();
    for i := 1 to length
      invariant value == BigEndian([data[0] % 64] + data[1..i])
    {
      DigitsRead(data[0] % 64, data, i);
      value := value * 256 + data[i];
    }
    return Ok((value, length));
  }

  /** The first value that no longer fits beside the two width bits. */
  function Limit(width: nat): nat
    requires width == 1 || width == 2 || width == 4 || width == 8
  {
    if width == 1 then 0x40 else if width == 2 then 0x4000
    else if width == 4 then 0x4000_0000 else 0x4000_0000_0000_0000
  }

  lemma LimitIsAQuarter(width: nat)
    requires width == 1 || width == 2 || width == 4 || width == 8
    ensures 4 * Limit(width) == Pow256(width)
  {
    WidthFacts();
    if width == 8 {
      assert Pow256(8) == 256 * 256 * 256 * 256 * Pow256(4);
    }
  }

  /** A value together with the width chosen to write it in. */
  datatype Varint = Varint(value: nat, width: nat) {
    predicate Valid() {
      (width == 1 || width == 2 || width == 4 || width == 8) && value < Limit(width)
    }
  }

  lemma {:induction false} FirstDigit(n: nat, width: nat)
    requires width > 0 && 4 * n < Pow256(width)
    ensures ToBigEndian(n, width)[0] < 64
  {
    if width == 1 {
      assert Pow256(1) == 256 * Pow256(0);
      assert ToBigEndian(n, 1) == [] + [n % 256];
    } else {
      assert Pow256(width) == 256 * Pow256(width - 1);
      assert 4 * (n / 256) < Pow256(width - 1);
      FirstDigit(n / 256, width - 1);
      assert ToBigEndian(n, width)[0] == ToBigEndian(n / 256, width - 1)[0];
    }
  }

  lemma TopBitsFree(v: Varint)
    requires v.Valid()
    ensures v.value < Pow256(v.width)
    ensures |ToBigEndian(v.value, v.width)| == v.width
    ensures ToBigEndian(v.value, v.width)[0] < 64
  {
    hide Pow256, ToBigEndian, Limit;
    LimitIsAQuarter(v.width);
    FirstDigit(v.value, v.width);
  }

  function Encode(v: Varint): (bs: Octets)
    requires v.Valid()
    ensures |bs| == v.width
  {
    TopBitsFree(v);
    var bs := ToBigEndian(v.value, v.width);
    [64 * Prefix(v.width) + bs[0]] + bs[1..]
  }

  lemma PrefixRead(first: Byte, width: nat)
    requires (width == 1 || width == 2 || width == 4 || width == 8) && first < 64
    ensures 64 * Prefix(width) + first < 256
    ensures WidthOf(64 * Prefix(width) + first) == width && (64 * Prefix(width) + first) % 64 == first
  {
  }

  /** Any width that holds the value decodes to it, whatever follows. */
  lemma VarintRoundTrip(v: Varint, rest: Octets, data: Octets)
    requires v.Valid() && data == Encode(v) + rest
    ensures Decode(data) == Ok((v.value, v.width)) && data[v.width..] == rest
  {
    hide BigEndian, Pow256;
    TopBitsFree(v);
    var bs := ToBigEndian(v.value, v.width);
    PrefixRead(bs[0], v.width);
    assert data[0] == 64 * Prefix(v.width) + bs[0];
    assert data[1..v.width] == bs[1..];
    assert [data[0] % 64] + data[1..v.width] == bs;
  }

  /** Too few bytes for the width are refused, and that is the only refusal. */
  lemma CutShortRefused(v: Varint, n: nat)
    requires v.Valid() && n < v.width
    ensures Decode(Encode(v)[..n]) == Err(ValueError)
    ensures forall data :: Decode(data).Err? ==>
              Decode(data) == Err(ValueError) && (data == [] || |data| < WidthOf(data[0]))
  {
    hide BigEndian, Pow256;
    TopBitsFree(v);
    PrefixRead(ToBigEndian(v.value, v.width)[0], v.width);
  }

  lemma DivisibleByFour(width: nat)
    requires width > 0
    ensures Pow256(width) % 4 == 0
  {
    assert Pow256(width) == 4 * (64 * Pow256(width - 1));
  }

  lemma {:induction false} SmallFirstDigit(digits: Octets)
    requires digits != [] && digits[0] < 64
    ensures 4 * BigEndian(digits) < Pow256(|digits|)
  {
    var init := digits[..|digits| - 1];
    if |digits| == 1 {
      assert init == [] && Pow256(1) == 256 * Pow256(0);
    } else {
      SmallFirstDigit(init);
      assert 4 * BigEndian(init) + 4 <= Pow256(|init|) by {
        DivisibleByFour(|init|);
      }
    }
  }

  /** The converse: what decodes was written by some value and width, and only by that one. */
  lemma DecodedWasEncoded(data: Octets)
    requires Decode(data).Ok?
    ensures var v := Varint(Decode(data).value.0, Decode(data).value.1);
            v.Valid() && data[..v.width] == Encode(v)
  {
    hide BigEndian, Pow256;
    var w := WidthOf(data[0]);
    var digits := [data[0] % 64] + data[1..w];
    BigEndianInverse(digits);
    SmallFirstDigit(digits);
    LimitIsAQuarter(w);
    var v := Varint(BigEndian(digits), w);
    assert ToBigEndian(v.value, w) == digits;
    assert data[0] == 64 * Prefix(w) + data[0] % 64;
    assert digits[1..] == data[1..w];
    assert data[..w] == [data[0]] + data[1..w];
  }

  lemma FourDigits(a: Byte, b: Byte, c: Byte, d: Byte)
    ensures BigEndian([a]) == a && BigEndian([a, b]) == 256 * a + b
    ensures BigEndian([a, b, c, d]) == 16777216 * a + 65536 * b + 256 * c + d
  {
    OneDigitMore([], a);
    OneDigitMore([a], b);
    OneDigitMore([a, b], c);
    OneDigitMore([a, b, c], d);
    assert [] + [a] == [a] && [a] + [b] == [a, b] && [a, b] + [c] == [a, b, c] && [a, b, c] + [d] == [a, b, c, d];
  }

  /** The samples of section A.1 of RFC 9000, the last of them in more bytes than it needs. */
  lemma SampleDecodings(four: Octets, two: Octets, one: Octets, long: Octets)
    requires four == [0x9D, 0x7F, 0x3E, 0x7D] && two == [0x7B, 0xBD] && one == [0x25] && long == [0x40, 0x25]
    ensures Decode(four) == Ok((494878333, 4)) && Decode(two) == Ok((15293, 2))
    ensures Decode(one) == Ok((37, 1)) && Decode(long) == Ok((37, 2))
  {
    hide BigEndian;
    FourDigits(0x1D, 0x7F, 0x3E, 0x7D);
    FourDigits(0x3B, 0xBD, 0, 0);
    FourDigits(0x25, 0, 0, 0);
    FourDigits(0, 0x25, 0, 0);
    assert four[1..4] == [0x7F, 0x3E, 0x7D] && [0x1D] + [0x7F, 0x3E, 0x7D] == [0x1D, 0x7F, 0x3E, 0x7D];
    assert [two[0] % 64] + two[1..2] == [0x3B, 0xBD];
    assert [one[0] % 64] + one[1..1] == [0x25];
    assert [long[0] % 64] + long[1..2] == [0, 0x25];
  }
}
