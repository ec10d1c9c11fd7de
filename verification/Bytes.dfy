/** Octet strings, big-endian integers, and the outcome type that stands for Python's exceptions. */
module Bytes {
  type Byte = b: nat | b < 256
  type Octets = seq<Byte>

  /** The client-to-server direction is 0, the server-to-client direction is 1. */
  type Direction = d: nat | d < 2

  datatype Error =
    | DecodeError
    | ValueError
    | InvalidSignature
    | PcapError
    | FormatError
    | ManifestError
    | RuntimeError
    | StructError   // struct.pack or int.to_bytes refused a value that does not fit its field

  /** A returned value, or the exception raised instead. */
  datatype Result<+T> = Ok(value: T) | Err(error: Error) {
    predicate IsFailure() {
      Err?
    }

    function PropagateFailure<U>(): Result<U>
      requires Err?
    {
      Err(error)
    }

    function Extract(): T
      requires Ok?
    {
      value
    }
  }

  datatype Option<+T> = None | Some(value: T)

  function Max(a: int, b: int): int {
    if a < b then b else a
  }

  // ----- Big-endian integers (int.from_bytes and int.to_bytes with "big", struct's ">H" and ">I")

  function Pow256(width: nat): (p: nat)
    ensures p > 0
  {
    if width == 0 then 1 else 256 * Pow256(width - 1)
  }

  function BigEndian(bs: Octets): nat {
    if bs == [] then 0 else BigEndian(bs[..|bs| - 1]) * 256 + bs[|bs| - 1]
  }

  function ToBigEndian(n: nat, width: nat): (bs: Octets)
    requires n < Pow256(width)
    ensures |bs| == width && BigEndian(bs) == n
  {
    if width == 0 then []
    else
      var hi := ToBigEndian(n / 256, width - 1);
      var bs := hi + [n % 256];
      assert bs[..|bs| - 1] == hi;
      bs
  }

  lemma {:induction false} BigEndianInverse(bs: Octets)
    ensures BigEndian(bs) < Pow256(|bs|)
    ensures ToBigEndian(BigEndian(bs), |bs|) == bs
  {
    if bs != [] {
      BigEndianInverse(bs[..|bs| - 1]);
    }
  }

  lemma WidthFacts()
    ensures Pow256(1) == 256 && Pow256(2) == 65536 && Pow256(3) == 16777216 && Pow256(4) == 4294967296
  {
    assert Pow256(3) == 256 * Pow256(2);
  }

  /** struct.pack(">H", n), for n that fits. */
  function U16(n: nat): (bs: Octets)
    requires n < 65536
    ensures |bs| == 2 && BigEndian(bs) == n
  {
    WidthFacts();
    ToBigEndian(n, 2)
  }

  /** struct.pack(">I", n), for n that fits. */
  function U32(n: nat): (bs: Octets)
    requires n < 4294967296
    ensures |bs| == 4 && BigEndian(bs) == n
  {
    WidthFacts();
    ToBigEndian(n, 4)
  }

  lemma BigEndian2(bs: Octets)
    requires |bs| == 2
    ensures BigEndian(bs) == 256 * bs[0] as int + bs[1] as int
    ensures BigEndian(bs) < 65536
    ensures U16(BigEndian(bs)) == bs
  {
    BigEndianInverse(bs);
    WidthFacts();
    assert bs[..1][..0] == [];
  }

  lemma BigEndian3(bs: Octets)
    requires |bs| == 3
    ensures BigEndian(bs) == 65536 * bs[0] as int + 256 * bs[1] as int + bs[2] as int
  {
    BigEndian2(bs[..2]);
  }

  lemma BigEndian4(bs: Octets)
    requires |bs| == 4
    ensures BigEndian(bs) < 4294967296
    ensures U32(BigEndian(bs)) == bs
  {
    BigEndianInverse(bs);
    WidthFacts();
  }

  /** data[n:], the bytes after the first n. */
  function Skip(data: Octets, n: nat): (rest: Octets)
    requires n <= |data|
    ensures |rest| == |data| - n
  {
    if n == 0 then data else data[n..]
  }

  lemma SkipTwice(data: Octets, a: nat, b: nat)
    requires a + b <= |data|
    ensures Skip(Skip(data, a), b) == Skip(data, a + b)
    ensures b > 0 ==> Skip(data, a)[..b] == data[a..a + b] && Skip(data, a)[0] == data[a]
    ensures a < |data| ==> Skip(data, a)[1..] == Skip(data, a + 1)
  {
  }

  lemma SkipEnds(data: Octets)
    ensures Skip(data, 0) == data && Skip(data, |data|) == []
  {
  }

  lemma SkipSlice(data: Octets, n: nat, a: nat, b: nat)
    requires a <= b && n + b <= |data|
    ensures Skip(data, n)[a..b] == data[n + a..n + b]
    ensures b > 0 ==> Skip(data, n)[b..] == Skip(data, n + b)
    ensures a < b ==> Skip(data, n)[a] == data[n + a]
  {
    var rest := Skip(data, n);
    forall i | 0 <= i < |rest|
      ensures rest[i] == data[n + i]
    {
    }
    assert rest[a..b] == data[n + a..n + b];
    if b > 0 {
      assert rest[b..] == data[n + b..];
    }
  }

  /** bytes(n) */
  function Zeros(n: nat): (z: Octets)
    ensures |z| == n && forall i :: 0 <= i < n ==> z[i] == 0
  {
    seq(n, _ => 0)
  }

  // ----- Concatenation (bytes.join)

  lemma Regroup(a: Octets, b: Octets, c: Octets)
    ensures (a + b) + c == a + (b + c)
  {
  }

  lemma LeftAndRightUnit(a: Octets)
    ensures [] + a == a && a + [] == a
  {
  }

  function Flatten(parts: seq<Octets>): Octets {
    if parts == [] then [] else Flatten(parts[..|parts| - 1]) + parts[|parts| - 1]
  }

  lemma {:induction false} FlattenAppend(a: seq<Octets>, b: seq<Octets>)
    ensures Flatten(a + b) == Flatten(a) + Flatten(b)
  {
    if b == [] {
      assert a + b == a;
    } else {
      var b' := b[..|b| - 1];
      FlattenAppend(a, b');
      assert (a + b)[..|a + b| - 1] == a + b';
    }
  }

  lemma FlattenNothing()
    ensures Flatten([]) == []
  {
  }

  lemma FlattenCons(x: Octets, rest: seq<Octets>)
    ensures Flatten([x] + rest) == x + Flatten(rest)
  {
    FlattenAppend([x], rest);
    assert [x][..0] == [];
  }

  // ----- Results collected from front to back

  /** Items found at the front of some data, and what is left of it. */
  datatype Leading<T, R> = Leading(items: seq<T>, rest: R)

  function Prepend<T, R>(items: seq<T>, r: Result<Leading<T, R>>): Result<Leading<T, R>> {
    match r
    case Err(e) => Err(e)
    case Ok(t) => Ok(Leading(items + t.items, t.rest))
  }

  lemma PrependTwice<T, R>(a: seq<T>, b: seq<T>, r: Result<Leading<T, R>>)
    ensures Prepend(a, Prepend(b, r)) == Prepend(a + b, r)
    ensures Prepend([], r) == r
  {
    if r.Ok? {
      assert a + (b + r.value.items) == (a + b) + r.value.items;
      assert [] + r.value.items == r.value.items;
    }
  }

  lemma PrependFields<T, R>(items: seq<T>, r: Result<Leading<T, R>>)
    ensures r.Err? ==> Prepend(items, r) == Err(r.error)
    ensures r.Ok? ==> Prepend(items, r) == Ok(Leading(items + r.value.items, r.value.rest))
  {
  }

  lemma PrependNone<T, R>(items: seq<T>, rest: R)
    ensures Prepend(items, Ok(Leading([], rest))) == Ok(Leading(items, rest))
    ensures forall e :: Prepend<T, R>(items, Err(e)) == Err(e)
  {
    assert items + [] == items;
  }

  /** The same where nothing is left over. */
  function Add<T>(items: seq<T>, r: Result<seq<T>>): Result<seq<T>> {
    match r
    case Err(e) => Err(e)
    case Ok(more) => Ok(items + more)
  }

  lemma AddTwice<T>(a: seq<T>, b: seq<T>, r: Result<seq<T>>)
    ensures Add(a, Add(b, r)) == Add(a + b, r)
    ensures Add([], r) == r
  {
    if r.Ok? {
      assert a + (b + r.value) == (a + b) + r.value;
      assert [] + r.value == r.value;
    }
  }

  lemma AddNone<T>(items: seq<T>)
    ensures Add(items, Ok([])) == Ok(items)
    ensures forall e :: Add(items, Err(e)) == Err(e)
  {
    assert items + [] == items;
  }
}
