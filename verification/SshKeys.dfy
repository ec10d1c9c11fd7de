/** Key expansion, mpints and the exchange hash (ssh_crypto.py), and P_hash (tls12_crypto.py); hashes are parameters. */
module SshKeys {
  import opened Bytes
  import opened SshNegotiation

  // ----- Key expansion

  ghost predicate FixedOutput(hash: Octets -> Octets, width: nat) {
    width > 0 && forall x :: |hash(x)| == width
  }

  function Take(s: Octets, n: nat): (r: Octets)
    ensures n <= |s| ==> r == s[..n]
  {
    if n <= |s| then s[..n] else s
  }

  /** K1 || ... || Kn: K1 = HASH(K || H || X || session_id), K(n+1) = HASH(K || H || K1 || ... || Kn). */
  function KeyBlocks(hash: Octets -> Octets, secret: Octets, first: Octets, n: nat): Octets {
    if n == 0 then []
    else
      var before := KeyBlocks(hash, secret, first, n - 1);
      before + hash(secret + if n == 1 then first else before)
  }

  /** The blocks appended until there are enough of them; a hash without output would never get there. */
  function Expand(hash: Octets -> Octets, secret: Octets, first: Octets, done: Octets, length: nat): Octets
    decreases length - |done|
  {
    if |done| >= length then done
    else
      var chunk := hash(secret + if done == [] then first else done);
      if chunk == [] then done else Expand(hash, secret, first, done + chunk, length)
  }

  function DerivedKey(hash: Octets -> Octets, K: Octets, H: Octets, letter: Byte, sessionId: Octets,
      length: nat): Octets {
    Take(Expand(hash, K + H, [letter] + sessionId, [], length), length)
  }

  lemma {:induction false} KeyBlocksSize(hash: Octets -> Octets, width: nat, secret: Octets, first: Octets, n: nat)
    requires FixedOutput(hash, width)
    ensures |KeyBlocks(hash, secret, first, n)| == n * width
    ensures n <= n * width
  {
    if n > 0 {
      KeyBlocksSize(hash, width, secret, first, n - 1);
      assert n * width == (n - 1) * width + width;
    }
  }

  lemma {:induction false} KeyBlocksPrefix(hash: Octets -> Octets, secret: Octets, first: Octets, m: nat, n: nat)
    requires m <= n
    ensures KeyBlocks(hash, secret, first, m) <= KeyBlocks(hash, secret, first, n)
  {
    if m < n {
      KeyBlocksPrefix(hash, secret, first, m, n - 1);
    }
  }

  lemma ExpandStep(hash: Octets -> Octets, secret: Octets, first: Octets, done: Octets, length: nat)
    ensures Expand(hash, secret, first, done, length) ==
            if |done| >= length then done
            else
              var chunk := hash(secret + if done == [] then first else done);
              if chunk == [] then done else Expand(hash, secret, first, done + chunk, length)
  {
  }

  lemma FirstBlockOnly(n: nat, width: nat)
    requires width > 0
    ensures n * width == 0 <==> n == 0
  {
  }

  lemma KeyBlocksStep(hash: Octets -> Octets, secret: Octets, first: Octets, n: nat)
    ensures KeyBlocks(hash, secret, first, 0) == []
    ensures KeyBlocks(hash, secret, first, n + 1) ==
            KeyBlocks(hash, secret, first, n) + hash(secret + if n == 0 then first
                else KeyBlocks(hash, secret, first, n))
  {
  }

  lemma {:induction false} ExpandFromBlocks(hash: Octets -> Octets, width: nat, secret: Octets, first: Octets,
      m: nat, n: nat, length: nat)
    requires FixedOutput(hash, width) && m <= n && |KeyBlocks(hash, secret, first, n)| >= length
    ensures Take(Expand(hash, secret, first, KeyBlocks(hash, secret, first, m), length), length)
            == KeyBlocks(hash, secret, first, n)[..length]
    decreases n - m
  {
    hide KeyBlocks, Expand;
    var done := KeyBlocks(hash, secret, first, m);
    ExpandStep(hash, secret, first, done, length);
    KeyBlocksSize(hash, width, secret, first, m);
    FirstBlockOnly(m, width);
    KeyBlocksPrefix(hash, secret, first, m, n);
    if |done| < length {
      KeyBlocksStep(hash, secret, first, m);
      ExpandFromBlocks(hash, width, secret, first, m + 1, n, length);
    }
  }

  /** Section 7.2 of RFC 4253: any number of blocks that reaches the length gives the same key. */
  lemma EnoughBlocks(hash: Octets -> Octets, width: nat, K: Octets, H: Octets, letter: Byte, sessionId: Octets,
      n: nat, length: nat)
    requires FixedOutput(hash, width) && |KeyBlocks(hash, K + H, [letter] + sessionId, n)| >= length
    ensures KeyBlocks(hash, K + H, [letter] + sessionId, n)[..length]
        == DerivedKey(hash, K, H, letter, sessionId, length)
    ensures |DerivedKey(hash, K, H, letter, sessionId, length)| == length
  {
    hide KeyBlocks, Expand;
    KeyBlocksStep(hash, K + H, [letter] + sessionId, 0);
    ExpandFromBlocks(hash, width, K + H, [letter] + sessionId, 0, n, length);
  }

  method DeriveSshKey(hash: Octets -> Octets, ghost width: nat, K: Octets, H: Octets, letter: Byte,
      sessionId: Octets, length: nat)
      returns (derived: Octets)
    requires FixedOutput(hash, width)
    ensures |derived| == length
    ensures derived == DerivedKey(hash, K, H, letter, sessionId, length)
  {
    hide KeyBlocks;
    var key: Octets := [];
    var keyData: Octets := [];
    ghost var n := 0;
    KeyBlocksStep(hash, K + H, [letter] + sessionId, 0);
    while |key| < length
      invariant key == keyData == KeyBlocks(hash, K + H, [letter] + sessionId, n)
      invariant |key| == n * width
      decreases length - |key|
    {
      var input := K + H;
      if keyData == [] {
        input := input + [letter] + sessionId;
      } else {
        input := input + keyData;
      }
      var chunk := hash(input);
      FirstBlockOnly(n, width);
      assert K + H + [letter] + sessionId == K + H + ([letter] + sessionId);
      KeyBlocksStep(hash, K + H, [letter] + sessionId, n);
      keyData := keyData + chunk;
      key := key + chunk;
      n := n + 1;
      assert n * width == (n - 1) * width + width;
    }
    EnoughBlocks(hash, width, K, H, letter, sessionId, n, length);
    return key[..length];
  }

  /** A shorter request is a prefix of a longer one. */
  lemma ShorterKeyIsPrefix(hash: Octets -> Octets, width: nat, K: Octets, H: Octets, letter: Byte, sessionId: Octets,
      a: nat, b: nat)
    requires FixedOutput(hash, width) && a <= b
    ensures |DerivedKey(hash, K, H, letter, sessionId, b)| == b
    ensures DerivedKey(hash, K, H, letter, sessionId, a) == DerivedKey(hash, K, H, letter, sessionId, b)[..a]
  {
    hide KeyBlocks, Expand;
    var first := [letter] + sessionId;
    KeyBlocksSize(hash, width, K + H, first, b);
    EnoughBlocks(hash, width, K, H, letter, sessionId, b, a);
    EnoughBlocks(hash, width, K, H, letter, sessionId, b, b);
    assert KeyBlocks(hash, K + H, first, b)[..b][..a] == KeyBlocks(hash, K + H, first, b)[..a];
  }

  lemma PrefixOf(s: Octets, t: Octets, n: nat)
    requires s <= t && n <= |s|
    ensures s[..n] == t[..n]
  {
  }

  lemma KeyBlocksHold(hash: Octets -> Octets, width: nat, K: Octets, H: Octets, letter: Byte, sessionId: Octets,
      length: nat, n: nat)
    requires FixedOutput(hash, width) && n * width <= length
    ensures |DerivedKey(hash, K, H, letter, sessionId, length)| == length
    ensures DerivedKey(hash, K, H, letter, sessionId, length)[..n * width]
            == KeyBlocks(hash, K + H, [letter] + sessionId, n)
  {
    hide KeyBlocks, DerivedKey;
    var first := [letter] + sessionId;
    KeyBlocksSize(hash, width, K + H, first, length);
    KeyBlocksSize(hash, width, K + H, first, n);
    EnoughBlocks(hash, width, K, H, letter, sessionId, length, length);
    KeyBlocksPrefix(hash, K + H, first, n, length);
    PrefixOf(KeyBlocks(hash, K + H, first, n), KeyBlocks(hash, K + H, first, length), n * width);
    assert KeyBlocks(hash, K + H, first, length)[..length][..n * width]
        == KeyBlocks(hash, K + H, first, length)[..n * width];
  }

  /**
   * Section 7.2 of RFC 4253 on the key itself: its first block is HASH(K || H || letter || session_id), every later one
   * HASH(K || H || all the blocks before).
   */
  lemma KeyRecurrence(hash: Octets -> Octets, width: nat, K: Octets, H: Octets, letter: Byte, sessionId: Octets,
      length: nat, n: nat)
    requires FixedOutput(hash, width) && (n + 1) * width <= length
    ensures var key := DerivedKey(hash, K, H, letter, sessionId, length);
            && n * width <= (n + 1) * width <= |key|
            && key[n * width..(n + 1) * width]
               == hash(K + H + if n == 0 then [letter] + sessionId else key[..n * width])
  {
    hide KeyBlocks, DerivedKey;
    var key, first := DerivedKey(hash, K, H, letter, sessionId, length), [letter] + sessionId;
    assert (n + 1) * width == n * width + width;
    KeyBlocksHold(hash, width, K, H, letter, sessionId, length, n);
    KeyBlocksHold(hash, width, K, H, letter, sessionId, length, n + 1);
    KeyBlocksStep(hash, K + H, first, n);
    assert key[n * width..(n + 1) * width] == key[..(n + 1) * width][n * width..];
  }

  // ----- P_hash

  /** A(0) = seed, A(n+1) = HMAC(secret, A(n)); section 5 of RFC 5246. */
  function Chain(hmac: (Octets, Octets) -> Octets, secret: Octets, seed: Octets, n: nat): Octets {
    if n == 0 then seed else hmac(secret, Chain(hmac, secret, seed, n - 1))
  }

  /** HMAC(secret, A(1) + seed) || ... || HMAC(secret, A(n) + seed). */
  function HashBlocks(hmac: (Octets, Octets) -> Octets, secret: Octets, seed: Octets, n: nat): Octets {
    if n == 0 then []
    else HashBlocks(hmac, secret, seed, n - 1) + hmac(secret, Chain(hmac, secret, seed, n) + seed)
  }

  function PHash(hmac: (Octets, Octets) -> Octets, secret: Octets, seed: Octets, length: nat): Octets {
    Take(HashBlocks(hmac, secret, seed, length), length)
  }

  ghost predicate FixedMac(hmac: (Octets, Octets) -> Octets, width: nat) {
    width > 0 && forall k, x :: |hmac(k, x)| == width
  }

  lemma {:induction false} HashBlocksSize(hmac: (Octets, Octets) -> Octets, width: nat, secret: Octets, seed: Octets,
      n: nat)
    requires FixedMac(hmac, width)
    ensures |HashBlocks(hmac, secret, seed, n)| == n * width
    ensures n <= n * width
  {
    if n > 0 {
      HashBlocksSize(hmac, width, secret, seed, n - 1);
      assert n * width == (n - 1) * width + width;
    }
  }

  lemma {:induction false} HashBlocksPrefix(hmac: (Octets, Octets) -> Octets, secret: Octets, seed: Octets, m: nat,
      n: nat)
    requires m <= n
    ensures HashBlocks(hmac, secret, seed, m) <= HashBlocks(hmac, secret, seed, n)
  {
    if m < n {
      HashBlocksPrefix(hmac, secret, seed, m, n - 1);
    }
  }

  lemma EnoughHashBlocks(hmac: (Octets, Octets) -> Octets, width: nat, secret: Octets, seed: Octets, n: nat,
      length: nat)
    requires FixedMac(hmac, width) && |HashBlocks(hmac, secret, seed, n)| >= length
    ensures HashBlocks(hmac, secret, seed, n)[..length] == PHash(hmac, secret, seed, length)
    ensures |PHash(hmac, secret, seed, length)| == length
  {
    HashBlocksSize(hmac, width, secret, seed, length);
    if n <= length {
      HashBlocksPrefix(hmac, secret, seed, n, length);
    } else {
      HashBlocksPrefix(hmac, secret, seed, length, n);
    }
  }

  lemma HashStep(hmac: (Octets, Octets) -> Octets, secret: Octets, seed: Octets, n: nat)
    ensures HashBlocks(hmac, secret, seed, 0) == [] && Chain(hmac, secret, seed, 0) == seed
    ensures Chain(hmac, secret, seed, n + 1) == hmac(secret, Chain(hmac, secret, seed, n))
    ensures HashBlocks(hmac, secret, seed, n + 1) ==
            HashBlocks(hmac, secret, seed, n) + hmac(secret, Chain(hmac, secret, seed, n + 1) + seed)
  {
  }

  /** _p_hash */
  method ExpandPHash(hmac: (Octets, Octets) -> Octets, ghost width: nat, secret: Octets, seed: Octets, length: nat)
      returns (expanded: Octets)
    requires FixedMac(hmac, width)
    ensures |expanded| == length
    ensures expanded == PHash(hmac, secret, seed, length)
  {
    hide HashBlocks, Chain;
    var result: Octets := [];
    var a := seed;
    ghost var n := 0;
    HashStep(hmac, secret, seed, 0);
    while |result| < length
      invariant result == HashBlocks(hmac, secret, seed, n)
      invariant a == Chain(hmac, secret, seed, n)
      decreases length - |result|
    {
      HashStep(hmac, secret, seed, n);
      a := hmac(secret, a);
      result := result + hmac(secret, a + seed);
      n := n + 1;
    }
    EnoughHashBlocks(hmac, width, secret, seed, n, length);
    return result[..length];
  }

  lemma {:induction false} ChainIs(hmac: (Octets, Octets) -> Octets, secret: Octets, seed: Octets, a: seq<Octets>,
      n: nat)
    requires n < |a| && a[0] == seed && forall i :: 0 <= i < |a| - 1 ==> a[i + 1] == hmac(secret, a[i])
    ensures Chain(hmac, secret, seed, n) == a[n]
  {
    if n > 0 {
      ChainIs(hmac, secret, seed, a, n - 1);
    }
  }

  lemma ShorterPHashIsPrefix(hmac: (Octets, Octets) -> Octets, width: nat, secret: Octets, seed: Octets, a: nat, b: nat)
    requires FixedMac(hmac, width) && a <= b
    ensures |PHash(hmac, secret, seed, b)| == b
    ensures PHash(hmac, secret, seed, a) == PHash(hmac, secret, seed, b)[..a]
  {
    hide HashBlocks;
    HashBlocksSize(hmac, width, secret, seed, b);
    EnoughHashBlocks(hmac, width, secret, seed, b, a);
    EnoughHashBlocks(hmac, width, secret, seed, b, b);
    assert HashBlocks(hmac, secret, seed, b)[..b][..a] == HashBlocks(hmac, secret, seed, b)[..a];
  }

  /**
   * Section 5 of RFC 5246 on the output itself: with A(0) the seed and each later A the HMAC of the one before, block
   * n of P_hash, counted from zero, is the HMAC of A(n + 1) and the seed.
   */
  lemma PHashRecurrence(hmac: (Octets, Octets) -> Octets, width: nat, secret: Octets, seed: Octets, a: seq<Octets>,
      length: nat, n: nat)
    requires FixedMac(hmac, width) && (n + 1) * width <= length
    requires n + 1 < |a| && a[0] == seed && forall i :: 0 <= i < |a| - 1 ==> a[i + 1] == hmac(secret, a[i])
    ensures var expanded := PHash(hmac, secret, seed, length);
            && n * width <= (n + 1) * width <= |expanded|
            && expanded[n * width..(n + 1) * width] == hmac(secret, a[n + 1] + seed)
  {
    hide HashBlocks, Chain, PHash;
    assert (n + 1) * width == n * width + width;
    HashBlocksSize(hmac, width, secret, seed, n);
    HashBlocksSize(hmac, width, secret, seed, n + 1);
    HashBlocksSize(hmac, width, secret, seed, length);
    EnoughHashBlocks(hmac, width, secret, seed, length, length);
    EnoughHashBlocks(hmac, width, secret, seed, n + 1, (n + 1) * width);
    ShorterPHashIsPrefix(hmac, width, secret, seed, (n + 1) * width, length);
    HashStep(hmac, secret, seed, n);
    ChainIs(hmac, secret, seed, a, n + 1);
    var blocks, expanded := HashBlocks(hmac, secret, seed, n + 1), PHash(hmac, secret, seed, length);
    assert expanded[..(n + 1) * width] == blocks;
    assert expanded[n * width..(n + 1) * width] == expanded[..(n + 1) * width][n * width..];
  }

  // ----- mpint

  function WithoutLeadingZeros(value: Octets): (r: Octets)
    ensures |r| <= |value| && r == Skip(value, |value| - |r|)
    ensures forall i :: 0 <= i < |value| - |r| ==> value[i] == 0
    ensures r != [] ==> r[0] != 0
  {
    if value != [] && value[0] == 0 then WithoutLeadingZeros(value[1..]) else value
  }

  /** A zero byte keeps a value with its top bit set from reading as negative. */
  function NonNegative(value: Octets): Octets {
    if value != [] && value[0] >= 128 then [0] + value else value
  }

  /** The bytes inside encode_ssh_mpint. */
  function Mpint(value: Octets): Octets {
    NonNegative(WithoutLeadingZeros(value))
  }

  /** The bytes inside the ssh_mpint of compute_exchange_hash: leading zeros stay. */
  function ExchangeMpint(value: Octets): Octets {
    NonNegative(value)
  }

  lemma BigEndianStep(bs: Octets)
    ensures BigEndian([]) == 0
    ensures bs != [] ==> BigEndian(bs) == BigEndian(bs[..|bs| - 1]) * 256 + bs[|bs| - 1] as nat
  {
  }

  lemma {:induction false} ZerosAddNothing(value: Octets, n: nat)
    requires n <= |value| && forall i :: 0 <= i < n ==> value[i] == 0
    ensures BigEndian(value) == BigEndian(Skip(value, n))
    decreases |value|
  {
    hide BigEndian;
    BigEndianStep(value);
    BigEndianStep(Skip(value, n));
    if n < |value| {
      var front := value[..|value| - 1];
      ZerosAddNothing(front, n);
      assert Skip(value, n)[..|value| - n - 1] == Skip(front, n);
    } else if n > 0 {
      ZerosAddNothing(value[..n - 1], n - 1);
      BigEndianStep([]);
    }
  }

  /** Section 5 of RFC 4251: the value, no superfluous leading zero, no sign bit. */
  lemma MpintIsCanonical(value: Octets)
    ensures var m := Mpint(value);
            && BigEndian(m) == BigEndian(value)
            && (m != [] ==> m[0] < 128 && (m[0] == 0 ==> |m| > 1 && m[1] >= 128))
  {
    hide WithoutLeadingZeros, BigEndian;
    var r := WithoutLeadingZeros(value);
    ZerosAddNothing(value, |value| - |r|);
    if r != [] && r[0] >= 128 {
      ZerosAddNothing([0] + r, 1);
      assert Skip([0] + r, 1) == r;
    }
  }

  /** The value already has its canonical form, up to the sign byte. */
  predicate Minimal(value: Octets) {
    value == [] || value[0] != 0 || (|value| > 1 && value[1] >= 128)
  }

  /** The two encodings give the same bytes exactly for minimal values. */
  lemma MpintsAgree(value: Octets)
    ensures ExchangeMpint(value) == Mpint(value) <==> Minimal(value)
  {
    hide WithoutLeadingZeros;
    var r := WithoutLeadingZeros(value);
    if value != [] && value[0] == 0 {
      assert |r| < |value|;
      if Minimal(value) {
        assert |r| == |value| - 1;
        assert r == value[1..];
        assert [0] + r == value;
      }
    } else {
      assert r == value;
    }
  }

  /** A 32-byte secret with one leading zero that its mpint does not have. */
  const ZERO_LED: Octets := [0, 1] + Zeros(30)

  /** A concrete secret whose leading zero the exchange hash keeps. */
  lemma LeadingZeroKept(raw: Octets)
    requires raw == ZERO_LED
    ensures |raw| == 32 && !Minimal(raw)
    ensures Mpint(raw) == [1] + Zeros(30) && ExchangeMpint(raw) == raw
  {
    assert WithoutLeadingZeros(raw) == WithoutLeadingZeros(raw[1..]);
    assert raw[1..] == [1] + Zeros(30);
  }

  // ----- The exchange hash

  function LengthPrefixed(value: Octets): Result<Octets> {
    if Fits(value) then Ok(SshString(value)) else Err(StructError)
  }

  /** The hashed fields of section 8 of RFC 4253 before the shared secret. */
  function HashedFields(clientVersion: Octets, serverVersion: Octets, x: Exchange): seq<Octets> {
    [clientVersion, serverVersion, x.clientKexinit, x.serverKexinit, x.hostKey, x.clientPublic, x.serverPublic]
  }

  predicate Hashable(clientVersion: Octets, serverVersion: Octets, x: Exchange) {
    AllFit(HashedFields(clientVersion, serverVersion, x))
  }

  /** The whole transcript, ending in the given form of the shared secret. */
  function Transcript(clientVersion: Octets, serverVersion: Octets, x: Exchange, secret: Octets): Result<Octets> {
    if Hashable(clientVersion, serverVersion, x) && Fits(secret)
    then Ok(Strings(HashedFields(clientVersion, serverVersion, x)) + SshString(secret)) else Err(StructError)
  }

  lemma {:induction false} StringsOf(fields: seq<Octets>, last: Octets)
    requires AllFit(fields) && Fits(last)
    ensures AllFit(fields + [last]) && Strings(fields + [last]) == Strings(fields) + SshString(last)
  {
    hide SshString;
    if fields == [] {
      assert (fields + [last])[1..] == [];
    } else {
      StringsOf(fields[1..], last);
      assert (fields + [last])[1..] == fields[1..] + [last];
      Regroup(SshString(fields[0]), Strings(fields[1..]), SshString(last));
    }
  }

  lemma NoStrings()
    ensures Strings([]) == []
  {
  }

  /** The order that section 4 of RFC 5656 and section 8 of RFC 4253 give: V_C, V_S, I_C, I_S, K_S, Q_C, Q_S, K. */
  lemma TranscriptOrder(clientVersion: Octets, serverVersion: Octets, x: Exchange, secret: Octets)
    requires Fits(clientVersion) && Fits(serverVersion) && Fits(x.clientKexinit) && Fits(x.serverKexinit)
    requires Fits(x.hostKey) && Fits(x.clientPublic) && Fits(x.serverPublic) && Fits(secret)
    ensures Transcript(clientVersion, serverVersion, x, secret) ==
            Ok(SshString(clientVersion) + SshString(serverVersion) + SshString(x.clientKexinit)
               + SshString(x.serverKexinit) + SshString(x.hostKey) + SshString(x.clientPublic)
               + SshString(x.serverPublic) + SshString(secret))
  {
    hide SshString, Strings;
    var fields := HashedFields(clientVersion, serverVersion, x);
    StringsOf(fields[..0], clientVersion);
    StringsOf(fields[..1], serverVersion);
    StringsOf(fields[..2], x.clientKexinit);
    StringsOf(fields[..3], x.serverKexinit);
    StringsOf(fields[..4], x.hostKey);
    StringsOf(fields[..5], x.clientPublic);
    StringsOf(fields[..6], x.serverPublic);
    NoStrings();
    assert fields[..0] == [] && fields[..0] + [clientVersion] == fields[..1];
    assert fields[..1] + [serverVersion] == fields[..2];
    assert fields[..2] + [x.clientKexinit] == fields[..3];
    assert fields[..3] + [x.serverKexinit] == fields[..4];
    assert fields[..4] + [x.hostKey] == fields[..5];
    assert fields[..5] + [x.clientPublic] == fields[..6];
    assert fields[..6] + [x.serverPublic] == fields;
    LeftAndRightUnit(SshString(clientVersion));
  }

  /** compute_exchange_hash, of the raw shared secret. */
  function ExchangeHash(hash: Octets -> Octets, clientVersion: Octets, serverVersion: Octets, x: Exchange,
      raw: Octets): Result<Octets> {
    var transcript :- Transcript(clientVersion, serverVersion, x, ExchangeMpint(raw));
    Ok(hash(transcript))
  }

  /** The hash the peers sign: the secret is an mpint. */
  function SignedHash(hash: Octets -> Octets, clientVersion: Octets, serverVersion: Octets, x: Exchange,
      raw: Octets): Result<Octets> {
    var transcript :- Transcript(clientVersion, serverVersion, x, Mpint(raw));
    Ok(hash(transcript))
  }

  lemma StringsDiffer(s: Octets, t: Octets)
    requires Fits(s) && Fits(t) && SshString(s) == SshString(t)
    ensures s == t
  {
    assert SshString(s)[4..] == s && SshString(t)[4..] == t;
  }

  /** Transcripts differ only in the encoded secret. */
  lemma TranscriptsAgree(clientVersion: Octets, serverVersion: Octets, x: Exchange, s: Octets, t: Octets)
    requires Transcript(clientVersion, serverVersion, x, s).Ok? && Transcript(clientVersion, serverVersion, x, t).Ok?
    ensures Transcript(clientVersion, serverVersion, x, s) == Transcript(clientVersion, serverVersion, x, t) <==> s == t
  {
    hide SshString, Strings, HashedFields;
    var front := Strings(HashedFields(clientVersion, serverVersion, x));
    if front + SshString(s) == front + SshString(t) {
      assert SshString(s) == (front + SshString(s))[|front|..];
      assert SshString(t) == (front + SshString(t))[|front|..];
      StringsDiffer(s, t);
    }
  }

  /**
   * The hash computed from the raw secret is the one the peers signed whenever the secret is minimal; when it is
   * not, the two are hashes of different transcripts.
   */
  lemma HashesAgree(hash: Octets -> Octets, clientVersion: Octets, serverVersion: Octets, x: Exchange, raw: Octets)
    requires Transcript(clientVersion, serverVersion, x, Mpint(raw)).Ok?
    requires Transcript(clientVersion, serverVersion, x, ExchangeMpint(raw)).Ok?
    ensures Minimal(raw) ==>
              ExchangeHash(hash, clientVersion, serverVersion, x, raw)
                  == SignedHash(hash, clientVersion, serverVersion, x, raw)
    ensures Minimal(raw) <==> Transcript(clientVersion, serverVersion, x, ExchangeMpint(raw))
                              == Transcript(clientVersion, serverVersion, x, Mpint(raw))
  {
    hide Transcript, Mpint, ExchangeMpint, Minimal;
    MpintsAgree(raw);
    TranscriptsAgree(clientVersion, serverVersion, x, ExchangeMpint(raw), Mpint(raw));
  }

  // ----- The six keys

  datatype SessionKeys = SessionKeys(ivC2S: Octets, ivS2C: Octets, encC2S: Octets, encS2C: Octets, macC2S: Octets,
      macS2C: Octets)

  /** derive_ssh_keys with 64 bytes for each of the labels A to F. */
  function DeriveKeys(hash: Octets -> Octets, K: Octets, H: Octets, sessionId: Octets): SessionKeys {
    SessionKeys(
      DerivedKey(hash, K, H, 65, sessionId, 64), DerivedKey(hash, K, H, 66, sessionId, 64),
      DerivedKey(hash, K, H, 67, sessionId, 64), DerivedKey(hash, K, H, 68, sessionId, 64),
      DerivedKey(hash, K, H, 69, sessionId, 64), DerivedKey(hash, K, H, 70, sessionId, 64))
  }

  /** 64 bytes of n blocks for one letter of section 7.2 of RFC 4253. */
  function LetterKey(hash: Octets -> Octets, K: Octets, H: Octets, letter: char, sessionId: Octets, n: nat): Octets
    requires 'A' <= letter <= 'F'
  {
    Take(KeyBlocks(hash, K + H, [letter as nat] + sessionId, n), 64)
  }

  lemma OneLetter(hash: Octets -> Octets, width: nat, K: Octets, H: Octets, letter: char, sessionId: Octets, n: nat)
    requires FixedOutput(hash, width) && 'A' <= letter <= 'F' && n >= 64
    ensures LetterKey(hash, K, H, letter, sessionId, n) == DerivedKey(hash, K, H, letter as nat, sessionId, 64)
  {
    hide KeyBlocks, DerivedKey, FixedOutput;
    KeyBlocksSize(hash, width, K + H, [letter as nat] + sessionId, n);
    EnoughBlocks(hash, width, K, H, letter as nat, sessionId, n, 64);
  }

  /** Which letter makes which key: IVs are A and B, encryption keys C and D, integrity keys E and F, client first. */
  lemma LettersOfTheKeys(hash: Octets -> Octets, width: nat, K: Octets, H: Octets, sessionId: Octets, n: nat)
    requires FixedOutput(hash, width) && n >= 64
    ensures var keys := DeriveKeys(hash, K, H, sessionId);
            && keys.ivC2S == LetterKey(hash, K, H, 'A', sessionId, n)
            && keys.ivS2C == LetterKey(hash, K, H, 'B', sessionId, n)
            && keys.encC2S == LetterKey(hash, K, H, 'C', sessionId, n)
            && keys.encS2C == LetterKey(hash, K, H, 'D', sessionId, n)
            && keys.macC2S == LetterKey(hash, K, H, 'E', sessionId, n)
            && keys.macS2C == LetterKey(hash, K, H, 'F', sessionId, n)
  {
    hide KeyBlocks, DerivedKey, FixedOutput, Take;
    OneLetter(hash, width, K, H, 'A', sessionId, n);
    OneLetter(hash, width, K, H, 'B', sessionId, n);
    OneLetter(hash, width, K, H, 'C', sessionId, n);
    OneLetter(hash, width, K, H, 'D', sessionId, n);
    OneLetter(hash, width, K, H, 'E', sessionId, n);
    OneLetter(hash, width, K, H, 'F', sessionId, n);
  }
}
