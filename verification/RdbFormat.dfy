/** The building blocks of the snapshot format: lengths, strings, fixed-size numbers. */
module RdbFormat {
  import opened Bytes

  const U32: nat := 0x1_0000_0000
  const U64: nat := 0x1_0000_0000_0000_0000

  /** The outcome of reading from a byte stream: a value and what is left, or an error. */
  datatype Read<T> = Ok(value: T, rest: bytes) | Err

  function Byte(n: nat): byte
    requires n < 256
  {
    n as byte
  }

  // ----- Numbers of fixed size -----

  /** The `k` low-order bytes of a number, least significant first. */
  function LittleEndian(n: nat, k: nat): (s: bytes)
    ensures |s| == k
  {
    if k == 0 then [] else [Byte(n % 256)] + LittleEndian(n / 256, k - 1)
  }

  function FromLittleEndian(s: bytes): nat {
    if s == [] then 0 else s[0] as nat + 256 * FromLittleEndian(s[1..])
  }

  function Pow256(k: nat): (p: nat)
    ensures p > 0
  {
    if k == 0 then 1 else 256 * Pow256(k - 1)
  }

  lemma {:induction false} LittleEndianRoundTrip(n: nat, k: nat)
    requires n < Pow256(k)
    ensures FromLittleEndian(LittleEndian(n, k)) == n
  {
    if k > 0 {
      LittleEndianRoundTrip(n / 256, k - 1);
      assert LittleEndian(n, k)[1..] == LittleEndian(n / 256, k - 1);
    }
  }

  lemma Powers()
    ensures Pow256(4) == U32 && Pow256(8) == U64
  {
    assert Pow256(1) == 256;
    assert Pow256(2) == 0x1_0000;
    assert Pow256(3) == 0x100_0000;
    assert Pow256(4) == U32;
    assert Pow256(5) == 0x100_0000_0000;
    assert Pow256(6) == 0x1_0000_0000_0000;
    assert Pow256(7) == 0x100_0000_0000_0000;
  }

  /** Four bytes, most significant first. */
  function BigEndian32(n: nat): (s: bytes)
    ensures |s| == 4
  {
    var s := LittleEndian(n, 4);
    [s[3], s[2], s[1], s[0]]
  }

  function FromBigEndian32(s: bytes): nat
    requires |s| == 4
  {
    FromLittleEndian([s[3], s[2], s[1], s[0]])
  }

  lemma BigEndianRoundTrip(n: nat)
    requires n < U32
    ensures FromBigEndian32(BigEndian32(n)) == n
  {
    Powers();
    LittleEndianRoundTrip(n, 4);
    var s, t := LittleEndian(n, 4), BigEndian32(n);
    assert [t[3], t[2], t[1], t[0]] == s;
  }

  function ReadExact(input: bytes, n: nat): (r: Read<bytes>)
    ensures r.Ok? ==> |r.rest| <= |input|
  {
    if |input| < n then Err else Ok(input[..n], input[n..])
  }

  function ReadByte(input: bytes): (r: Read<byte>)
    ensures r.Ok? ==> |r.rest| < |input|
  {
    if input == [] then Err else Ok(input[0], input[1..])
  }

  function ReadU64(input: bytes): (r: Read<nat>)
    ensures r.Ok? ==> |r.rest| < |input|
  {
    match ReadExact(input, 8)
    case Err => Err
    case Ok(s, rest) => Ok(FromLittleEndian(s), rest)
  }

  lemma ReadU64RoundTrip(n: nat, rest: bytes)
    requires n < U64
    ensures ReadU64(LittleEndian(n, 8) + rest) == Ok(n, rest)
  {
    Powers();
    LittleEndianRoundTrip(n, 8);
    assert (LittleEndian(n, 8) + rest)[..8] == LittleEndian(n, 8);
    assert (LittleEndian(n, 8) + rest)[8..] == rest;
  }

  // ----- Lengths: 6, 14 or 32 bits -----

  function EncodeLength(n: nat): bytes {
    if n < 64 then [Byte(n)]
    else if n < 16384 then [Byte(n / 256 % 64 + 64), Byte(n % 256)]
    else [0x80] + BigEndian32(n % U32)
  }

  /** The two top bits of the first byte tell the size. */
  function ReadLength(input: bytes): (r: Read<nat>)
    ensures r.Ok? ==> |r.rest| < |input|
  {
    match ReadByte(input)
    case Err => Err
    case Ok(first, rest) =>
      var kind := first as nat / 64;
      if kind == 0 then Ok(first as nat, rest)
      else if kind == 1 then
        match ReadByte(rest)
        case Err => Err
        case Ok(second, rest') => Ok(first as nat % 64 * 256 + second as nat, rest')
      else if kind == 2 then
        match ReadExact(rest, 4)
        case Err => Err
        case Ok(s, rest') => Ok(FromBigEndian32(s), rest')
      else Err
  }

  /** A length is read back exactly when it fits in 32 bits; a longer one loses its upper part. */
  lemma LengthRoundTripIff(n: nat, rest: bytes)
    ensures ReadLength(EncodeLength(n) + rest) == Ok(n, rest) <==> n < U32
  {
    var s := EncodeLength(n);
    if n < 64 {
      assert (s + rest)[1..] == rest;
    } else if n < 16384 {
      assert (s + rest)[1..][1..] == rest;
    } else {
      var b := BigEndian32(n % U32);
      BigEndianRoundTrip(n % U32);
      assert (s + rest)[1..] == b + rest;
      assert (b + rest)[..4] == b && (b + rest)[4..] == rest;
    }
  }

  lemma LengthRoundTrip(n: nat, rest: bytes)
    requires n < U32
    ensures ReadLength(EncodeLength(n) + rest) == Ok(n, rest)
  {
    LengthRoundTripIff(n, rest);
  }

  // ----- Strings -----

  function EncodeString(s: bytes): bytes {
    EncodeLength(|s|) + s
  }

  function ReadString(input: bytes): (r: Read<bytes>)
    ensures r.Ok? ==> |r.rest| < |input|
  {
    match ReadLength(input)
    case Err => Err
    case Ok(n, rest) => ReadExact(rest, n)
  }

  lemma StringRoundTrip(s: bytes, rest: bytes)
    requires |s| < U32
    ensures ReadString(EncodeString(s) + rest) == Ok(s, rest)
  {
    hide EncodeLength, ReadLength;
    LengthRoundTrip(|s|, s + rest);
    assert EncodeString(s) + rest == EncodeLength(|s|) + (s + rest);
    assert (s + rest)[..|s|] == s && (s + rest)[|s|..] == rest;
  }

  // ----- Runs of strings, pairs and scored members -----

  function EncodeStrings(xs: seq<bytes>): bytes {
    if xs == [] then [] else EncodeString(xs[0]) + EncodeStrings(xs[1..])
  }

  function ReadStrings(input: bytes, n: nat): (r: Read<seq<bytes>>)
    ensures r.Ok? ==> |r.rest| <= |input|
    decreases n
  {
    if n == 0 then Ok([], input)
    else
      match ReadString(input)
      case Err => Err
      case Ok(x, rest) =>
        match ReadStrings(rest, n - 1)
        case Err => Err
        case Ok(xs, rest') => Ok([x] + xs, rest')
  }

  predicate Short(xs: seq<bytes>) {
    forall i :: 0 <= i < |xs| ==> |xs[i]| < U32
  }

  lemma StringsCons(xs: seq<bytes>)
    requires xs != []
    ensures EncodeStrings(xs) == EncodeString(xs[0]) + EncodeStrings(xs[1..])
  {
  }

  lemma ReadStringsCons(input: bytes, x: bytes, mid: bytes, xs: seq<bytes>, rest: bytes)
    requires ReadString(input) == Ok(x, mid) && ReadStrings(mid, |xs|) == Ok(xs, rest)
    ensures ReadStrings(input, |xs| + 1) == Ok([x] + xs, rest)
  {
  }

  lemma {:induction false} StringsRoundTrip(xs: seq<bytes>, rest: bytes)
    requires Short(xs)
    ensures ReadStrings(EncodeStrings(xs) + rest, |xs|) == Ok(xs, rest)
  {
    if xs == [] {
      assert [] + rest == rest;
    } else {
      hide EncodeString, ReadString, EncodeStrings, ReadStrings;
      var tail := EncodeStrings(xs[1..]) + rest;
      StringRoundTrip(xs[0], tail);
      StringsRoundTrip(xs[1..], rest);
      StringsCons(xs);
      Associative(EncodeString(xs[0]), EncodeStrings(xs[1..]), rest);
      ReadStringsCons(EncodeString(xs[0]) + tail, xs[0], tail, xs[1..], rest);
      HeadAndTail(xs);
    }
  }

  datatype Pair = Pair(key: bytes, value: bytes)

  function EncodePairs(ps: seq<Pair>): bytes {
    if ps == [] then [] else EncodeString(ps[0].key) + EncodeString(ps[0].value) + EncodePairs(ps[1..])
  }

  function ReadPairs(input: bytes, n: nat): (r: Read<seq<Pair>>)
    ensures r.Ok? ==> |r.rest| <= |input|
    decreases n
  {
    if n == 0 then Ok([], input)
    else
      match ReadString(input)
      case Err => Err
      case Ok(k, rest) =>
        match ReadString(rest)
        case Err => Err
        case Ok(v, rest') =>
          match ReadPairs(rest', n - 1)
          case Err => Err
          case Ok(ps, rest'') => Ok([Pair(k, v)] + ps, rest'')
  }

  predicate ShortPairs(ps: seq<Pair>) {
    forall i :: 0 <= i < |ps| ==> |ps[i].key| < U32 && |ps[i].value| < U32
  }

  lemma PairsCons(ps: seq<Pair>)
    requires ps != []
    ensures EncodePairs(ps) == EncodeString(ps[0].key) + EncodeString(ps[0].value) + EncodePairs(ps[1..])
  {
  }

  lemma ReadPairsCons(input: bytes, p: Pair, mid: bytes, mid': bytes, ps: seq<Pair>, rest: bytes)
    requires ReadString(input) == Ok(p.key, mid) && ReadString(mid) == Ok(p.value, mid')
    requires ReadPairs(mid', |ps|) == Ok(ps, rest)
    ensures ReadPairs(input, |ps| + 1) == Ok([p] + ps, rest)
  {
  }

  lemma {:induction false} PairsRoundTrip(ps: seq<Pair>, rest: bytes)
    requires ShortPairs(ps)
    ensures ReadPairs(EncodePairs(ps) + rest, |ps|) == Ok(ps, rest)
  {
    if ps == [] {
      assert [] + rest == rest;
    } else {
      hide EncodeString, ReadString, EncodePairs, ReadPairs;
      var k, v := EncodeString(ps[0].key), EncodeString(ps[0].value);
      var tail := EncodePairs(ps[1..]) + rest;
      StringRoundTrip(ps[0].value, tail);
      StringRoundTrip(ps[0].key, v + tail);
      PairsRoundTrip(ps[1..], rest);
      PairsCons(ps);
      Associative(k + v, EncodePairs(ps[1..]), rest);
      Associative(k, v, tail);
      ReadPairsCons(k + (v + tail), ps[0], v + tail, tail, ps[1..], rest);
      HeadAndTail(ps);
    }
  }

  /** A member of a sorted set with the eight bytes of its score. */
  datatype Scored = Scored(member: bytes, score: bytes)

  function EncodeScored(ms: seq<Scored>): bytes {
    if ms == [] then [] else EncodeString(ms[0].member) + ms[0].score + EncodeScored(ms[1..])
  }

  function ReadScored(input: bytes, n: nat): (r: Read<seq<Scored>>)
    ensures r.Ok? ==> |r.rest| <= |input|
    decreases n
  {
    if n == 0 then Ok([], input)
    else
      match ReadString(input)
      case Err => Err
      case Ok(m, rest) =>
        match ReadExact(rest, 8)
        case Err => Err
        case Ok(s, rest') =>
          match ReadScored(rest', n - 1)
          case Err => Err
          case Ok(ms, rest'') => Ok([Scored(m, s)] + ms, rest'')
  }

  predicate ShortScored(ms: seq<Scored>) {
    forall i :: 0 <= i < |ms| ==> |ms[i].member| < U32 && |ms[i].score| == 8
  }

  lemma ExactRoundTrip(s: bytes, rest: bytes)
    ensures ReadExact(s + rest, |s|) == Ok(s, rest)
  {
    assert (s + rest)[..|s|] == s && (s + rest)[|s|..] == rest;
  }

  lemma ScoredCons(ms: seq<Scored>)
    requires ms != []
    ensures EncodeScored(ms) == EncodeString(ms[0].member) + ms[0].score + EncodeScored(ms[1..])
  {
  }

  lemma ReadScoredCons(input: bytes, m: Scored, mid: bytes, mid': bytes, ms: seq<Scored>, rest: bytes)
    requires ReadString(input) == Ok(m.member, mid) && ReadExact(mid, 8) == Ok(m.score, mid')
    requires ReadScored(mid', |ms|) == Ok(ms, rest)
    ensures ReadScored(input, |ms| + 1) == Ok([m] + ms, rest)
  {
  }

  lemma {:induction false} ScoredRoundTrip(ms: seq<Scored>, rest: bytes)
    requires ShortScored(ms)
    ensures ReadScored(EncodeScored(ms) + rest, |ms|) == Ok(ms, rest)
  {
    if ms == [] {
      assert [] + rest == rest;
    } else {
      hide EncodeString, ReadString, EncodeScored, ReadScored, ReadExact;
      var k, score := EncodeString(ms[0].member), ms[0].score;
      var tail := EncodeScored(ms[1..]) + rest;
      StringRoundTrip(ms[0].member, score + tail);
      ExactRoundTrip(score, tail);
      ScoredRoundTrip(ms[1..], rest);
      ScoredCons(ms);
      Associative(k + score, EncodeScored(ms[1..]), rest);
      Associative(k, score, tail);
      ReadScoredCons(k + (score + tail), ms[0], score + tail, tail, ms[1..], rest);
      HeadAndTail(ms);
    }
  }

  // ----- The format, byte by byte -----

  /** Lengths: the number itself; a byte from 64 to 127 with the upper six bits and one with the lower
      eight; 128 and four bytes, the highest first. */
  lemma LengthBytes(n: nat)
    requires n < 4294967296
    ensures n < 64 ==> EncodeLength(n) == [Byte(n)]
    ensures 64 <= n < 16384 ==> EncodeLength(n) == [Byte(64 + n / 256), Byte(n % 256)]
    ensures n >= 16384 ==>
      EncodeLength(n) == [128, Byte(n / 16777216), Byte(n / 65536 % 256), Byte(n / 256 % 256), Byte(n % 256)]
  {
    hide BigEndian32, LittleEndian;
    if n >= 16384 {
      HighestFirst(n);
      assert n % U32 == n && [128] + BigEndian32(n) == [128, Byte(n / 16777216), Byte(n / 65536 % 256), Byte(n / 256 % 256), Byte(n % 256)];
    } else if n >= 64 {
      assert n / 256 < 64;
    }
  }

  lemma HighestFirst(n: nat)
    requires n < 4294967296
    ensures BigEndian32(n) == [Byte(n / 16777216), Byte(n / 65536 % 256), Byte(n / 256 % 256), Byte(n % 256)]
  {
    var a, b, c := n / 256, n / 65536, n / 16777216;
    assert a / 256 == b && b / 256 == c && c < 256;
    var one, two, three := LittleEndian(c, 1), LittleEndian(b, 2), LittleEndian(a, 3);
    assert one == [Byte(c % 256)] + LittleEndian(c / 256, 0);
    assert two == [Byte(b % 256)] + one;
    assert three == [Byte(a % 256)] + two;
    assert LittleEndian(n, 4) == [Byte(n % 256)] + three;
  }

  /** Numbers of fixed size: the lowest byte first. */
  lemma LowestFirst(n: nat, k: nat)
    requires k > 0
    ensures LittleEndian(n, k)[0] as nat == n % 256 && LittleEndian(n, k)[1..] == LittleEndian(n / 256, k - 1)
  {
  }
}
