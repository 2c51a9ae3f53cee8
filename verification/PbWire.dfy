/** The Protocol Buffers wire format as nanopb reads and writes it: base-128 varints, zig-zag
    numbers and little-endian fixed-width numbers. Everything here is a value-level definition;
    the stream methods that compute it are in PbStream.

    Machine words are mathematical integers. A C shift by k is a multiplication or a division by
    2^k, "& 0x7F" is a remainder modulo 128, and every truncation to 32 or 64 bits is written out
    as a remainder. */
module PbWire {
  type byte = x: int | 0 <= x < 256

  const U32: nat := 0x1_0000_0000
  const U64: nat := 0x1_0000_0000_0000_0000

  /** The outcome of reading one item from the front of a byte string. */
  datatype Read<+T> = Fail | Done(value: T, rest: seq<byte>)

  // ---------------------------------------------------------------- varints

  /** The base-128 number at the front of s, of any length. This is the reference meaning of a
      varint: each byte contributes seven bits, least significant first, and the last byte is the
      first one below 128. */
  function Varint(s: seq<byte>): (r: Read<nat>)
    ensures r.Done? ==> |r.rest| < |s| && r.rest == s[|s| - |r.rest|..]
  {
    if s == [] then Fail
    else if s[0] < 128 then Done(s[0], s[1..])
    else
      match Varint(s[1..])
      case Fail => Fail
      case Done(high, rest) => Done(s[0] - 128 + 128 * high, rest)
  }

  /** What pb_decode_varint returns: at most ten bytes, modulo 2^64. */
  function Varint64(s: seq<byte>): Read<nat> {
    match Varint(s)
    case Fail => Fail
    case Done(v, rest) => if |s| - |rest| <= 10 then Done(v % U64, rest) else Fail
  }

  /** What pb_decode_varint32 returns: at most five bytes, modulo 2^32. */
  function Varint32(s: seq<byte>): Read<nat> {
    match Varint(s)
    case Fail => Fail
    case Done(v, rest) => if |s| - |rest| <= 5 then Done(v % U32, rest) else Fail
  }

  /** The bytes pb_encode_varint writes. */
  function EncVarint(v: nat): (s: seq<byte>)
    ensures |s| > 0
  {
    if v < 128 then [v] else [v % 128 + 128] + EncVarint(v / 128)
  }

  function Pow128(i: nat): (p: nat)
    ensures p > 0
  {
    if i == 0 then 1 else 128 * Pow128(i - 1)
  }

  lemma {:induction false} Pow128Values()
    ensures Pow128(0) == 1 && Pow128(1) == 0x80 && Pow128(2) == 0x4000 && Pow128(3) == 0x20_0000
    ensures Pow128(4) == 0x1000_0000 && Pow128(5) == 0x8_0000_0000 && Pow128(6) == 0x400_0000_0000
    ensures Pow128(7) == 0x2_0000_0000_0000 && Pow128(8) == 0x100_0000_0000_0000
    ensures Pow128(9) == 0x8000_0000_0000_0000 && Pow128(10) == 0x40_0000_0000_0000_0000
  {
    assert Pow128(3) == 0x20_0000;
    assert Pow128(5) == 0x8_0000_0000;
    assert Pow128(7) == 0x2_0000_0000_0000;
    assert Pow128(9) == 0x8000_0000_0000_0000;
  }

  /** Reading a varint undoes writing it, whatever follows. */
  lemma {:induction false} VarintRoundTrip(v: nat, t: seq<byte>)
    ensures Varint(EncVarint(v) + t) == Done(v, t)
  {
    var s := EncVarint(v) + t;
    if v < 128 {
      assert s[1..] == t;
    } else {
      assert s[1..] == EncVarint(v / 128) + t;
      VarintRoundTrip(v / 128, t);
    }
  }

  /** A number below 128^n needs at most n bytes, and only such a number does. */
  lemma {:induction false} EncVarintLength(v: nat, n: nat)
    requires n > 0
    ensures |EncVarint(v)| <= n <==> v < Pow128(n)
  {
    if v >= 128 && n > 1 {
      EncVarintLength(v / 128, n - 1);
    }
  }

  lemma {:induction false} EncVarintFits(v: nat)
    ensures v < U64 ==> |EncVarint(v)| <= 10
    ensures v < U32 ==> |EncVarint(v)| <= 5
  {
    Pow128Values();
    EncVarintLength(v, 10);
    EncVarintLength(v, 5);
  }

  /** No other encoding of the same number is shorter: every byte string that reads as v spends
      at least as many bytes as EncVarint(v). */
  lemma {:induction false} EncVarintShortest(s: seq<byte>)
    requires Varint(s).Done?
    ensures |EncVarint(Varint(s).value)| <= |s| - |Varint(s).rest|
  {
    if s[0] >= 128 {
      EncVarintShortest(s[1..]);
      var high := Varint(s[1..]).value;
      assert (s[0] - 128 + 128 * high) / 128 == high;
    }
  }

  lemma {:induction false} Varint64RoundTrip(v: nat, t: seq<byte>)
    requires v < U64
    ensures Varint64(EncVarint(v) + t) == Done(v, t)
  {
    hide EncVarint, Varint;
    VarintRoundTrip(v, t);
    EncVarintFits(v);
  }

  lemma {:induction false} Varint32RoundTrip(v: nat, t: seq<byte>)
    requires v < U32
    ensures Varint32(EncVarint(v) + t) == Done(v, t)
  {
    hide EncVarint, Varint;
    VarintRoundTrip(v, t);
    EncVarintFits(v);
  }

  /** The short decoder accepts exactly the complete encodings of at most five bytes, and agrees
      with the long one modulo 2^32. */
  lemma {:induction false} Varint32AgreesWithVarint64(s: seq<byte>)
    ensures Varint32(s).Done? <==> Varint64(s).Done? && |s| - |Varint64(s).rest| <= 5
    ensures Varint32(s).Done? ==> Varint32(s) == Done(Varint64(s).value % U32, Varint64(s).rest)
  {
    hide Varint;
    if Varint32(s).Done? {
      TruncateTwice(Varint(s).value);
    }
  }

  lemma {:induction false} TruncateTwice(v: nat)
    ensures (v % U64) % U32 == v % U32
  {
    var q, r := v / U64, v % U64;
    assert v == (q * U32) * U32 + r;
    MultipleDrops(q * U32, r);
  }

  lemma {:induction false} MultipleDrops(q: nat, r: nat)
    ensures (q * U32 + r) % U32 == r % U32
  {
    var a, b := r / U32, r % U32;
    assert q * U32 + r == (q + a) * U32 + b;
  }

  /** Extra input behind a complete varint does not change how it reads. */
  lemma {:induction false} VarintLocal(s: seq<byte>, t: seq<byte>)
    requires Varint(s).Done?
    ensures Varint(s + t) == Done(Varint(s).value, Varint(s).rest + t)
  {
    if s[0] < 128 {
      assert (s + t)[1..] == s[1..] + t;
    } else {
      assert (s + t)[1..] == s[1..] + t;
      VarintLocal(s[1..], t);
    }
  }

  // ---------------------------------------------------------------- zig-zag

  predicate IsInt64(n: int) { -0x8000_0000_0000_0000 <= n < 0x8000_0000_0000_0000 }

  /** (uint64_t)n */
  function ToU64(n: int): nat
    requires IsInt64(n)
  {
    if n < 0 then n + U64 else n
  }

  /** (int64_t)v */
  function ToS64(v: nat): int
    requires v < U64
  {
    if v < 0x8000_0000_0000_0000 then v else v - U64
  }

  /** pb_encode_svarint: "~(value << 1)" for a negative value, "value << 1" otherwise. */
  function ZigZag(n: int): (z: nat)
    requires IsInt64(n)
    ensures z < U64
  {
    if n < 0 then U64 - 1 - (2 * ToU64(n)) % U64 else 2 * n
  }

  /** pb_decode_svarint: "~(v >> 1)" when the low bit is set, "v >> 1" otherwise. */
  function UnZigZag(z: nat): int
    requires z < U64
  {
    if z % 2 == 1 then ToS64(U64 - 1 - z / 2) else ToS64(z / 2)
  }

  /** Zig-zag is a bijection between the signed and the unsigned 64-bit numbers that takes n to a
      number of the same magnitude: -1 to 1, 1 to 2, -2 to 3 and so on. */
  lemma {:induction false} ZigZagRoundTrip(n: int)
    requires IsInt64(n)
    ensures UnZigZag(ZigZag(n)) == n
    ensures ZigZag(n) == (if n < 0 then -2 * n - 1 else 2 * n)
  {
    if n < 0 {
      assert 2 * ToU64(n) == (2 * n + U64) + U64;
      WrapOnce(2 * n + U64);
    }
  }

  lemma {:induction false} WrapOnce(x: nat)
    requires x < U64
    ensures (x + U64) % U64 == x
  {
  }

  lemma {:induction false} UnZigZagRoundTrip(z: nat)
    requires z < U64
    ensures IsInt64(UnZigZag(z)) && ZigZag(UnZigZag(z)) == z
  {
    ZigZagRoundTrip(UnZigZag(z));
  }

  // ---------------------------------------------------------------- fixed-width numbers

  /** v as n little-endian bytes. */
  function LittleEndian(v: nat, n: nat): (s: seq<byte>)
    ensures |s| == n
  {
    if n == 0 then [] else [v % 256] + LittleEndian(v / 256, n - 1)
  }

  function FromLittleEndian(s: seq<byte>): nat {
    if s == [] then 0 else s[0] + 256 * FromLittleEndian(s[1..])
  }

  function Pow256(n: nat): (p: nat)
    ensures p > 0
  {
    if n == 0 then 1 else 256 * Pow256(n - 1)
  }

  lemma {:induction false} LittleEndianRoundTrip(v: nat, n: nat)
    requires v < Pow256(n)
    ensures FromLittleEndian(LittleEndian(v, n)) == v
  {
    if n > 0 {
      assert LittleEndian(v, n)[1..] == LittleEndian(v / 256, n - 1);
      LittleEndianRoundTrip(v / 256, n - 1);
    }
  }

  lemma {:induction false} FromLittleEndianBound(s: seq<byte>)
    ensures FromLittleEndian(s) < Pow256(|s|)
  {
    if s != [] { FromLittleEndianBound(s[1..]); }
  }

  lemma {:induction false} Pow256Values()
    ensures Pow256(4) == U32 && Pow256(8) == U64
  {
    assert Pow256(2) == 0x1_0000;
    assert Pow256(4) == U32;
    assert Pow256(6) == 0x1_0000_0000_0000;
  }

  // ---------------------------------------------------------------- digits

  /** Byte i of a little-endian number is its digit i to the base 256. */
  lemma {:induction false} LittleEndianDigit(v: nat, n: nat, i: nat)
    requires i < n
    ensures LittleEndian(v, n)[i] == v / Pow256(i) % 256
  {
    if i > 0 {
      LittleEndianDigit(v / 256, n - 1, i - 1);
      DivideTwice(v, 256, Pow256(i - 1));
    }
  }

  /** Byte i of a varint is its digit i to the base 128, and every byte but the last has the high bit. */
  lemma {:induction false} VarintDigit(v: nat, i: nat)
    requires i < |EncVarint(v)|
    ensures EncVarint(v)[i] == v / Pow128(i) % 128 + (if i < |EncVarint(v)| - 1 then 128 else 0)
  {
    if i > 0 {
      VarintDigit(v / 128, i - 1);
      DivideTwice(v, 128, Pow128(i - 1));
    }
  }

  lemma {:induction false} DivideTwice(v: nat, a: nat, b: nat)
    requires a > 0 && b > 0
    ensures a * b > 0 && v / a / b == v / (a * b)
  {
    var q, r := Divide(v, a);
    var p, u := Divide(q, b);
    Regroup(p, u, r, a, b);
    QuotientUnique(v, a, q, r);
    QuotientUnique(q, b, p, u);
    QuotientUnique(v, a * b, p, u * a + r);
  }

  lemma {:induction false} Divide(v: nat, d: nat) returns (q: nat, r: nat)
    requires d > 0
    ensures v == q * d + r && r < d
  {
    if v < d {
      q, r := 0, v;
    } else {
      q, r := Divide(v - d, d);
      q := q + 1;
    }
  }

  lemma {:induction false} Regroup(p: nat, u: nat, r: nat, a: nat, b: nat)
    requires u < b && r < a
    ensures 0 <= u * a + r < a * b && (p * b + u) * a + r == p * (a * b) + (u * a + r)
  {
    MulAtLeast(b - 1 - u, a);
    MulAtLeast(u, a);
    assert (b - 1 - u) * a + u * a + a == a * b;
    assert (p * b + u) * a == p * (a * b) + u * a;
  }

  lemma {:induction false} MulAtLeast(k: int, d: nat)
    ensures k >= 1 ==> k * d >= d
    ensures k >= 0 ==> k * d >= 0
    ensures k <= -1 ==> k * d + d <= 0
  {
  }

  lemma {:induction false} QuotientUnique(v: nat, d: nat, q: nat, r: nat)
    requires r < d && v == q * d + r
    ensures v / d == q
  {
    var p, u := v / d, v % d;
    assert (p - q) * d == r - u;
    MulAtLeast(p - q, d);
  }

  // ---------------------------------------------------------------- blocks

  /** pb_read of n bytes. */
  function Take(s: seq<byte>, n: nat): Read<seq<byte>> {
    if |s| < n then Fail else Done(s[..n], s[n..])
  }

  /** A length prefix and that many bytes: what pb_make_string_substream opens and
      pb_close_string_substream leaves behind. */
  function Delimited(s: seq<byte>): (r: Read<seq<byte>>)
    ensures r.Done? ==> |r.value| + |r.rest| < |s|
  {
    match Varint32(s)
    case Fail => Fail
    case Done(n, rest) => Take(rest, n)
  }

  /** pb_encode_string. */
  function EncDelimited(body: seq<byte>): (s: seq<byte>)
    ensures |s| > |body|
  {
    EncVarint(|body|) + body
  }

  lemma {:induction false} DelimitedRoundTrip(body: seq<byte>, t: seq<byte>)
    requires |body| < U32
    ensures Delimited(EncDelimited(body) + t) == Done(body, t)
  {
    assert EncDelimited(body) + t == EncVarint(|body|) + (body + t);
    Varint32RoundTrip(|body|, body + t);
  }

  lemma {:induction false} DelimitedLocal(s: seq<byte>, t: seq<byte>)
    requires Delimited(s).Done?
    ensures Delimited(s + t) == Done(Delimited(s).value, Delimited(s).rest + t)
  {
    VarintLocal(s, t);
    var n, rest := Varint32(s).value, Varint32(s).rest;
    assert (rest + t)[..n] == rest[..n];
    assert (rest + t)[n..] == rest[n..] + t;
  }
}
