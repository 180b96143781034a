// The wire primitives of nanopb: base-128 varints, zigzag, little-endian words and
// counted strings, written and read as byte sequences.
module PbWire {
  import opened Basics

  const U16: nat := 0x1_0000
  const U32: nat := 0x1_0000_0000
  const U64: nat := 0x1_0000_0000_0000_0000

  /** A read from a byte stream: a value and the bytes after it, or a failure and
      the bytes not yet consumed. */
  datatype Read<+T> = Got(value: T, rest: seq<byte>) | Bad(rest: seq<byte>)

  // ---- Varints ----

  /** What `pb_encode_varint` writes for `n`. */
  function VarintBytes(n: nat): (b: seq<byte>)
    ensures |b| > 0
  {
    if n < 128 then [n] else [n % 128 + 128] + VarintBytes(n / 128)
  }

  /** Reads groups of seven bits, lowest first, until one has no continuation bit;
      fails when the bytes or the `limit` on groups run out. */
  function Groups(b: seq<byte>, limit: nat): (r: Read<nat>)
    ensures |r.rest| <= |b| && (r.Got? ==> |r.rest| < |b|)
    decreases limit
  {
    if limit == 0 || b == [] then Bad(b)
    else if b[0] < 128 then Got(b[0], b[1..])
    else
      match Groups(b[1..], limit - 1)
      case Got(n, rest) => Got(b[0] - 128 + 128 * n, rest)
      case Bad(rest) => Bad(rest)
  }

  function Modulo(r: Read<nat>, m: nat): Read<nat>
    requires m > 0
  {
    if r.Got? then Got(r.value % m, r.rest) else r
  }

  /** `pb_decode_varint32`. */
  function Varint32(b: seq<byte>): (r: Read<nat>)
    ensures r.Got? ==> |r.rest| < |b| && r.value < U32
  {
    Modulo(Groups(b, 5), U32)
  }

  /** `pb_decode_varint`. */
  function Varint64(b: seq<byte>): (r: Read<nat>)
    ensures r.Got? ==> |r.rest| < |b| && r.value < U64
  {
    Modulo(Groups(b, 10), U64)
  }

  /** `pb_skip_varint`. */
  function SkipVarint(b: seq<byte>): (r: Option<seq<byte>>)
    ensures r.Some? ==> |r.value| < |b|
  {
    if b == [] then None
    else if b[0] < 128 then Some(b[1..])
    else SkipVarint(b[1..])
  }

  function Pow128(k: nat): (p: nat)
    ensures p > 0
  {
    if k == 0 then 1 else 128 * Pow128(k - 1)
  }

  lemma {:induction false} GroupsDecode(n: nat, limit: nat, c: seq<byte>)
    requires |VarintBytes(n)| <= limit
    ensures Groups(VarintBytes(n) + c, limit) == Got(n, c)
  {
    var b := VarintBytes(n) + c;
    if n < 128 {
      assert b[1..] == c;
    } else {
      assert b[1..] == VarintBytes(n / 128) + c;
      GroupsDecode(n / 128, limit - 1, c);
    }
  }

  /** `n` needs exactly as many groups as base-128 digits. */
  lemma {:induction false} VarintLength(n: nat, k: nat)
    ensures |VarintBytes(n)| <= k + 1 <==> n < Pow128(k + 1)
  {
    if n >= 128 && k > 0 { VarintLength(n / 128, k - 1); }
    assert Pow128(k + 1) == 128 * Pow128(k);
    if k == 0 { assert Pow128(0) == 1; }
  }

  lemma TenGroupsSuffice(n: nat)
    requires n < U64
    ensures |VarintBytes(n)| <= 10
  {
    VarintLength(n, 9);
    PowersOf128();
  }

  lemma FiveGroupsSuffice(n: nat)
    requires n < U32
    ensures |VarintBytes(n)| <= 5
  {
    VarintLength(n, 4);
    PowersOf128();
  }

  lemma PowersOf128()
    ensures Pow128(5) == 0x8_0000_0000 && Pow128(9) == 0x8000_0000_0000_0000
    ensures Pow128(10) == 0x40_0000_0000_0000_0000
  {
    assert Pow128(2) == 0x4000;
    assert Pow128(4) == 0x4000 * 0x4000;
    assert Pow128(6) == 128 * (128 * Pow128(4));
    assert Pow128(8) == 128 * (128 * Pow128(6));
  }

  /** Encoding then decoding is the identity on 64-bit values, whatever follows. */
  lemma Varint64RoundTrip(n: nat, c: seq<byte>)
    requires n < U64
    ensures Varint64(VarintBytes(n) + c) == Got(n, c)
    ensures 1 <= |VarintBytes(n)| <= 10
  {
    hide Groups, VarintBytes;
    TenGroupsSuffice(n);
    GroupsDecode(n, 10, c);
  }

  lemma Varint32RoundTrip(n: nat, c: seq<byte>)
    requires n < U32
    ensures Varint32(VarintBytes(n) + c) == Got(n, c)
  {
    hide Groups, VarintBytes;
    FiveGroupsSuffice(n);
    GroupsDecode(n, 5, c);
  }

  /** A value read from `k` bytes has at most `k` base-128 digits. */
  lemma {:induction false} GroupsBound(b: seq<byte>, limit: nat)
    requires Groups(b, limit).Got?
    ensures Groups(b, limit).value < Pow128(|b| - |Groups(b, limit).rest|)
    decreases limit
  {
    if b[0] >= 128 {
      GroupsBound(b[1..], limit - 1);
    }
  }

  /** No shorter byte string decodes to the same value. */
  lemma VarintIsMinimal(b: seq<byte>, n: nat)
    requires n < U64 && Varint64(b) == Got(n, [])
    ensures |VarintBytes(n)| <= |b|
  {
    TenGroupsSuffice(n);
    if |b| < 10 {
      GroupsBound(b, 10);
      PowersOf128();
      PowMonotone(|b|, 9);
      VarintLength(n, |b| - 1);
    }
  }

  lemma {:induction false} PowMonotone(j: nat, k: nat)
    requires j <= k
    ensures Pow128(j) <= Pow128(k)
  {
    if j < k { PowMonotone(j, k - 1); }
  }

  /** A larger limit reads the same value. */
  lemma {:induction false} GroupsMore(b: seq<byte>, limit: nat, more: nat)
    requires limit <= more && Groups(b, limit).Got?
    ensures Groups(b, more) == Groups(b, limit)
    ensures SkipVarint(b) == Some(Groups(b, limit).rest)
    decreases limit
  {
    if b[0] >= 128 { GroupsMore(b[1..], limit - 1, more - 1); }
  }

  /** Whenever the 32-bit decoder succeeds, the 64-bit decoder and the skipper
      consume the same bytes and the values agree modulo 2^32; whenever the 64-bit
      decoder succeeds, so does the skipper. */
  lemma DecodersAgree(b: seq<byte>)
    ensures Varint32(b).Got? ==>
              Varint64(b).Got? && Varint64(b).rest == Varint32(b).rest && Varint64(b).value % U32 == Varint32(b).value
    ensures Varint64(b).Got? ==> SkipVarint(b) == Some(Varint64(b).rest)
  {
    if Varint32(b).Got? {
      GroupsMore(b, 5, 10);
      NarrowOfWide(Groups(b, 10).value);
    }
    if Varint64(b).Got? { GroupsMore(b, 10, 10); }
    hide Groups, SkipVarint;
  }

  lemma NarrowOfWide(v: nat)
    ensures v % U64 % U32 == v % U32
  {
    var q := v / U64;
    assert v == U32 * (U32 * q) + v % U64;
    ModuloOfMultiple(U32 * q, v % U64);
  }

  lemma ModuloOfMultiple(k: nat, r: nat)
    ensures (U32 * k + r) % U32 == r % U32
  {
  }

  /** What was read does not depend on what follows. */
  lemma {:induction false} GroupsExtend(b: seq<byte>, limit: nat, c: seq<byte>)
    requires Groups(b, limit).Got?
    ensures Groups(b + c, limit) == Groups(b, limit).(rest := Groups(b, limit).rest + c)
    decreases limit
  {
    if b[0] < 128 {
      assert (b + c)[1..] == b[1..] + c;
    } else {
      GroupsExtend(b[1..], limit - 1, c);
      assert (b + c)[1..] == b[1..] + c;
    }
  }

  lemma {:induction false} SkipExtend(b: seq<byte>, c: seq<byte>)
    requires SkipVarint(b).Some?
    ensures SkipVarint(b + c) == Some(SkipVarint(b).value + c)
  {
    assert (b + c)[1..] == b[1..] + c;
    if b[0] >= 128 { SkipExtend(b[1..], c); }
  }

  // ---- Zigzag and two's complement ----

  function ToU64(n: int): nat {
    n % U64
  }

  function Signed(v: nat, width: nat): int
    requires width > 0
  {
    if v % width < width / 2 then v % width else v % width - width
  }

  function ShiftLeft1(v: nat): nat {
    (2 * v) % U64
  }

  /** The bitwise complement of a 64-bit word. */
  function Complement(v: nat): nat
    requires v < U64
  {
    U64 - 1 - v
  }

  /** `pb_encode_svarint`. */
  function Zigzag(n: int): (z: nat)
    ensures z < U64
  {
    if n < 0 then Complement(ShiftLeft1(ToU64(n))) else ShiftLeft1(ToU64(n))
  }

  /** `pb_decode_svarint`. */
  function Unzigzag(z: nat): int
    requires z < U64
  {
    if z % 2 == 1 then Signed(Complement(z / 2), U64) else Signed(z / 2, U64)
  }

  lemma ZigzagRoundTrip(n: int)
    requires -0x8000_0000_0000_0000 <= n < 0x8000_0000_0000_0000
    ensures Unzigzag(Zigzag(n)) == n
    ensures Zigzag(n) == if n < 0 then -2 * n - 1 else 2 * n
  {
    if n < 0 {
      assert ToU64(n) == n + U64;
    }
  }

  // ---- Fixed-width words and counted strings ----

  function LittleEndian(n: nat, k: nat): (b: seq<byte>)
    ensures |b| == k
  {
    if k == 0 then [] else [n % 256] + LittleEndian(n / 256, k - 1)
  }

  function FromLittleEndian(b: seq<byte>): (n: nat) {
    if b == [] then 0 else
      var low: int := b[0];
      low + 256 * FromLittleEndian(b[1..])
  }

  function Pow256(k: nat): (p: nat)
    ensures p > 0
  {
    if k == 0 then 1 else 256 * Pow256(k - 1)
  }

  lemma {:induction false} LittleEndianRoundTrip(n: nat, k: nat)
    requires n < Pow256(k)
    ensures FromLittleEndian(LittleEndian(n, k)) == n
  {
    if k > 0 {
      LittleEndianRoundTrip(n / 256, k - 1);
      assert LittleEndian(n, k)[1..] == LittleEndian(n / 256, k - 1);
    }
  }

  lemma {:induction false} FromLittleEndianBound(b: seq<byte>)
    ensures FromLittleEndian(b) < Pow256(|b|)
  {
    if b != [] { FromLittleEndianBound(b[1..]); }
  }

  lemma PowersOf256()
    ensures Pow256(4) == U32 && Pow256(8) == U64
  {
    assert Pow256(2) == 0x1_0000;
    assert Pow256(6) == 256 * (256 * Pow256(4));
  }

  /** `pb_read` of `count` bytes. */
  function Take(b: seq<byte>, count: nat): (r: Read<seq<byte>>)
    ensures |r.rest| <= |b|
    ensures r.Got? <==> count <= |b|
    ensures r.Got? ==> |r.value| == count && b == r.value + r.rest
  {
    if count <= |b| then Got(b[..count], b[count..]) else Bad(b)
  }

  /** A varint32 length, then that many bytes. */
  function Counted(b: seq<byte>): (r: Read<seq<byte>>)
    ensures r.Got? ==> |r.rest| + |r.value| < |b|
  {
    var len := Varint32(b);
    if len.Bad? then Bad(len.rest) else Take(len.rest, len.value)
  }

  /** The length is cast to uint64_t. */
  function CountedBytes(s: seq<byte>): (b: seq<byte>)
    ensures |b| > |s|
  {
    VarintBytes(ToU64(|s|)) + s
  }

  lemma CountedRoundTrip(s: seq<byte>, c: seq<byte>)
    requires |s| < U32
    ensures Counted(CountedBytes(s) + c) == Got(s, c)
  {
    Varint32RoundTrip(|s|, s + c);
    assert CountedBytes(s) + c == VarintBytes(|s|) + (s + c);
    assert (s + c)[..|s|] == s && (s + c)[|s|..] == c;
  }

  lemma TakeExtend(b: seq<byte>, count: nat, c: seq<byte>)
    requires Take(b, count).Got?
    ensures Take(b + c, count) == Got(Take(b, count).value, Take(b, count).rest + c)
  {
    assert (b + c)[..count] == b[..count] && (b + c)[count..] == b[count..] + c;
  }

  lemma CountedExtend(b: seq<byte>, c: seq<byte>)
    requires Counted(b).Got?
    ensures Counted(b + c) == Got(Counted(b).value, Counted(b).rest + c)
  {
    GroupsExtend(b, 5, c);
    TakeExtend(Varint32(b).rest, Varint32(b).value, c);
  }
}
