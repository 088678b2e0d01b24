/**
 * The two integer encodings the key format uses, as specification functions
 * standing in for the `integer_encoding` crate: unsigned LEB128 varints
 * (`VarInt`) and fixed-width little-endian integers (`FixedInt`).
 */
module Encoding {
  import opened Bytes

  /** Width in bytes of a `u64` written by `write_fixedint`. */
  const U64_SIZE: nat := 8

  /** `required_space()`: the number of bytes of the varint of `n`. */
  function VarintLen(n: nat): (r: nat)
    ensures 1 <= r
    ensures n < 0x80 <==> r == 1
  {
    if n < 0x80 then 1 else 1 + VarintLen(n / 0x80)
  }

  /**
   * `encode_var`: seven payload bits per byte, least significant group first,
   * with the continuation bit set on every byte but the last.
   */
  function Varint(n: nat): (r: seq<byte>)
    ensures |r| == VarintLen(n)
    ensures r[|r| - 1] < 0x80
    ensures forall i :: 0 <= i < |r| - 1 ==> 0x80 <= r[i]
  {
    if n < 0x80 then [n as byte] else [(n % 0x80 + 0x80) as byte] + Varint(n / 0x80)
  }

  /**
   * `decode_var`: the value and the number of bytes it took, or None when
   * the input ends before a byte without the continuation bit.
   */
  function DecodeVarint(s: seq<byte>): (r: Option<(nat, nat)>)
    ensures r.Some? ==> 1 <= r.value.1 <= |s|
  {
    if |s| == 0 then None
    else if s[0] < 0x80 then Some((s[0] as nat, 1))
    else match DecodeVarint(s[1..])
      case None => None
      case Some((v, n)) => Some(((s[0] - 0x80) as nat + 0x80 * v, n + 1))
  }

  /** Decoding reads back exactly the varint, whatever follows it. */
  lemma {:induction false} DecodeVarintOfVarint(n: nat, rest: seq<byte>)
    ensures DecodeVarint(Varint(n) + rest) == Some((n, VarintLen(n)))
  {
    var s := Varint(n) + rest;
    if n >= 0x80 {
      assert s[1..] == Varint(n / 0x80) + rest;
      DecodeVarintOfVarint(n / 0x80, rest);
    }
  }

  /** Varints of different numbers differ, and none is a proper prefix of another. */
  lemma VarintInjective(m: nat, n: nat, rm: seq<byte>, rn: seq<byte>)
    requires Varint(m) + rm == Varint(n) + rn
    ensures m == n
  {
    DecodeVarintOfVarint(m, rm);
    DecodeVarintOfVarint(n, rn);
  }

  /** Euclidean division has one quotient and one remainder. */
  lemma DivModUnique(x: nat, d: nat, q: nat, r: nat)
    requires 0 < d && x == d * q + r && r < d
    ensures x / d == q && x % d == r
  {
    var k := q - x / d;
    assert d * k == x % d - r;
    MulAwayFromZero(d, k);
  }

  lemma MulAwayFromZero(d: nat, k: int)
    requires 0 < d
    ensures 1 <= k ==> d <= d * k
    ensures k <= -1 ==> d * k <= -(d as int)
  {
  }

  /** Splitting off the lowest byte of `x` modulo 256 * p. */
  lemma ModSplit(x: nat, p: nat)
    requires 0 < p
    ensures x % (0x100 * p) == 0x100 * ((x / 0x100) % p) + x % 0x100
  {
    var h := x / 0x100;
    var q, b := h / p, h % p;
    assert h == p * q + b;
    assert x == 0x100 * h + x % 0x100;
    assert x == (0x100 * p) * q + (0x100 * b + x % 0x100);
    assert 0x100 * b <= 0x100 * (p - 1);
    DivModUnique(x, 0x100 * p, q, 0x100 * b + x % 0x100);
  }

  function Pow256(n: nat): (r: nat)
    ensures 0 < r
  {
    if n == 0 then 1 else 0x100 * Pow256(n - 1)
  }

  /** The `width` low bytes of `x`, least significant first. */
  function LittleEndian(x: nat, width: nat): (r: seq<byte>)
    ensures |r| == width
  {
    if width == 0 then [] else [(x % 0x100) as byte] + LittleEndian(x / 0x100, width - 1)
  }

  /** The number whose little-endian bytes are `s`. */
  function FromLittleEndian(s: seq<byte>): (r: nat)
    ensures r < Pow256(|s|)
  {
    if s == [] then 0
    else
      var high := FromLittleEndian(s[1..]);
      assert 0x100 * high <= 0x100 * (Pow256(|s| - 1) - 1);
      s[0] as nat + 0x100 * high
  }

  /** Writing `width` bytes and reading them back keeps `x` modulo 256^width. */
  lemma {:induction false} FromLittleEndianOfLittleEndian(x: nat, width: nat)
    ensures FromLittleEndian(LittleEndian(x, width)) == x % Pow256(width)
  {
    if width > 0 {
      var s := LittleEndian(x, width);
      var p := Pow256(width - 1);
      assert s[1..] == LittleEndian(x / 0x100, width - 1);
      FromLittleEndianOfLittleEndian(x / 0x100, width - 1);
      ModSplit(x, p);
    }
  }

  /** Reading bytes as a number and writing the number back gives the same bytes. */
  lemma {:induction false} LittleEndianOfFromLittleEndian(s: seq<byte>)
    ensures LittleEndian(FromLittleEndian(s), |s|) == s
  {
    if s != [] {
      var x := FromLittleEndian(s);
      var high := FromLittleEndian(s[1..]);
      DivModUnique(x, 0x100, high, s[0] as nat);
      LittleEndianOfFromLittleEndian(s[1..]);
    }
  }

  lemma Pow256Of8()
    ensures Pow256(U64_SIZE) == U64_LIMIT
  {
  }

  /** `encode_fixed` on a `u64`: its eight little-endian bytes. */
  function Fixed64(x: u64): (r: seq<byte>)
    ensures |r| == U64_SIZE
  {
    LittleEndian(x, U64_SIZE)
  }

  /** `decode_fixed` for a `u64` on an eight-byte slice. */
  function DecodeFixed64(s: seq<byte>): u64
    requires |s| == U64_SIZE
  {
    Pow256Of8();
    FromLittleEndian(s)
  }

  /** The fixed-width encoding is a bijection between `u64` and eight-byte strings. */
  lemma Fixed64RoundTrip(x: u64, s: seq<byte>)
    requires |s| == U64_SIZE
    ensures DecodeFixed64(Fixed64(x)) == x
    ensures Fixed64(DecodeFixed64(s)) == s
  {
    Pow256Of8();
    FromLittleEndianOfLittleEndian(x, U64_SIZE);
    LittleEndianOfFromLittleEndian(s);
  }
}
