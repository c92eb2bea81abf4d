/** Fixed-width unsigned integers and big-endian byte groups. */
module Bytes {

  const TWO_8: int := 0x100
  const TWO_16: int := 0x1_0000
  const TWO_24: int := 0x100_0000
  const TWO_32: int := 0x1_0000_0000
  const TWO_64: int := 0x1_0000_0000_0000_0000

  /** A Rust `u8`. */
  type Byte = b: int | 0 <= b < 0x100
  /** A Rust `u16`. */
  type U16 = x: int | 0 <= x < 0x1_0000
  /** A Rust `u32`. */
  type U32 = x: int | 0 <= x < 0x1_0000_0000
  /** A Rust `u64` (and `usize` on a 64-bit target). */
  type U64 = x: int | 0 <= x < 0x1_0000_0000_0000_0000

  /** `u16::from_be_bytes([a, b])` */
  function BE16(a: Byte, b: Byte): (r: U16)
    ensures r / TWO_8 == a && r % TWO_8 == b
  {
    a * TWO_8 + b
  }

  /** `u32::from_be_bytes([a, b, c, d])` */
  function BE32(a: Byte, b: Byte, c: Byte, d: Byte): U32
  {
    a * TWO_24 + b * TWO_16 + c * TWO_8 + d
  }

  /** Big-endian value of any byte string (`u128::from_be_bytes` for 16 bytes). */
  function BigEndian(s: seq<Byte>): (r: nat)
  {
    if s == [] then 0 else BigEndian(s[..|s| - 1]) * TWO_8 + s[|s| - 1]
  }

  /** The two bytes `u16::to_be_bytes` would give. */
  function Be16Bytes(x: U16): (r: seq<Byte>)
    ensures |r| == 2 && BE16(r[0], r[1]) == x
  {
    [x / TWO_8, x % TWO_8]
  }

  /** The four bytes `u32::to_be_bytes` would give. */
  function Be32Bytes(x: U32): (r: seq<Byte>)
    ensures |r| == 4 && BE32(r[0], r[1], r[2], r[3]) == x
  {
    var hi := x / TWO_16;
    var lo := x % TWO_16;
    DivMod(x, TWO_16);
    DivMod(hi, TWO_8);
    DivMod(lo, TWO_8);
    [hi / TWO_8, hi % TWO_8, lo / TWO_8, lo % TWO_8]
  }

  lemma DivMod(x: nat, m: nat)
    requires m > 0
    ensures x == (x / m) * m + x % m && 0 <= x % m < m
  {
  }

  lemma DivModUnique(x: int, m: int, q: int, r: int)
    requires m > 0 && 0 <= r < m && x == q * m + r
    ensures x / m == q && x % m == r
  {
    var q', r' := x / m, x % m;
    assert (q - q') * m == r' - r;
    if q > q' {
      MulAtLeast(q - q', m);
    } else if q < q' {
      MulAtLeast(q' - q, m);
    }
  }

  lemma MulAtLeast(k: int, m: int)
    requires k >= 1 && m > 0
    ensures k * m >= m
  {
  }

  /** The bytes of a big-endian `u32` are the bytes it was built from. */
  lemma BE32Digits(a: Byte, b: Byte, c: Byte, d: Byte)
    ensures Be32Bytes(BE32(a, b, c, d)) == [a, b, c, d]
  {
    var x := BE32(a, b, c, d);
    var hi := a * TWO_8 + b;
    var lo := c * TWO_8 + d;
    DivModUnique(x, TWO_16, hi, lo);
    DivModUnique(hi, TWO_8, a, b);
    DivModUnique(lo, TWO_8, c, d);
  }

  /** Two byte pairs have the same big-endian value only if they are the same pair. */
  lemma BE16Injective(a: Byte, b: Byte, c: Byte, d: Byte)
    ensures BE16(a, b) == BE16(c, d) <==> a == c && b == d
  {
  }

  /** Four-byte groups have the same big-endian value only if they are the same bytes. */
  lemma BE32Injective(a: Byte, b: Byte, c: Byte, d: Byte, e: Byte, f: Byte, g: Byte, h: Byte)
    ensures BE32(a, b, c, d) == BE32(e, f, g, h) <==> a == e && b == f && c == g && d == h
  {
    BE32Digits(a, b, c, d);
    BE32Digits(e, f, g, h);
  }

  /** The big-endian value of n bytes fits in 8n bits. */
  lemma {:induction false} BigEndianBound(s: seq<Byte>)
    ensures BigEndian(s) < Pow256(|s|)
  {
    if s != [] {
      BigEndianBound(s[..|s| - 1]);
    }
  }

  /** The low 8n bits of x as n big-endian bytes. */
  function BeBytes(x: nat, n: nat): (r: seq<Byte>)
    ensures |r| == n
  {
    if n == 0 then [] else BeBytes(x / TWO_8, n - 1) + [x % TWO_8]
  }

  /** Reading n big-endian bytes back gives any value that fits in them. */
  lemma {:induction false} BigEndianBeBytes(x: nat, n: nat)
    requires x < Pow256(n)
    ensures BigEndian(BeBytes(x, n)) == x
  {
    if n > 0 {
      var s := BeBytes(x, n);
      assert s[..|s| - 1] == BeBytes(x / TWO_8, n - 1);
      BigEndianBeBytes(x / TWO_8, n - 1);
    }
  }

  /** Writing a byte string's big-endian value back in as many bytes gives
      the string. */
  lemma {:induction false} BeBytesBigEndian(s: seq<Byte>)
    ensures BeBytes(BigEndian(s), |s|) == s
  {
    if s != [] {
      var init := s[..|s| - 1];
      DivModUnique(BigEndian(s), TWO_8, BigEndian(init), s[|s| - 1]);
      BeBytesBigEndian(init);
      assert s == init + [s[|s| - 1]];
    }
  }

  function Pow256(n: nat): (r: nat)
    ensures r >= 1
  {
    if n == 0 then 1 else TWO_8 * Pow256(n - 1)
  }
}
