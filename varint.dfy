/**
 * The variable-length integer codec of the SQLite file format (section 1.6 of
 * the SQLite Database File Format) as `VarInt` and `SerialType` implement it.
 */
module VarInt {
  import opened Wrappers
  import opened Bytes

  datatype VarIntError = EmptyBuffer

  const TWO_56: int := 0x100_0000_0000_0000

  function Pow128(n: nat): (r: nat)
    ensures r >= 1
  {
    if n == 0 then 1 else 128 * Pow128(n - 1)
  }

  /** Bytes read as 7-bit groups, most significant first:
      `result = (result << 7) | (byte & 0x7F)` over every byte. */
  function Low7Value(s: seq<Byte>): (r: nat)
  {
    if s == [] then 0 else Low7Value(s[..|s| - 1]) * 128 + s[|s| - 1] % 128
  }

  /** Position of the first byte with its high bit clear among the first
      `limit` bytes, or min(|s|, limit) when there is none. */
  function Terminator(s: seq<Byte>, limit: nat): (k: nat)
    ensures k <= |s| && k <= limit
    ensures forall j :: 0 <= j < k ==> s[j] >= 128
    ensures k < |s| && k < limit ==> s[k] < 128
  {
    if s == [] || limit == 0 then 0
    else if s[0] < 128 then 0
    else 1 + Terminator(s[1..], limit - 1)
  }

  /** What `VarInt::decode` returns: the value and the number of bytes used. */
  function Decoded(bytes: seq<Byte>): Result<(nat, nat), VarIntError>
  {
    if |bytes| == 0 then Err(EmptyBuffer)
    else
      var k := Terminator(bytes, 8);
      if k < |bytes| && k < 8 then Ok((Low7Value(bytes[..k + 1]), k + 1))
      else if |bytes| >= 9 then Ok((Low7Value(bytes[..8]) * 256 + bytes[8], 9))
      else Ok((Low7Value(bytes), |bytes|))
  }

  /** `VarInt::decode`: up to 9 bytes; the first eight contribute 7 bits each and
      stop at a byte with a clear high bit, a ninth byte contributes all 8 bits.
      A slice that ends early yields the partial value, not an error. */
  method Decode(bytes: seq<Byte>) returns (r: Result<(nat, nat), VarIntError>)
    ensures r == Decoded(bytes)
  {
    if |bytes| == 0 {
      return Err(EmptyBuffer);
    }
    var firstByte := bytes[0];
    if firstByte < 128 {
      DecodeSingleByte(bytes);
      return Ok((firstByte, 1));
    }
    var result: nat := 0;
    var bytesUsed := 0;
    var n := if |bytes| < 9 then |bytes| else 9;
    var i := 0;
    while i < n
      invariant 0 <= i <= n
      invariant bytesUsed == i
      invariant forall j :: 0 <= j < i && j < 8 ==> bytes[j] >= 128
      invariant i <= 8 ==> result == Low7Value(bytes[..i])
      invariant i == 9 ==> result == Low7Value(bytes[..8]) * 256 + bytes[8]
    {
      var b := bytes[i];
      if i == 8 {
        result := result * 256 + b;
      } else {
        assert bytes[..i + 1][..i] == bytes[..i];
        result := result * 128 + b % 128;
        if b < 128 {
          bytesUsed := i + 1;
          assert Terminator(bytes, 8) == i by { TerminatorAt(bytes, 8, i); }
          return Ok((result, bytesUsed));
        }
      }
      bytesUsed := i + 1;
      i := i + 1;
    }
    TerminatorAt(bytes, 8, if n < 8 then n else 8);
    assert n < 9 ==> bytes[..n] == bytes;
    r := Ok((result, bytesUsed));
  }

  /** The terminator is pinned down by its characterising properties. */
  lemma {:induction false} TerminatorAt(s: seq<Byte>, limit: nat, k: nat)
    requires k <= |s| && k <= limit
    requires forall j :: 0 <= j < k ==> s[j] >= 128
    requires k == |s| || k == limit || s[k] < 128
    ensures Terminator(s, limit) == k
  {
    if k > 0 {
      TerminatorAt(s[1..], limit - 1, k - 1);
    }
  }

  /** A first byte below 0x80 decodes on its own. */
  lemma DecodeSingleByte(bytes: seq<Byte>)
    requires |bytes| > 0 && bytes[0] < 128
    ensures Decoded(bytes) == Ok((bytes[0], 1))
  {
    TerminatorAt(bytes, 8, 0);
    assert bytes[..1][..0] == [];
    assert Low7Value(bytes[..1]) == Low7Value([]) * 128 + bytes[0] % 128;
  }

  /** Decoding reads at most 9 bytes, at least one, and the value fits in a u64. */
  lemma DecodeBounds(bytes: seq<Byte>)
    requires |bytes| > 0
    ensures Decoded(bytes).Ok?
    ensures 1 <= Decoded(bytes).value.1 <= 9 && Decoded(bytes).value.1 <= |bytes|
    ensures Decoded(bytes).value.0 < TWO_64
  {
    var k := Terminator(bytes, 8);
    if k < |bytes| && k < 8 {
      Low7ValueBound(bytes[..k + 1]);
      Pow128Monotone(k + 1, 8);
    } else if |bytes| >= 9 {
      Low7ValueBound(bytes[..8]);
      Pow128Values();
    } else {
      Low7ValueBound(bytes);
      Pow128Monotone(|bytes|, 8);
    }
    Pow128Values();
  }

  /** Bytes after the ninth never influence the decoded value. */
  lemma DecodeReadsAtMostNine(bytes: seq<Byte>, rest: seq<Byte>)
    requires |bytes| >= 9
    ensures Decoded(bytes + rest) == Decoded(bytes)
  {
    var s := bytes + rest;
    TerminatorAt(s, 8, Terminator(bytes, 8));
    assert s[..8] == bytes[..8];
    var k := Terminator(bytes, 8);
    if k < 8 {
      assert s[..k + 1] == bytes[..k + 1];
    }
  }

  lemma {:induction false} Low7ValueBound(s: seq<Byte>)
    ensures Low7Value(s) < Pow128(|s|)
  {
    if s != [] {
      Low7ValueBound(s[..|s| - 1]);
    }
  }

  lemma {:induction false} Pow128Monotone(a: nat, b: nat)
    requires a <= b
    ensures Pow128(a) <= Pow128(b)
  {
    if a < b {
      Pow128Monotone(a, b - 1);
    }
  }

  lemma Pow128Values()
    ensures Pow128(1) == 0x80 && Pow128(2) == 0x4000 && Pow128(3) == 0x20_0000
    ensures Pow128(4) == 0x1000_0000 && Pow128(5) == 0x8_0000_0000
    ensures Pow128(6) == 0x400_0000_0000 && Pow128(7) == 0x2_0000_0000_0000
    ensures Pow128(8) == TWO_56 && Pow128(9) == 0x8000_0000_0000_0000
    ensures Pow128(10) == 0x40_0000_0000_0000_0000
  {
    assert Pow128(1) == 0x80;
    assert Pow128(2) == 0x4000;
    assert Pow128(3) == 0x20_0000;
    assert Pow128(4) == 0x1000_0000;
    assert Pow128(5) == 0x8_0000_0000;
    assert Pow128(6) == 0x400_0000_0000;
    assert Pow128(7) == 0x2_0000_0000_0000;
    assert Pow128(8) == TWO_56;
    assert Pow128(9) == 0x8000_0000_0000_0000;
  }

  // ---------------------------------------------------------------------------
  // Encoding as the source writes it

  /** Number of 7-bit groups `VarInt::encode` emits for `v`. */
  function GroupCount(v: nat): (n: nat)
    ensures n >= 1
  {
    if v < 128 then 1 else 1 + GroupCount(v / 128)
  }

  /** The bytes `VarInt::encode` returns: the most significant group first and
      WITHOUT the continuation flag, every later group WITH it. */
  function WrittenEncoding(v: nat): (r: seq<Byte>)
  {
    if v < 128 then [v] else WrittenEncoding(v / 128) + [v % 128 + 128]
  }

  function Reverse(s: seq<Byte>): (r: seq<Byte>)
    ensures |r| == |s|
    ensures forall j :: 0 <= j < |s| ==> r[j] == s[|s| - 1 - j]
  {
    if s == [] then [] else Reverse(s[1..]) + [s[0]]
  }

  /** `VarInt::encode`: pushes flagged low groups while `remaining >= 128`,
      pushes the last group unflagged, then reverses the vector. */
  method Encode(value: U64) returns (result: seq<Byte>)
    ensures result == WrittenEncoding(value)
  {
    if value < 128 {
      return [value];
    }
    result := [];
    var remaining: nat := value;
    while remaining >= 128
      invariant WrittenEncoding(value) == WrittenEncoding(remaining) + Reverse(result)
    {
      assert Reverse(result + [remaining % 128 + 128]) == [remaining % 128 + 128] + Reverse(result);
      result := result + [remaining % 128 + 128];
      remaining := remaining / 128;
    }
    result := result + [remaining];
    result := Reverse(result);
  }

  /** The shape of what `encode` emits: the first byte has its high bit clear and
      every later byte has it set, one byte per 7-bit group. */
  lemma {:induction false} WrittenEncodingShape(v: nat)
    ensures |WrittenEncoding(v)| == GroupCount(v)
    ensures WrittenEncoding(v)[0] < 128
    ensures forall j :: 1 <= j < |WrittenEncoding(v)| ==> WrittenEncoding(v)[j] >= 128
    ensures Low7Value(WrittenEncoding(v)) == v
  {
    if v >= 128 {
      WrittenEncodingShape(v / 128);
      var s := WrittenEncoding(v);
      assert s[..|s| - 1] == WrittenEncoding(v / 128);
    }
  }

  /** The 7-bit groups of `v` fit in `GroupCount(v)` of them, and no fewer. */
  lemma {:induction false} GroupCountBounds(v: nat)
    ensures v < Pow128(GroupCount(v))
    ensures GroupCount(v) > 1 ==> Pow128(GroupCount(v) - 1) <= v
  {
    if v >= 128 {
      GroupCountBounds(v / 128);
    }
  }

  /** A value has only one group count. */
  lemma GroupCountUnique(v: nat, n: nat)
    requires n >= 1 && v < Pow128(n) && (n > 1 ==> Pow128(n - 1) <= v)
    ensures GroupCount(v) == n
  {
    GroupCountBounds(v);
    var g := GroupCount(v);
    if g < n {
      Pow128Monotone(g, n - 1);
    } else if g > n {
      Pow128Monotone(n, g - 1);
    }
  }

  /** `VarInt::encoded_size`: byte count by value range. */
  function EncodedSize(value: U64): (n: nat)
    ensures 1 <= n <= 9
  {
    if value <= 127 then 1
    else if value <= 16383 then 2
    else if value <= 2097151 then 3
    else if value <= 268435455 then 4
    else if value <= 34359738367 then 5
    else if value <= 4398046511103 then 6
    else if value <= 562949953421311 then 7
    else if value <= 72057594037927935 then 8
    else 9
  }

  /** `encoded_size` is the length of `encode` below 2^56; above it `encode`
      emits 9 or 10 bytes while `encoded_size` says 9. */
  lemma EncodedSizeMatchesEncode(v: U64)
    ensures v < TWO_56 ==> EncodedSize(v) == |WrittenEncoding(v)|
    ensures v >= TWO_56 ==> EncodedSize(v) == 9 && 9 <= |WrittenEncoding(v)| <= 10
  {
    WrittenEncodingShape(v);
    Pow128Values();
    var n := EncodedSize(v);
    if v < TWO_56 {
      GroupCountUnique(v, n);
    } else {
      GroupCountBounds(v);
      var g := GroupCount(v);
      if g < 9 {
        Pow128Monotone(g, 8);
      }
      if g > 10 {
        Pow128Monotone(10, g - 1);
      }
    }
  }

  /** FINDING: every value from 128 up decodes, after `encode`, to its top
      7-bit group alone, consuming one byte. */
  lemma WrittenEncodingDoesNotRoundTrip(v: U64)
    requires v >= 128
    ensures Decoded(WrittenEncoding(v)) == Ok((WrittenEncoding(v)[0], 1))
    ensures Decoded(WrittenEncoding(v)) != Ok((v, |WrittenEncoding(v)|))
  {
    WrittenEncodingShape(v);
    DecodeSingleByte(WrittenEncoding(v));
  }

  /** The smallest instance: 128 encodes to [0x01, 0x80], which decodes to 1. */
  lemma WrittenEncodingOf128()
    ensures WrittenEncoding(128) == [0x01, 0x80]
    ensures Decoded([0x01, 0x80]) == Ok((1, 1))
  {
    DecodeSingleByte([0x01, 0x80]);
  }

  // ---------------------------------------------------------------------------
  // Encoding as the file format defines it

  /** The low 7n bits of x as n bytes, most significant first, each flagged. */
  function Flagged7(x: nat, n: nat): (r: seq<Byte>)
    ensures |r| == n
    ensures forall j :: 0 <= j < n ==> r[j] >= 128
  {
    if n == 0 then [] else Flagged7(x / 128, n - 1) + [x % 128 + 128]
  }

  /** What remains of x after n 7-bit groups are shifted out. */
  function Shift7(x: nat, n: nat): nat
  {
    if n == 0 then x else Shift7(x / 128, n - 1)
  }

  /** Flagged7 keeps exactly the low 7n bits of x. */
  lemma {:induction false} Flagged7Value(x: nat, n: nat)
    ensures Low7Value(Flagged7(x, n)) + Pow128(n) * Shift7(x, n) == x
  {
    if n > 0 {
      var q, r := x / 128, x % 128;
      var prev := Flagged7(q, n - 1);
      assert Low7Value(Flagged7(x, n)) == Low7Value(prev) * 128 + r by {
        Low7ValueSnoc(prev, r + 128);
      }
      var a, b := Pow128(n - 1), Shift7(q, n - 1);
      assert Pow128(n) * Shift7(x, n) == 128 * (a * b) by {
        assert Pow128(n) == 128 * a && Shift7(x, n) == b;
      }
      Flagged7Value(q, n - 1);
    }
  }

  /** One more group below: the value shifts up 7 bits and takes the low 7 of the new byte. */
  lemma Low7ValueSnoc(s: seq<Byte>, b: Byte)
    ensures Low7Value(s + [b]) == Low7Value(s) * 128 + b % 128
  {
    assert (s + [b])[..|s|] == s;
  }

  lemma {:induction false} Shift7Small(x: nat, n: nat)
    requires x < Pow128(n)
    ensures Shift7(x, n) == 0
  {
    if n > 0 {
      Shift7Small(x / 128, n - 1);
    }
  }

  /** Below 128^n, the n flagged groups carry the whole value. */
  lemma Flagged7Exact(x: nat, n: nat)
    requires x < Pow128(n)
    ensures Low7Value(Flagged7(x, n)) == x
  {
    Flagged7Value(x, n);
    Shift7Small(x, n);
  }

  /** The varint encoding section 1.6 of the file format defines: 7-bit groups
      most significant first with the continuation flag on all but the last, and
      a 9-byte form whose last byte carries 8 bits. */
  function SqliteEncoding(v: U64): (r: seq<Byte>)
  {
    var n := EncodedSize(v);
    if n == 9 then Flagged7(v / 256, 8) + [v % 256]
    else Flagged7(v / 128, n - 1) + [v % 128]
  }

  lemma EncodedSizeBounds(v: U64)
    ensures EncodedSize(v) < 9 ==> v < Pow128(EncodedSize(v))
    ensures EncodedSize(v) == 9 ==> v / 256 < Pow128(8)
  {
    Pow128Values();
  }

  /** Round trip for every u64: decoding the standard encoding gives the value
      back and consumes exactly the encoding. */
  lemma SqliteEncodingRoundTrip(v: U64)
    ensures |SqliteEncoding(v)| == EncodedSize(v)
    ensures Decoded(SqliteEncoding(v)) == Ok((v, EncodedSize(v)))
  {
    EncodedSizeBounds(v);
    if EncodedSize(v) == 9 {
      RoundTripNineBytes(v);
    } else {
      RoundTripShort(v, EncodedSize(v));
    }
  }

  /** Below 2^56 the standard encoding is at most eight bytes: flagged bytes
      and one final byte with the high bit clear. */
  lemma ShortEncodingShape(v: U64)
    requires v < TWO_56
    ensures |SqliteEncoding(v)| == EncodedSize(v) <= 8
    ensures SqliteEncoding(v)[|SqliteEncoding(v)| - 1] < 128
    ensures forall j :: 0 <= j < |SqliteEncoding(v)| - 1 ==> SqliteEncoding(v)[j] >= 128
    ensures v < 128 ==> EncodedSize(v) == 1
    ensures 128 <= v < 0x4000 ==> EncodedSize(v) == 2
  {
    var n := EncodedSize(v);
    assert SqliteEncoding(v) == Flagged7(v / 128, n - 1) + [v % 128];
  }

  lemma SqliteEncodingShort(v: U64)
    requires EncodedSize(v) < 9
    ensures SqliteEncoding(v) == Flagged7(v / 128, EncodedSize(v) - 1) + [v % 128]
  {
  }

  lemma RoundTripShort(v: U64, n: nat)
    requires n == EncodedSize(v) < 9 && v < Pow128(n)
    ensures Decoded(SqliteEncoding(v)) == Ok((v, n))
  {
    ShortEncodingDecodes(v, n);
    ShortEncodingValue(v, n);
  }

  /** A short encoding decodes in full: flagged bytes, then a clear one. */
  lemma ShortEncodingDecodes(v: U64, n: nat)
    requires n == EncodedSize(v) < 9
    ensures Decoded(SqliteEncoding(v)) == Ok((Low7Value(SqliteEncoding(v)), n))
  {
    var f := Flagged7(v / 128, n - 1);
    var s := f + [v % 128];
    SqliteEncodingShort(v);
    assert forall j :: 0 <= j < n - 1 ==> s[j] == f[j];
    DecodedStopsAt(s, n - 1);
    assert s[..n] == s;
  }

  /** The 7-bit groups of a short encoding add up to the value. */
  lemma ShortEncodingValue(v: U64, n: nat)
    requires n == EncodedSize(v) < 9 && v < Pow128(n)
    ensures Low7Value(SqliteEncoding(v)) == v
  {
    var f := Flagged7(v / 128, n - 1);
    SqliteEncodingShort(v);
    Low7ValueSnoc(f, v % 128);
    Flagged7Exact(v / 128, n - 1);
  }

  /** A terminator among the first eight bytes ends the varint there. */
  lemma DecodedStopsAt(s: seq<Byte>, k: nat)
    requires k < 8 && k < |s| && s[k] < 128
    requires forall j :: 0 <= j < k ==> s[j] >= 128
    ensures Decoded(s) == Ok((Low7Value(s[..k + 1]), k + 1))
  {
    TerminatorAt(s, 8, k);
  }

  lemma RoundTripNineBytes(v: U64)
    requires EncodedSize(v) == 9 && v / 256 < Pow128(8)
    ensures SqliteEncoding(v) == Flagged7(v / 256, 8) + [v % 256]
    ensures Decoded(SqliteEncoding(v)) == Ok((v, 9))
  {
    var f := Flagged7(v / 256, 8);
    var s := f + [v % 256];
    assert SqliteEncoding(v) == s;
    TerminatorAt(s, 8, 8);
    assert s[..8] == f;
    assert Decoded(s) == Ok((Low7Value(f) * 256 + v % 256, 9));
    Flagged7Exact(v / 256, 8);
  }

  // ---------------------------------------------------------------------------
  // Column headers and serial types

  /** `VarInt::parse_column_header`: (low 3 bits, the rest shifted right by 3). */
  function ParseColumnHeader(headerVal: U64): (r: (Byte, U64))
    ensures r.0 < 8 && r.1 * 8 + r.0 == headerVal
  {
    (headerVal % 8, headerVal / 8)
  }

  const NULL: Byte := 0
  const INT8: Byte := 1
  const INT16: Byte := 2
  const INT24: Byte := 3
  const INT32: Byte := 4
  const INT48: Byte := 5
  const INT64: Byte := 6
  const FLOAT64: Byte := 7
  const FALSE: Byte := 8
  const TRUE: Byte := 9
  const BLOB: Byte := 12
  const TEXT: Byte := 13

  /** `SerialType::get_size_for_type`; the serial type is a `u8`. Every
      serial type section 2.1 of the file format defines gets the content
      size the format gives it; the reserved types 10 and 11 get 0. */
  function SizeForType(serialType: Byte): (size: nat)
    ensures StandardContentSize(serialType).Some? ==> size == StandardContentSize(serialType).value
    ensures StandardContentSize(serialType).None? <==> serialType == 10 || serialType == 11
    ensures serialType == 10 || serialType == 11 ==> size == 0
  {
    if serialType == NULL then 0
    else if serialType == INT8 then 1
    else if serialType == INT16 then 2
    else if serialType == INT24 then 3
    else if serialType == INT32 then 4
    else if serialType == INT48 then 6
    else if serialType == INT64 then 8
    else if serialType == FLOAT64 then 8
    else if serialType == FALSE || serialType == TRUE then 0
    else if serialType >= BLOB then
      if serialType % 2 == 0 then (serialType - BLOB) / 2 else (serialType - TEXT) / 2
    else 0
  }

  /** Content size of a serial type as the table in section 2.1 of the file
      format lists it; the reserved types 10 and 11 have none. */
  function StandardContentSize(serialType: nat): Option<nat>
  {
    match serialType
    case 0 => Some(0)
    case 1 => Some(1)
    case 2 => Some(2)
    case 3 => Some(3)
    case 4 => Some(4)
    case 5 => Some(6)
    case 6 => Some(8)
    case 7 => Some(8)
    case 8 => Some(0)
    case 9 => Some(0)
    case 10 => None
    case 11 => None
    case _ => Some((serialType - 12) / 2)
  }

  /** Blob and text serial types carry their length: it is read back exactly. */
  lemma SizeForTypeLength(len: nat)
    ensures 12 + 2 * len < 256 ==> SizeForType(12 + 2 * len) == len
    ensures 13 + 2 * len < 256 ==> SizeForType(13 + 2 * len) == len
  {
  }

  /** `SerialType::type_name`: the name classifies the serial types the same
      way the size table does. */
  function TypeName(serialType: Byte): (name: string)
    ensures name == "INTEGER" <==> 1 <= serialType <= 6
    ensures name == "BLOB" <==> serialType >= 12 && serialType % 2 == 0
    ensures name == "TEXT" <==> serialType >= 13 && serialType % 2 == 1
    ensures name == "NULL" <==> serialType == 0
    ensures name == "REAL" <==> serialType == 7
    ensures name == "BOOLEAN" <==> serialType == 8 || serialType == 9
    ensures name == "UNKNOWN" <==> StandardContentSize(serialType).None?
    ensures name == "BOOLEAN" || name == "NULL" ==> SizeForType(serialType) == 0
  {
    if serialType == NULL then "NULL"
    else if 1 <= serialType <= 6 then "INTEGER"
    else if serialType == FLOAT64 then "REAL"
    else if serialType == FALSE || serialType == TRUE then "BOOLEAN"
    else if serialType >= BLOB && serialType % 2 == 0 then "BLOB"
    else if serialType >= TEXT && serialType % 2 == 1 then "TEXT"
    else "UNKNOWN"
  }
}
