/**
 * The varint reader `decode_sqlite_varint` the record and cell decoders use,
 * and the errors those decoders can end in.
 */
module Helpers {
  import opened Wrappers
  import opened Bytes
  import VarInt

  /** How decoding a cell or record can end. The first three are Rust panics:
      a slice past the end of the buffer, `panic!("Invalid VARINT")`, and the
      subtraction `header_size - 1` underflowing when `header_size` is 0. The
      last is an error `parse_value` returned, passed on by `?`. */
  datatype DecodeError =
    | SliceOutOfRange
    | InvalidVarint
    | HeaderSizeUnderflow
    | ValueError(message: string)

  const TWO_57: int := 0x200_0000_0000_0000

  /** `(result << 7) | (byte & 0x7F)` on a `u64` over every byte: the shift
      keeps only the low 57 bits of the accumulator. */
  function Accumulate(s: seq<Byte>): (r: U64)
  {
    if s == [] then 0
    else (Accumulate(s[..|s| - 1]) % TWO_57) * 128 + s[|s| - 1] % 128
  }

  /** The loop of `decode_sqlite_varint` from byte `i` on, with `acc` the
      accumulator so far: it returns at the first byte with a clear high bit
      and panics when it runs out of bytes. */
  function LegacyFrom(bytes: seq<Byte>, i: nat, acc: U64): Result<(U64, nat), DecodeError>
    decreases |bytes| - i
  {
    if i >= |bytes| then Err(InvalidVarint)
    else
      var next := (acc % TWO_57) * 128 + bytes[i] % 128;
      if bytes[i] < 128 then Ok((next, i + 1)) else LegacyFrom(bytes, i + 1, next)
  }

  /** What `decode_sqlite_varint` returns, with its panic as `InvalidVarint`. */
  function LegacyDecoded(bytes: seq<Byte>): Result<(U64, nat), DecodeError>
  {
    LegacyFrom(bytes, 0, 0)
  }

  /** `decode_sqlite_varint`: a `for` loop over every byte that returns at the
      first byte with a clear high bit and panics if there is none. */
  method DecodeSqliteVarint(bytes: seq<Byte>) returns (r: Result<(U64, nat), DecodeError>)
    ensures r == LegacyDecoded(bytes)
  {
    var result: U64 := 0;
    for index := 0 to |bytes|
      invariant LegacyFrom(bytes, index, result) == LegacyDecoded(bytes)
    {
      var b := bytes[index];
      result := (result % TWO_57) * 128 + b % 128;
      if b < 128 {
        return Ok((result, index + 1));
      }
    }
    return Err(InvalidVarint);
  }

  /** On success it has consumed the bytes from `i` up to and including the
      terminating one. */
  lemma {:induction false} LegacyFromWidth(bytes: seq<Byte>, i: nat, acc: U64)
    ensures LegacyFrom(bytes, i, acc).Ok? ==> (var n := LegacyFrom(bytes, i, acc).value.1;
      i < n <= |bytes| && bytes[n - 1] < 128)
    decreases |bytes| - i
  {
    if i < |bytes| && bytes[i] >= 128 {
      LegacyFromWidth(bytes, i + 1, (acc % TWO_57) * 128 + bytes[i] % 128);
    }
  }

  lemma {:induction false} LegacyFromFails(bytes: seq<Byte>, i: nat, acc: U64)
    ensures LegacyFrom(bytes, i, acc).Err? <==> forall j :: i <= j < |bytes| ==> bytes[j] >= 128
    decreases |bytes| - i
  {
    if i < |bytes| && bytes[i] >= 128 {
      LegacyFromFails(bytes, i + 1, (acc % TWO_57) * 128 + bytes[i] % 128);
    }
  }

  /** The reader panics exactly when no byte has its high bit clear, which
      includes the empty slice. */
  lemma LegacyFailsIffUnterminated(bytes: seq<Byte>)
    ensures LegacyDecoded(bytes).Err? <==> forall j :: 0 <= j < |bytes| ==> bytes[j] >= 128
  {
    LegacyFromFails(bytes, 0, 0);
  }

  lemma {:induction false} LegacyFromStops(bytes: seq<Byte>, i: nat, k: nat)
    requires i <= k < |bytes| && bytes[k] < 128
    requires forall j :: i <= j < k ==> bytes[j] >= 128
    ensures LegacyFrom(bytes, i, Accumulate(bytes[..i])) == Ok((Accumulate(bytes[..k + 1]), k + 1))
    decreases k - i
  {
    assert bytes[..i + 1][..i] == bytes[..i];
    if i < k {
      LegacyFromStops(bytes, i + 1, k);
    }
  }

  /** It stops at the first byte with a clear high bit and consumes up to it. */
  lemma LegacyStopsAtFirstTerminator(bytes: seq<Byte>, k: nat)
    requires k < |bytes| && bytes[k] < 128
    requires forall j :: 0 <= j < k ==> bytes[j] >= 128
    ensures LegacyDecoded(bytes) == Ok((Accumulate(bytes[..k + 1]), k + 1))
  {
    assert bytes[..0] == [];
    LegacyFromStops(bytes, 0, k);
  }

  /** A single byte below 0x80 is its own value. */
  lemma LegacySingleByte(bytes: seq<Byte>)
    requires |bytes| > 0 && bytes[0] < 128
    ensures LegacyDecoded(bytes) == Ok((bytes[0], 1))
  {
  }

  lemma {:induction false} LegacyFromIgnoresTrailingBytes(bytes: seq<Byte>, rest: seq<Byte>, i: nat, acc: U64)
    requires LegacyFrom(bytes, i, acc).Ok?
    ensures LegacyFrom(bytes + rest, i, acc) == LegacyFrom(bytes, i, acc)
    decreases |bytes| - i
  {
    var s := bytes + rest;
    assert s[i] == bytes[i];
    if bytes[i] >= 128 {
      LegacyFromIgnoresTrailingBytes(bytes, rest, i + 1, (acc % TWO_57) * 128 + bytes[i] % 128);
    }
  }

  /** Bytes after the terminating one never change the result. */
  lemma LegacyIgnoresTrailingBytes(bytes: seq<Byte>, rest: seq<Byte>)
    requires LegacyDecoded(bytes).Ok?
    ensures LegacyDecoded(bytes + rest) == LegacyDecoded(bytes)
  {
    LegacyFromIgnoresTrailingBytes(bytes, rest, 0, 0);
  }

  /** Up to nine bytes nothing is shifted out: the accumulator is the plain
      7-bit group value. */
  lemma {:induction false} AccumulateNoWrap(s: seq<Byte>)
    requires |s| <= 9
    ensures Accumulate(s) == VarInt.Low7Value(s)
  {
    if s != [] {
      var p := s[..|s| - 1];
      AccumulateNoWrap(p);
      VarInt.Low7ValueBound(p);
      VarInt.Pow128Monotone(|p|, 8);
      VarInt.Pow128Values();
    }
  }

  /** The two varint readers agree whenever the terminating byte is among the
      first eight; `decode_sqlite_varint` has no special ninth byte. */
  lemma LegacyAgreesWithVarIntDecode(bytes: seq<Byte>)
    requires VarInt.Terminator(bytes, 8) < |bytes| && VarInt.Terminator(bytes, 8) < 8
    ensures LegacyDecoded(bytes).Ok? && VarInt.Decoded(bytes).Ok?
    ensures LegacyDecoded(bytes).value == VarInt.Decoded(bytes).value
  {
    var k := VarInt.Terminator(bytes, 8);
    VarInt.TerminatorAt(bytes, |bytes|, k);
    LegacyStopsAtFirstTerminator(bytes, k);
    AccumulateNoWrap(bytes[..k + 1]);
  }

  /** The two readers part ways on a ninth byte after eight flagged ones:
      `VarInt::decode` takes all 8 of its bits, `decode_sqlite_varint` only the
      low 7 and only if its high bit is clear. */
  lemma NinthByteReadDifferently(s: seq<Byte>)
    requires |s| == 9 && forall j :: 0 <= j < 8 ==> s[j] >= 128
    ensures VarInt.Decoded(s) == Ok((VarInt.Low7Value(s[..8]) * 256 + s[8], 9))
    ensures s[8] < 128 ==> LegacyDecoded(s) == Ok((VarInt.Low7Value(s[..8]) * 128 + s[8], 9))
    ensures s[8] >= 128 ==> LegacyDecoded(s).Err?
  {
    VarInt.TerminatorAt(s, 8, 8);
    if s[8] < 128 {
      LegacyStopsAtFirstTerminator(s, 8);
      assert s[..9] == s;
      AccumulateNoWrap(s);
      assert s[..9][..8] == s[..8];
    } else {
      LegacyFailsIffUnterminated(s);
    }
  }

  /** `decode_sqlite_varint(&raw[p..p + 9])`: the fixed nine-byte slice panics
      when fewer than nine bytes remain at `p`. */
  function VarintAt(raw: seq<Byte>, p: nat): (r: Result<(U64, nat), DecodeError>)
    ensures r.Ok? ==> 1 <= r.value.1 <= 9
    ensures p + 9 > |raw| ==> r == Err(SliceOutOfRange)
  {
    if p + 9 > |raw| then Err(SliceOutOfRange)
    else
      LegacyFromWidth(raw[p..p + 9], 0, 0);
      LegacyDecoded(raw[p..p + 9])
  }

  /** The slice-then-decode step the record and cell decoders repeat. */
  method ReadVarintAt(raw: seq<Byte>, p: nat) returns (r: Result<(U64, nat), DecodeError>)
    ensures r == VarintAt(raw, p)
  {
    if p + 9 > |raw| {
      return Err(SliceOutOfRange);
    }
    r := DecodeSqliteVarint(raw[p..p + 9]);
  }
}
