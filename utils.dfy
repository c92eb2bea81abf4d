/**
 * The binary helpers of the utilities module: lowercase hex encoding of
 * bytes, hex decoding by character pairs (`u8::from_str_radix(_, 16)`), and
 * the byte swap of a 32-bit word. Strings are ASCII, one character per byte.
 */
module Utils {
  import opened Wrappers
  import opened Bytes

  const HEX_DIGITS: string := "0123456789abcdef"

  datatype ParseIntError = InvalidDigit

  /** A string every character of which is ASCII. */
  predicate IsAscii(s: string)
  {
    forall i :: 0 <= i < |s| ==> s[i] < 128 as char
  }

  /** `format!("{:02x}", b)`: two lowercase hex digits, high nibble first. */
  function ByteHex(b: Byte): (r: string)
    ensures |r| == 2
  {
    [HEX_DIGITS[b / 16], HEX_DIGITS[b % 16]]
  }

  /** The hex text of a byte string, two digits per byte in order. */
  function ToHex(bytes: seq<Byte>): (r: string)
  {
    if bytes == [] then [] else ByteHex(bytes[0]) + ToHex(bytes[1..])
  }

  /** The value of one base-16 digit of either case, if it is one. */
  function DigitValue(c: char): Option<nat>
  {
    if '0' <= c <= '9' then Some(c as nat - '0' as nat)
    else if 'a' <= c <= 'f' then Some(c as nat - 'a' as nat + 10)
    else if 'A' <= c <= 'F' then Some(c as nat - 'A' as nat + 10)
    else None
  }

  /** `u8::from_str_radix` of a two-character string in base 16: two digits,
      or a `+` sign followed by one digit. */
  function ParsePair(c0: char, c1: char): Result<Byte, ParseIntError>
  {
    if c0 == '+' then
      match DigitValue(c1)
      case None => Err(InvalidDigit)
      case Some(d) => Ok(d)
    else
      match (DigitValue(c0), DigitValue(c1))
      case (Some(d0), Some(d1)) => Ok(d0 * 16 + d1)
      case _ => Err(InvalidDigit)
  }

  /** `bytes` in front of a decoding's outcome. */
  function Prepend(bytes: seq<Byte>, r: Result<seq<Byte>, ParseIntError>): Result<seq<Byte>, ParseIntError>
  {
    match r
    case Ok(rest) => Ok(bytes + rest)
    case Err(e) => Err(e)
  }

  /** The decoding of a hex string pair by pair; a last odd character is
      ignored, and the first pair that does not parse is the error. */
  function FromHex(hex: string): Result<seq<Byte>, ParseIntError>
  {
    if |hex| < 2 then Ok([])
    else match ParsePair(hex[0], hex[1])
      case Err(e) => Err(e)
      case Ok(b) => Prepend([b], FromHex(hex[2..]))
  }

  /** `to_hex_string`: appends each byte's two digits. */
  method ToHexString(bytes: seq<Byte>) returns (result: string)
    ensures result == ToHex(bytes)
  {
    result := [];
    var i := 0;
    while i < |bytes|
      invariant 0 <= i <= |bytes|
      invariant result == ToHex(bytes[..i])
    {
      ToHexConcat(bytes[..i], [bytes[i]]);
      assert bytes[..i + 1] == bytes[..i] + [bytes[i]];
      result := result + ByteHex(bytes[i]);
      i := i + 1;
    }
    assert bytes[..i] == bytes;
  }

  /** `from_hex_string`: walks the string two characters at a time, parsing
      every complete pair and returning the first parse error. */
  method FromHexString(hex: string) returns (r: Result<seq<Byte>, ParseIntError>)
    requires IsAscii(hex)
    ensures r == FromHex(hex)
  {
    var bytes: seq<Byte> := [];
    var i := 0;
    assert hex[0..] == hex;
    PrependNothing(FromHex(hex));
    while i < |hex|
      invariant 0 <= i <= |hex| + 1 && i % 2 == 0
      invariant FromHex(hex) == Prepend(bytes, FromHex(if i <= |hex| then hex[i..] else []))
    {
      if i + 2 <= |hex| {
        var b := ParsePair(hex[i], hex[i + 1]);
        if b.Err? {
          assert hex[i..][0] == hex[i] && hex[i..][1] == hex[i + 1];
          return Err(b.error);
        }
        assert hex[i..][0] == hex[i] && hex[i..][1] == hex[i + 1];
        assert hex[i..][2..] == hex[i + 2..];
        PrependTwice(bytes, [b.value], FromHex(hex[i + 2..]));
        bytes := bytes + [b.value];
      }
      i := i + 2;
    }
    assert bytes + [] == bytes;
    r := Ok(bytes);
  }

  lemma PrependNothing(r: Result<seq<Byte>, ParseIntError>)
    ensures Prepend([], r) == r
  {
    if r.Ok? {
      assert [] + r.value == r.value;
    }
  }

  lemma PrependTwice(a: seq<Byte>, b: seq<Byte>, r: Result<seq<Byte>, ParseIntError>)
    ensures Prepend(a, Prepend(b, r)) == Prepend(a + b, r)
  {
    if r.Ok? {
      assert a + (b + r.value) == (a + b) + r.value;
    }
  }

  /** The hex text of two byte strings one after the other. */
  lemma {:induction false} ToHexConcat(a: seq<Byte>, b: seq<Byte>)
    ensures ToHex(a + b) == ToHex(a) + ToHex(b)
  {
    if a != [] {
      assert (a + b)[1..] == a[1..] + b;
      ToHexConcat(a[1..], b);
    } else {
      assert a + b == b;
    }
  }

  /** Two lowercase hex digits per byte. */
  lemma {:induction false} ToHexShape(bytes: seq<Byte>)
    ensures |ToHex(bytes)| == 2 * |bytes|
    ensures forall i :: 0 <= i < |ToHex(bytes)| ==> ToHex(bytes)[i] in HEX_DIGITS
  {
    if bytes != [] {
      ToHexShape(bytes[1..]);
      var h := ByteHex(bytes[0]);
      var t := ToHex(bytes[1..]);
      forall i | 0 <= i < |h + t|
        ensures (h + t)[i] in HEX_DIGITS
      {
        if i >= 2 {
          assert (h + t)[i] == t[i - 2];
        }
      }
    }
  }

  /** Each byte's two digits parse back to the byte. */
  lemma ByteHexParses(b: Byte)
    ensures ParsePair(ByteHex(b)[0], ByteHex(b)[1]) == Ok(b)
  {
    var hi, lo := b / 16, b % 16;
    assert DigitValue(HEX_DIGITS[hi]) == Some(hi) by {
      DigitValueOfHexDigit(hi);
    }
    assert DigitValue(HEX_DIGITS[lo]) == Some(lo) by {
      DigitValueOfHexDigit(lo);
    }
  }

  lemma DigitValueOfHexDigit(d: nat)
    requires d < 16
    ensures DigitValue(HEX_DIGITS[d]) == Some(d)
  {
  }

  /** Decoding the hex text of any byte string gives the bytes back. */
  lemma {:induction false} HexRoundTrip(bytes: seq<Byte>)
    ensures FromHex(ToHex(bytes)) == Ok(bytes)
  {
    if bytes != [] {
      var h := ByteHex(bytes[0]);
      var t := ToHex(bytes[1..]);
      ByteHexParses(bytes[0]);
      assert (h + t)[0] == h[0] && (h + t)[1] == h[1];
      assert (h + t)[2..] == t;
      HexRoundTrip(bytes[1..]);
      assert [bytes[0]] + bytes[1..] == bytes;
    }
  }

  /** A last unpaired character never changes the outcome. */
  lemma {:induction false} TrailingCharIgnored(hex: string, c: char)
    requires |hex| % 2 == 0
    ensures FromHex(hex + [c]) == FromHex(hex)
  {
    if |hex| >= 2 {
      assert (hex + [c])[2..] == hex[2..] + [c];
      TrailingCharIgnored(hex[2..], c);
    }
  }

  /** A pair with a `+` sign parses as its one digit, as `from_str_radix`
      accepts a leading sign; a pair with a non-digit fails the decoding. */
  lemma SignedPairs()
    ensures FromHex("+f") == Ok([15])
    ensures FromHex("0g") == Err(InvalidDigit)
    ensures FromHex("ff0") == Ok([255])
  {
    assert "+f"[0] == '+' && "+f"[1] == 'f' && "+f"[2..] == [];
    assert ParsePair('+', 'f') == Ok(15);
    assert [15 as Byte] + [] == [15];
    assert "ff0"[0] == 'f' && "ff0"[1] == 'f' && "ff0"[2..] == "0";
    assert ParsePair('f', 'f') == Ok(255);
    assert [255 as Byte] + [] == [255];
  }

  // ---------------------------------------------------------------------
  // Byte swap.

  /** `swap_endian_u32`: the four bytes of the word in reverse order, so
      each byte of the result is the opposite byte of the input. */
  function SwapEndianU32(value: bv32): (r: bv32)
    ensures ByteOf(r, 0) == ByteOf(value, 3) && ByteOf(r, 1) == ByteOf(value, 2)
    ensures ByteOf(r, 2) == ByteOf(value, 1) && ByteOf(r, 3) == ByteOf(value, 0)
  {
    ((value & 0xFF) << 24) | ((value & 0xFF00) << 8) | ((value & 0xFF0000) >> 8) | ((value & 0xFF000000) >> 24)
  }

  /** Byte `k` of a word, counting from the least significant byte. */
  function ByteOf(x: bv32, k: nat): bv32
    requires k < 4
  {
    if k == 0 then x & 0xFF
    else if k == 1 then (x >> 8) & 0xFF
    else if k == 2 then (x >> 16) & 0xFF
    else x >> 24
  }

  /** Swapping twice gives the input back. */
  lemma SwapInvolution(value: bv32)
    ensures SwapEndianU32(SwapEndianU32(value)) == value
  {
  }

  lemma SwapExample()
    ensures SwapEndianU32(0x11223344) == 0x44332211
  {
  }
}
