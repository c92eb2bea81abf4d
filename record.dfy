/**
 * Record decoding (`DataRecord::new`, `SchemaRecord::new`): the record header
 * is a header-size varint followed by one serial-code varint per column, and
 * the column values follow the header. Values are decoded by `parse_value`,
 * which is not part of this model: the decoders take it as a parameter that
 * returns the value and the number of bytes it used, or an error message.
 */
module Record {
  import opened Wrappers
  import opened Bytes
  import VarInt
  import opened Helpers

  type ValueParser<V> = (U64, seq<Byte>) -> Result<(V, nat), string>

  datatype DataRecord<V> = DataRecord(headerSize: U64, serialCodes: seq<U64>, values: seq<V>)

  datatype SchemaRecordType = Table | Index | View | Trigger

  datatype SchemaColumns = SchemaColumns(
    recordType: SchemaRecordType,
    recordName: string,
    tableName: string,
    rootPage: int,
    sql: string)

  datatype SchemaRecord<V> = SchemaRecord(
    headerSize: U64,
    serialCodes: seq<U64>,
    values: seq<V>,
    columns: SchemaColumns)

  /** `xs` in front of a successful result; an error passes through. */
  function Prepend<T>(xs: seq<T>, r: Result<seq<T>, DecodeError>): Result<seq<T>, DecodeError>
  {
    match r
    case Ok(ys) => Ok(xs + ys)
    case Err(e) => Err(e)
  }

  lemma PrependTwice<T>(xs: seq<T>, ys: seq<T>, r: Result<seq<T>, DecodeError>)
    ensures Prepend(xs, Prepend(ys, r)) == Prepend(xs + ys, r)
  {
    if r.Ok? {
      assert xs + (ys + r.value) == (xs + ys) + r.value;
    }
  }

  /** The serial codes the header loop collects: one varint at `base + index`
      after another while the running byte count is below `limit`. */
  function HeaderWalk(raw: seq<Byte>, base: nat, index: nat, limit: nat): Result<seq<U64>, DecodeError>
    decreases limit - index
  {
    if index >= limit then Ok([])
    else match VarintAt(raw, base + index)
      case Err(e) => Err(e)
      case Ok((code, n)) => Prepend([code], HeaderWalk(raw, base, index + n, limit))
  }

  /** The values the value loop collects: each serial code in turn is handed
      the bytes from the cursor on, and the cursor moves by what it used. */
  function ValueWalk<V>(parse: ValueParser<V>, raw: seq<Byte>, codes: seq<U64>, cursor: nat): Result<seq<V>, DecodeError>
    decreases |codes|
  {
    if codes == [] then Ok([])
    else if cursor > |raw| then Err(SliceOutOfRange)
    else match parse(codes[0], raw[cursor..])
      case Err(m) => Err(ValueError(m))
      case Ok((v, n)) => Prepend([v], ValueWalk(parse, raw, codes[1..], cursor + n))
  }

  /** The record built from a header and its decoded values, or the error
      decoding the values ended in. */
  function WithValues<V>(headerSize: U64, codes: seq<U64>, values: Result<seq<V>, DecodeError>): Result<DataRecord<V>, DecodeError>
  {
    match values
    case Ok(vs) => Ok(DataRecord(headerSize, codes, vs))
    case Err(e) => Err(e)
  }

  /** A record header as read: its size, its serial codes, and where the
      values after it start. */
  datatype RecordHead = RecordHead(headerSize: U64, serialCodes: seq<U64>, valuesStart: nat)

  /** The header part of both record constructors as written: the header loop
      runs until `header_size - 1` bytes past the header-size varint, and the
      values start `header_size - 1` bytes after that varint. */
  function HeadAt(raw: seq<Byte>, offset: nat): Result<RecordHead, DecodeError>
  {
    match VarintAt(raw, offset)
    case Err(e) => Err(e)
    case Ok((headerSize, k)) =>
      if headerSize == 0 then Err(HeaderSizeUnderflow)
      else match HeaderWalk(raw, offset + k, 0, headerSize - 1)
        case Err(e) => Err(e)
        case Ok(codes) => Ok(RecordHead(headerSize, codes, offset + k + headerSize - 1))
  }

  /** A record from its header: one value per serial code from the values start. */
  function RecordFrom<V>(parse: ValueParser<V>, raw: seq<Byte>, head: Result<RecordHead, DecodeError>): Result<DataRecord<V>, DecodeError>
  {
    match head
    case Err(e) => Err(e)
    case Ok(RecordHead(headerSize, codes, start)) => WithValues(headerSize, codes, ValueWalk(parse, raw, codes, start))
  }

  /** Both record constructors as written. */
  function RecordAt<V>(parse: ValueParser<V>, raw: seq<Byte>, offset: nat): Result<DataRecord<V>, DecodeError>
  {
    RecordFrom(parse, raw, HeadAt(raw, offset))
  }

  /** The header loop of `DataRecord::new`: while `index < header_size - 1`,
      read the varint at `base + index`, keep it, and add its length. */
  method ReadSerialCodes(raw: seq<Byte>, base: nat, limit: nat) returns (r: Result<seq<U64>, DecodeError>)
    ensures r == HeaderWalk(raw, base, 0, limit)
  {
    var serialCodes: seq<U64> := [];
    var index: nat := 0;
    PrependNil(HeaderWalk(raw, base, 0, limit));
    while index < limit
      invariant HeaderWalk(raw, base, 0, limit) == Prepend(serialCodes, HeaderWalk(raw, base, index, limit))
      decreases limit - index
    {
      var code := ReadVarintAt(raw, base + index);
      if code.Err? {
        return Err(code.error);
      }
      PrependTwice(serialCodes, [code.value.0], HeaderWalk(raw, base, index + code.value.1, limit));
      serialCodes := serialCodes + [code.value.0];
      index := index + code.value.1;
    }
    assert serialCodes + [] == serialCodes;
    return Ok(serialCodes);
  }

  /** The value loop of `DataRecord::new`: each serial code is parsed from the
      bytes at the cursor, and the cursor moves by the bytes it used. */
  method ReadValues<V>(parse: ValueParser<V>, raw: seq<Byte>, serialCodes: seq<U64>, start: nat)
    returns (r: Result<seq<V>, DecodeError>)
    ensures r == ValueWalk(parse, raw, serialCodes, start)
  {
    var offset: nat := start;
    var values: seq<V> := [];
    PrependNil(ValueWalk(parse, raw, serialCodes, start));
    for i := 0 to |serialCodes|
      invariant ValueWalk(parse, raw, serialCodes, start)
        == Prepend(values, ValueWalk(parse, raw, serialCodes[i..], offset))
    {
      if offset > |raw| {
        return Err(SliceOutOfRange);
      }
      var parsed := parse(serialCodes[i], raw[offset..]);
      if parsed.Err? {
        return Err(ValueError(parsed.error));
      }
      assert serialCodes[i..][1..] == serialCodes[i + 1..];
      PrependTwice(values, [parsed.value.0], ValueWalk(parse, raw, serialCodes[i + 1..], offset + parsed.value.1));
      values := values + [parsed.value.0];
      offset := offset + parsed.value.1;
    }
    assert values + [] == values;
    return Ok(values);
  }

  /** `DataRecord::new`. */
  method DataRecordNew<V>(parse: ValueParser<V>, raw: seq<Byte>, start: nat) returns (r: Result<DataRecord<V>, DecodeError>)
    ensures r == RecordAt(parse, raw, start)
  {
    var offset: nat := start;
    var head := ReadVarintAt(raw, offset);
    if head.Err? {
      return Err(head.error);
    }
    var (headerSize, headerSizeOffset) := head.value;
    offset := offset + headerSizeOffset;
    if headerSize == 0 {
      return Err(HeaderSizeUnderflow);
    }
    var serialCodes := ReadSerialCodes(raw, offset, headerSize - 1);
    if serialCodes.Err? {
      return Err(serialCodes.error);
    }
    offset := offset + headerSize - 1;
    var values := ReadValues(parse, raw, serialCodes.value, offset);
    if values.Err? {
      return Err(values.error);
    }
    return Ok(DataRecord(headerSize, serialCodes.value, values.value));
  }

  /** The column block `SchemaRecord::new` fills in without reading it. */
  const PlaceholderColumns := SchemaColumns(Table, "", "", 0, "")

  /** `SchemaRecord::new`: the same header and value walk as `DataRecord::new`,
      with placeholder columns. */
  method SchemaRecordNew<V>(parse: ValueParser<V>, raw: seq<Byte>, start: nat) returns (r: Result<SchemaRecord<V>, DecodeError>)
    ensures r.Ok? <==> RecordAt(parse, raw, start).Ok?
    ensures r.Err? ==> r.error == RecordAt(parse, raw, start).error
    ensures r.Ok? ==> (var d := RecordAt(parse, raw, start).value;
      r.value == SchemaRecord(d.headerSize, d.serialCodes, d.values, PlaceholderColumns))
  {
    var data := DataRecordNew(parse, raw, start);
    if data.Err? {
      return Err(data.error);
    }
    var d := data.value;
    return Ok(SchemaRecord(d.headerSize, d.serialCodes, d.values, PlaceholderColumns));
  }

  /** Where the value loop hands value `i` its bytes: the start cursor moved
      on by the bytes each earlier value used (while those parses succeed). */
  function CursorBefore<V>(parse: ValueParser<V>, raw: seq<Byte>, codes: seq<U64>, cursor: nat, i: nat): nat
    requires i <= |codes|
    decreases i
  {
    if i == 0 || cursor > |raw| || parse(codes[0], raw[cursor..]).Err? then cursor
    else CursorBefore(parse, raw, codes[1..], cursor + parse(codes[0], raw[cursor..]).value.1, i - 1)
  }

  /** Value `i` is parsed successfully from its cursor. */
  predicate ParsedAt<V>(parse: ValueParser<V>, raw: seq<Byte>, codes: seq<U64>, cursor: nat, i: nat)
    requires i < |codes|
  {
    CursorBefore(parse, raw, codes, cursor, i) <= |raw|
    && parse(codes[i], raw[CursorBefore(parse, raw, codes, cursor, i)..]).Ok?
  }

  /** Past a first value that parses, the cursors are those of the walk over
      the remaining codes from the moved cursor. */
  lemma CursorStep<V>(parse: ValueParser<V>, raw: seq<Byte>, codes: seq<U64>, cursor: nat, i: nat)
    requires 0 < i <= |codes| && cursor <= |raw| && parse(codes[0], raw[cursor..]).Ok?
    ensures CursorBefore(parse, raw, codes, cursor, i)
      == CursorBefore(parse, raw, codes[1..], cursor + parse(codes[0], raw[cursor..]).value.1, i - 1)
    ensures i < |codes| ==> codes[1..][i - 1] == codes[i]
  {
  }

  /** A successful value walk parses value `i` with serial code `i`, from the
      bytes at the cursor the earlier values moved it to, and moves the cursor
      by the bytes that value used. */
  lemma {:induction false} ValueWalkValues<V>(parse: ValueParser<V>, raw: seq<Byte>, codes: seq<U64>, cursor: nat)
    requires ValueWalk(parse, raw, codes, cursor).Ok?
    ensures |ValueWalk(parse, raw, codes, cursor).value| == |codes|
    ensures forall i :: 0 <= i < |codes| ==>
      ParsedAt(parse, raw, codes, cursor, i)
      && ValueWalk(parse, raw, codes, cursor).value[i]
        == parse(codes[i], raw[CursorBefore(parse, raw, codes, cursor, i)..]).value.0
      && CursorBefore(parse, raw, codes, cursor, i + 1)
        == CursorBefore(parse, raw, codes, cursor, i) + parse(codes[i], raw[CursorBefore(parse, raw, codes, cursor, i)..]).value.1
    decreases |codes|
  {
    if codes != [] {
      var (v, n) := parse(codes[0], raw[cursor..]).value;
      var rest := ValueWalk(parse, raw, codes[1..], cursor + n);
      ValueWalkValues(parse, raw, codes[1..], cursor + n);
      var vs := ValueWalk(parse, raw, codes, cursor).value;
      assert vs == [v] + rest.value;
      forall i | 0 <= i < |codes|
        ensures ParsedAt(parse, raw, codes, cursor, i)
        ensures vs[i] == parse(codes[i], raw[CursorBefore(parse, raw, codes, cursor, i)..]).value.0
        ensures CursorBefore(parse, raw, codes, cursor, i + 1)
          == CursorBefore(parse, raw, codes, cursor, i) + parse(codes[i], raw[CursorBefore(parse, raw, codes, cursor, i)..]).value.1
      {
        CursorStep(parse, raw, codes, cursor, i + 1);
        if i > 0 {
          CursorStep(parse, raw, codes, cursor, i);
          assert ParsedAt(parse, raw, codes[1..], cursor + n, i - 1);
          assert vs[i] == rest.value[i - 1];
        }
      }
    }
  }

  /** The first value that fails to parse, after every earlier one parsed,
      ends the walk with its error. */
  lemma {:induction false} ValueWalkFails<V>(parse: ValueParser<V>, raw: seq<Byte>, codes: seq<U64>, cursor: nat, i: nat)
    requires i < |codes|
    requires forall j :: 0 <= j < i ==> ParsedAt(parse, raw, codes, cursor, j)
    requires CursorBefore(parse, raw, codes, cursor, i) <= |raw|
    requires parse(codes[i], raw[CursorBefore(parse, raw, codes, cursor, i)..]).Err?
    ensures ValueWalk(parse, raw, codes, cursor)
      == Err(ValueError(parse(codes[i], raw[CursorBefore(parse, raw, codes, cursor, i)..]).error))
    decreases i
  {
    if i > 0 {
      assert ParsedAt(parse, raw, codes, cursor, 0);
      var next := cursor + parse(codes[0], raw[cursor..]).value.1;
      var rest := codes[1..];
      forall j | 0 <= j < i - 1
        ensures ParsedAt(parse, raw, rest, next, j)
      {
        assert ParsedAt(parse, raw, codes, cursor, j + 1);
        CursorStep(parse, raw, codes, cursor, j + 1);
      }
      CursorStep(parse, raw, codes, cursor, i);
      ValueWalkFails(parse, raw, rest, next, i - 1);
    }
  }

  /** A decoded record has one value per serial code, value `i` parsed with
      serial code `i` at the cursor the earlier values advanced. */
  lemma RecordValuesMatchCodes<V>(parse: ValueParser<V>, raw: seq<Byte>, offset: nat)
    requires RecordAt(parse, raw, offset).Ok?
    ensures HeadAt(raw, offset).Ok?
    ensures var d := RecordAt(parse, raw, offset).value; var h := HeadAt(raw, offset).value;
      d.serialCodes == h.serialCodes && |d.values| == |d.serialCodes|
      && forall i :: 0 <= i < |d.values| ==>
        ParsedAt(parse, raw, d.serialCodes, h.valuesStart, i)
        && d.values[i] == parse(d.serialCodes[i], raw[CursorBefore(parse, raw, d.serialCodes, h.valuesStart, i)..]).value.0
  {
    var head := HeadAt(raw, offset).value;
    ValueWalkValues(parse, raw, head.serialCodes, head.valuesStart);
  }

  /** When the header reads and value `i` is the first that fails to parse,
      no record is built: the record's error is that parse error. */
  lemma ParseErrorPropagates<V>(parse: ValueParser<V>, raw: seq<Byte>, offset: nat, i: nat)
    requires HeadAt(raw, offset).Ok? && i < |HeadAt(raw, offset).value.serialCodes|
    requires var h := HeadAt(raw, offset).value;
      (forall j :: 0 <= j < i ==> ParsedAt(parse, raw, h.serialCodes, h.valuesStart, j))
      && CursorBefore(parse, raw, h.serialCodes, h.valuesStart, i) <= |raw|
      && parse(h.serialCodes[i], raw[CursorBefore(parse, raw, h.serialCodes, h.valuesStart, i)..]).Err?
    ensures var h := HeadAt(raw, offset).value;
      RecordAt(parse, raw, offset)
        == Err(ValueError(parse(h.serialCodes[i], raw[CursorBefore(parse, raw, h.serialCodes, h.valuesStart, i)..]).error))
  {
    var h := HeadAt(raw, offset).value;
    ValueWalkFails(parse, raw, h.serialCodes, h.valuesStart, i);
  }

  // ---------------------------------------------------------------------
  // Record headers built as section 2.1 of the SQLite file format lays them
  // out, and what each decoder reads back from them.

  /** The serial-code varints of a header, back to back. */
  function EncodeAll(codes: seq<U64>): seq<Byte>
  {
    if codes == [] then [] else VarInt.SqliteEncoding(codes[0]) + EncodeAll(codes[1..])
  }

  /** A record header: the header size, then the serial codes. */
  function RecordHeader(headerSize: U64, codes: seq<U64>): seq<Byte>
  {
    VarInt.SqliteEncoding(headerSize) + EncodeAll(codes)
  }

  /** A header is well formed when its size field counts its own bytes. */
  predicate WellFormedHeader(headerSize: U64, codes: seq<U64>)
  {
    headerSize < VarInt.TWO_56 && ShortCodes(codes)
    && |RecordHeader(headerSize, codes)| == headerSize
  }

  /** Every serial code fits in 56 bits, so its varint needs at most eight bytes. */
  predicate ShortCodes(codes: seq<U64>)
  {
    codes == [] || (codes[0] < VarInt.TWO_56 && ShortCodes(codes[1..]))
  }

  /** The legacy reader reads back any standard encoding of at most eight bytes. */
  lemma LegacyReadsEncoding(v: U64, rest: seq<Byte>)
    requires v < VarInt.TWO_56
    ensures LegacyDecoded(VarInt.SqliteEncoding(v) + rest) == Ok((v, |VarInt.SqliteEncoding(v)|))
  {
    var enc := VarInt.SqliteEncoding(v);
    VarInt.ShortEncodingShape(v);
    VarInt.TerminatorAt(enc, 8, |enc| - 1);
    VarInt.SqliteEncodingRoundTrip(v);
    LegacyAgreesWithVarIntDecode(enc);
    LegacyIgnoresTrailingBytes(enc, rest);
  }

  /** `VarintAt` reads back an encoding that sits at `p` with nine bytes to spare. */
  lemma VarintAtEncoding(raw: seq<Byte>, p: nat, v: U64, enc: seq<Byte>)
    requires v < VarInt.TWO_56 && enc == VarInt.SqliteEncoding(v)
    requires p + 9 <= |raw| && p + |enc| <= |raw|
    requires raw[p..p + |enc|] == enc
    ensures VarintAt(raw, p) == Ok((v, |enc|))
  {
    VarInt.ShortEncodingShape(v);
    assert raw[p..p + 9] == enc + raw[p + |enc|..p + 9];
    LegacyReadsEncoding(v, raw[p + |enc|..p + 9]);
  }

  lemma SliceOfConcat(raw: seq<Byte>, p: nat, a: seq<Byte>, b: seq<Byte>)
    requires p + |a| + |b| <= |raw| && raw[p..p + |a| + |b|] == a + b
    ensures raw[p..p + |a|] == a && raw[p + |a|..p + |a| + |b|] == b
  {
    assert raw[p..p + |a|] == raw[p..p + |a| + |b|][..|a|];
    assert raw[p + |a|..p + |a| + |b|] == raw[p..p + |a| + |b|][|a|..];
  }

  lemma PrependNil<T>(r: Result<seq<T>, DecodeError>)
    ensures Prepend([], r) == r
  {
    if r.Ok? {
      assert [] + r.value == r.value;
    }
  }

  lemma HeaderWalkStep(raw: seq<Byte>, base: nat, index: nat, limit: nat, code: U64, n: nat)
    requires index < limit && VarintAt(raw, base + index) == Ok((code, n))
    ensures HeaderWalk(raw, base, index, limit) == Prepend([code], HeaderWalk(raw, base, index + n, limit))
  {
  }


  lemma EncodeAllCons(codes: seq<U64>)
    requires codes != []
    ensures EncodeAll(codes) == VarInt.SqliteEncoding(codes[0]) + EncodeAll(codes[1..])
  {
  }


  /** Total width of the serial-code varints. */
  function CodesSize(codes: seq<U64>): nat
  {
    if codes == [] then 0 else VarInt.EncodedSize(codes[0]) + CodesSize(codes[1..])
  }

  /** `codes` can be read one varint after another from position `p`. */
  predicate CodesAt(raw: seq<Byte>, p: nat, codes: seq<U64>)
    decreases |codes|
  {
    codes == [] ||
    (VarintAt(raw, p) == Ok((codes[0], VarInt.EncodedSize(codes[0])))
     && CodesAt(raw, p + VarInt.EncodedSize(codes[0]), codes[1..]))
  }

  /** The serial-code bytes are as wide as their varints. */
  lemma {:induction false} EncodeAllSize(codes: seq<U64>)
    requires ShortCodes(codes)
    ensures |EncodeAll(codes)| == CodesSize(codes)
    decreases |codes|
  {
    if codes != [] {
      VarInt.ShortEncodingShape(codes[0]);
      EncodeAllSize(codes[1..]);
    }
  }

  /** Each serial code's encoding sits in `raw` right after the previous one,
      with eight bytes to spare after the last. */
  predicate EncodingsAt(raw: seq<Byte>, p: nat, codes: seq<U64>)
    decreases |codes|
  {
    if codes == [] then p + 8 <= |raw|
    else
      var enc := VarInt.SqliteEncoding(codes[0]);
      codes[0] < VarInt.TWO_56 && p + |enc| + 8 <= |raw| && raw[p..p + |enc|] == enc
      && EncodingsAt(raw, p + |enc|, codes[1..])
  }

  /** The serial-code bytes of a header are the encodings of the codes one
      after another, whatever comes before them. */
  lemma {:induction false} EncodeAllAt(pre: seq<Byte>, codes: seq<U64>, post: seq<Byte>)
    requires ShortCodes(codes) && |post| >= 8
    ensures EncodingsAt(pre + EncodeAll(codes) + post, |pre|, codes)
    decreases |codes|
  {
    if codes != [] {
      var enc := VarInt.SqliteEncoding(codes[0]);
      var tail := EncodeAll(codes[1..]);
      EncodeAllCons(codes);
      ConcatRegroup(pre, enc, tail, post);
      EncodeAllAt(pre + enc, codes[1..], post);
    }
  }

  lemma ConcatRegroup<T>(pre: seq<T>, a: seq<T>, b: seq<T>, post: seq<T>)
    ensures pre + (a + b) + post == (pre + a) + b + post
    ensures (pre + (a + b) + post)[|pre|..|pre| + |a|] == a
  {
    assert (pre + (a + b) + post)[|pre|..|pre| + |a|] == a;
  }

  /** Encodings laid one after another are read back in order. */
  lemma {:induction false} EncodedCodesAt(raw: seq<Byte>, p: nat, codes: seq<U64>)
    requires EncodingsAt(raw, p, codes)
    ensures CodesAt(raw, p, codes)
    decreases |codes|
  {
    if codes != [] {
      var enc := VarInt.SqliteEncoding(codes[0]);
      var n := VarInt.EncodedSize(codes[0]);
      var rest := codes[1..];
      assert EncodingsAt(raw, p + |enc|, rest);
      assert VarintAt(raw, p) == Ok((codes[0], n)) && |enc| == n by {
        VarInt.ShortEncodingShape(codes[0]);
        VarintAtEncoding(raw, p, codes[0], enc);
      }
      EncodedCodesAt(raw, p + n, rest);
      CodesAtCons(raw, p, codes, n);
    }
  }

  lemma CodesAtCons(raw: seq<Byte>, p: nat, codes: seq<U64>, n: nat)
    requires codes != [] && n == VarInt.EncodedSize(codes[0])
    requires VarintAt(raw, p) == Ok((codes[0], n)) && CodesAt(raw, p + n, codes[1..])
    ensures CodesAt(raw, p, codes)
  {
  }

  /** The header loop reads codes that sit back to back, then carries on from
      the byte after them. */
  lemma {:induction false} HeaderWalkReadsCodes(raw: seq<Byte>, base: nat, index: nat, limit: nat, codes: seq<U64>)
    requires CodesAt(raw, base + index, codes)
    requires index + CodesSize(codes) <= limit
    ensures HeaderWalk(raw, base, index, limit) == Prepend(codes, HeaderWalk(raw, base, index + CodesSize(codes), limit))
    decreases |codes|
  {
    if codes == [] {
      assert index + CodesSize(codes) == index;
      PrependNil(HeaderWalk(raw, base, index, limit));
    } else {
      var n := VarInt.EncodedSize(codes[0]);
      HeaderWalkStep(raw, base, index, limit, codes[0], n);
      HeaderWalkReadsCodes(raw, base, index + n, limit, codes[1..]);
      PrependTwice([codes[0]], codes[1..], HeaderWalk(raw, base, index + CodesSize(codes), limit));
      assert [codes[0]] + codes[1..] == codes;
    }
  }

  /** A well-formed header at `offset`: its size varint reads back, and the
      serial-code bytes fill the rest of it. */
  lemma HeaderParts(raw: seq<Byte>, offset: nat, headerSize: U64, codes: seq<U64>, k: nat, all: seq<Byte>)
    requires WellFormedHeader(headerSize, codes)
    requires k == VarInt.EncodedSize(headerSize) && all == EncodeAll(codes)
    requires offset + headerSize + 8 <= |raw|
    requires raw[offset..offset + headerSize] == RecordHeader(headerSize, codes)
    ensures k + |all| == headerSize
    ensures VarintAt(raw, offset) == Ok((headerSize, k))
    ensures raw[offset + k..offset + k + |all|] == all
  {
    var enc := VarInt.SqliteEncoding(headerSize);
    assert RecordHeader(headerSize, codes) == enc + all;
    SliceOfConcat(raw, offset, enc, all);
    VarInt.ShortEncodingShape(headerSize);
    VarintAtEncoding(raw, offset, headerSize, enc);
  }

  /** What a well-formed header at `offset` gives the varint reader: the
      header size first, then each serial code in turn, filling the header. */
  lemma HeaderLaidOut(raw: seq<Byte>, offset: nat, headerSize: U64, codes: seq<U64>)
    requires WellFormedHeader(headerSize, codes)
    requires offset + headerSize + 8 <= |raw|
    requires raw[offset..offset + headerSize] == RecordHeader(headerSize, codes)
    ensures LaidOut(raw, offset, headerSize, VarInt.EncodedSize(headerSize), codes)
  {
    var k := VarInt.EncodedSize(headerSize);
    var all := EncodeAll(codes);
    HeaderParts(raw, offset, headerSize, codes, k, all);
    CodesLaidOut(raw, offset + k, codes, all);
  }

  /** The serial-code bytes of a header, found at `p` with eight bytes to
      spare, read back as the serial codes and are as wide as their varints. */
  lemma CodesLaidOut(raw: seq<Byte>, p: nat, codes: seq<U64>, all: seq<Byte>)
    requires ShortCodes(codes) && all == EncodeAll(codes)
    requires p + |all| + 8 <= |raw| && raw[p..p + |all|] == all
    ensures CodesAt(raw, p, codes) && |all| == CodesSize(codes)
  {
    SplitAround(raw, p, all);
    EncodeAllAt(raw[..p], codes, raw[p + |all|..]);
    EncodedCodesAt(raw, p, codes);
    EncodeAllSize(codes);
  }

  lemma SplitAround<T>(raw: seq<T>, p: nat, mid: seq<T>)
    requires p + |mid| <= |raw| && raw[p..p + |mid|] == mid
    ensures raw == raw[..p] + mid + raw[p + |mid|..] && |raw[..p]| == p
  {
  }

  /** Once the size varint and the header loop are known, so is the header. */
  lemma HeadAtFromParts(raw: seq<Byte>, offset: nat, headerSize: U64, k: nat, codes: seq<U64>)
    requires VarintAt(raw, offset) == Ok((headerSize, k)) && headerSize != 0
    requires HeaderWalk(raw, offset + k, 0, headerSize - 1) == Ok(codes)
    ensures HeadAt(raw, offset) == Ok(RecordHead(headerSize, codes, offset + k + headerSize - 1))
  {
  }

  /** Once the header is known, the record is the value walk after it. */
  lemma RecordAtFromHead<V>(parse: ValueParser<V>, raw: seq<Byte>, offset: nat, head: RecordHead)
    requires HeadAt(raw, offset) == Ok(head)
    ensures RecordAt(parse, raw, offset) == WithValues(head.headerSize, head.serialCodes, ValueWalk(parse, raw, head.serialCodes, head.valuesStart))
  {
  }

  /** Once the running count reaches the limit the header loop stops. */
  lemma HeaderWalkDone(raw: seq<Byte>, base: nat, index: nat, limit: nat, codes: seq<U64>)
    requires index >= limit
    ensures Prepend(codes, HeaderWalk(raw, base, index, limit)) == Ok(codes)
  {
    assert codes + [] == codes;
  }

  /** A size varint of width `k` at `offset` followed by serial codes that
      fill the rest of the header, as a well-formed header lays them out. */
  predicate LaidOut(raw: seq<Byte>, offset: nat, headerSize: U64, k: nat, codes: seq<U64>)
  {
    VarintAt(raw, offset) == Ok((headerSize, k))
    && CodesAt(raw, offset + k, codes)
    && k + CodesSize(codes) == headerSize
  }

  /** The header loop run from the end of the size varint to the end of the
      header reads back the serial codes. */
  lemma HeaderWalkReadsHeader(raw: seq<Byte>, offset: nat, headerSize: U64, k: nat, codes: seq<U64>)
    requires LaidOut(raw, offset, headerSize, k, codes)
    ensures HeaderWalk(raw, offset, k, headerSize) == Ok(codes)
  {
    HeaderWalkReadsCodes(raw, offset, k, headerSize, codes);
    HeaderWalkDone(raw, offset, k + CodesSize(codes), headerSize, codes);
  }

  /** The same walk counted from the first serial code, as the decoder as
      written counts it. */
  lemma HeaderWalkReadsHeaderFromCodes(raw: seq<Byte>, offset: nat, headerSize: U64, k: nat, codes: seq<U64>)
    requires LaidOut(raw, offset, headerSize, k, codes)
    ensures HeaderWalk(raw, offset + k, 0, headerSize - k) == Ok(codes)
  {
    HeaderWalkReadsCodes(raw, offset + k, 0, headerSize - k, codes);
    HeaderWalkDone(raw, offset + k, CodesSize(codes), headerSize - k, codes);
  }

  /** When the header-size varint is one byte (a header under 128 bytes), the
      record decoder reads back exactly the serial codes and starts the values
      right after the header, as section 2.1 lays out. */
  lemma RecordReadsShortHeader<V>(parse: ValueParser<V>, raw: seq<Byte>, offset: nat, headerSize: U64, codes: seq<U64>)
    requires WellFormedHeader(headerSize, codes) && headerSize < 128
    requires offset + headerSize + 8 <= |raw|
    requires raw[offset..offset + headerSize] == RecordHeader(headerSize, codes)
    ensures HeadAt(raw, offset) == Ok(RecordHead(headerSize, codes, offset + headerSize))
    ensures RecordAt(parse, raw, offset) == WithValues(headerSize, codes, ValueWalk(parse, raw, codes, offset + headerSize))
  {
    HeaderLaidOut(raw, offset, headerSize, codes);
    ShortLaidOutRead(parse, raw, offset, headerSize, codes);
  }

  lemma ShortLaidOutRead<V>(parse: ValueParser<V>, raw: seq<Byte>, offset: nat, headerSize: U64, codes: seq<U64>)
    requires LaidOut(raw, offset, headerSize, 1, codes)
    ensures HeadAt(raw, offset) == Ok(RecordHead(headerSize, codes, offset + headerSize))
    ensures RecordAt(parse, raw, offset) == WithValues(headerSize, codes, ValueWalk(parse, raw, codes, offset + headerSize))
  {
    HeaderWalkReadsHeaderFromCodes(raw, offset, headerSize, 1, codes);
    HeadAtFromParts(raw, offset, headerSize, 1, codes);
    RecordAtFromHead(parse, raw, offset, RecordHead(headerSize, codes, offset + headerSize));
  }

  /** A byte below 0x80 with eight more after it reads as a one-byte varint. */
  lemma OneByteVarintAt(raw: seq<Byte>, p: nat)
    requires p + 9 <= |raw| && raw[p] < 128
    ensures VarintAt(raw, p) == Ok((raw[p], 1))
  {
    LegacySingleByte(raw[p..p + 9]);
  }

  /** The header loop over a single one-byte varint. */
  lemma SingleCodeWalk(raw: seq<Byte>, base: nat, index: nat, code: U64)
    requires VarintAt(raw, base + index) == Ok((code, 1))
    ensures HeaderWalk(raw, base, index, index + 1) == Ok([code])
  {
    HeaderWalkStep(raw, base, index, index + 1, code, 1);
    assert [code] + [] == [code];
  }

  /** The header loop as written under a two-byte size varint: it reads the
      serial codes and then the varint right after the header. */
  lemma OverreadWalk(raw: seq<Byte>, offset: nat, headerSize: U64, codes: seq<U64>, extra: U64)
    requires LaidOut(raw, offset, headerSize, 2, codes)
    requires VarintAt(raw, offset + headerSize) == Ok((extra, 1))
    ensures HeaderWalk(raw, offset + 2, 0, headerSize - 1) == Ok(codes + [extra])
  {
    HeaderWalkReadsCodes(raw, offset + 2, 0, headerSize - 1, codes);
    SingleCodeWalk(raw, offset + 2, headerSize - 2, extra);
  }

  /** As written, a header of 128 bytes or more (two-byte size varint) makes the
      header loop read the byte after the header as an extra serial code, and
      the values start one byte too late. */
  lemma LongHeaderMisread<V>(parse: ValueParser<V>, raw: seq<Byte>, offset: nat, headerSize: U64, codes: seq<U64>)
    requires WellFormedHeader(headerSize, codes) && 128 <= headerSize < 0x4000
    requires offset + headerSize + 9 <= |raw|
    requires raw[offset..offset + headerSize] == RecordHeader(headerSize, codes)
    requires raw[offset + headerSize] < 128
    ensures HeadAt(raw, offset) == Ok(RecordHead(headerSize, codes + [raw[offset + headerSize]], offset + headerSize + 1))
    ensures RecordAt(parse, raw, offset) == WithValues(headerSize, codes + [raw[offset + headerSize]],
      ValueWalk(parse, raw, codes + [raw[offset + headerSize]], offset + headerSize + 1))
  {
    HeaderLaidOut(raw, offset, headerSize, codes);
    assert VarInt.EncodedSize(headerSize) == 2;
    OverreadRecord(parse, raw, offset, headerSize, codes);
  }

  lemma OverreadRecord<V>(parse: ValueParser<V>, raw: seq<Byte>, offset: nat, headerSize: U64, codes: seq<U64>)
    requires LaidOut(raw, offset, headerSize, 2, codes)
    requires offset + headerSize + 9 <= |raw| && raw[offset + headerSize] < 128
    ensures HeadAt(raw, offset) == Ok(RecordHead(headerSize, codes + [raw[offset + headerSize]], offset + headerSize + 1))
    ensures RecordAt(parse, raw, offset) == WithValues(headerSize, codes + [raw[offset + headerSize]],
      ValueWalk(parse, raw, codes + [raw[offset + headerSize]], offset + headerSize + 1))
  {
    var misread := codes + [raw[offset + headerSize]];
    OneByteVarintAt(raw, offset + headerSize);
    OverreadWalk(raw, offset, headerSize, codes, raw[offset + headerSize]);
    HeadAtFromParts(raw, offset, headerSize, 2, misread);
    RecordAtFromHead(parse, raw, offset, RecordHead(headerSize, misread, offset + headerSize + 1));
  }

  /** Corrected header reader: the serial codes fill the bytes between the
      header-size varint and `offset + header_size`, and the values start at
      `offset + header_size`. A size smaller than its own varint is refused. */
  function CorrectedHeadAt(raw: seq<Byte>, offset: nat): Result<RecordHead, DecodeError>
  {
    match VarintAt(raw, offset)
    case Err(e) => Err(e)
    case Ok((headerSize, k)) =>
      if headerSize < k then Err(HeaderSizeUnderflow)
      else match HeaderWalk(raw, offset, k, headerSize)
        case Err(e) => Err(e)
        case Ok(codes) => Ok(RecordHead(headerSize, codes, offset + headerSize))
  }

  /** Corrected record decoder. */
  function CorrectedRecordAt<V>(parse: ValueParser<V>, raw: seq<Byte>, offset: nat): Result<DataRecord<V>, DecodeError>
  {
    RecordFrom(parse, raw, CorrectedHeadAt(raw, offset))
  }

  lemma CorrectedHeadAtFromParts(raw: seq<Byte>, offset: nat, headerSize: U64, k: nat, codes: seq<U64>)
    requires VarintAt(raw, offset) == Ok((headerSize, k)) && k <= headerSize
    requires HeaderWalk(raw, offset, k, headerSize) == Ok(codes)
    ensures CorrectedHeadAt(raw, offset) == Ok(RecordHead(headerSize, codes, offset + headerSize))
  {
  }

  lemma CorrectedRecordAtFromHead<V>(parse: ValueParser<V>, raw: seq<Byte>, offset: nat, head: RecordHead)
    requires CorrectedHeadAt(raw, offset) == Ok(head)
    ensures CorrectedRecordAt(parse, raw, offset) == WithValues(head.headerSize, head.serialCodes, ValueWalk(parse, raw, head.serialCodes, head.valuesStart))
  {
  }

  /** The corrected decoder reads back every well-formed header whatever the
      width of its size varint. */
  lemma CorrectedRecordReadsHeader<V>(parse: ValueParser<V>, raw: seq<Byte>, offset: nat, headerSize: U64, codes: seq<U64>)
    requires WellFormedHeader(headerSize, codes)
    requires offset + headerSize + 8 <= |raw|
    requires raw[offset..offset + headerSize] == RecordHeader(headerSize, codes)
    ensures CorrectedHeadAt(raw, offset) == Ok(RecordHead(headerSize, codes, offset + headerSize))
    ensures CorrectedRecordAt(parse, raw, offset) == WithValues(headerSize, codes, ValueWalk(parse, raw, codes, offset + headerSize))
  {
    HeaderLaidOut(raw, offset, headerSize, codes);
    CorrectedLaidOutRead(parse, raw, offset, headerSize, VarInt.EncodedSize(headerSize), codes);
  }

  lemma CorrectedLaidOutRead<V>(parse: ValueParser<V>, raw: seq<Byte>, offset: nat, headerSize: U64, k: nat, codes: seq<U64>)
    requires LaidOut(raw, offset, headerSize, k, codes)
    ensures CorrectedHeadAt(raw, offset) == Ok(RecordHead(headerSize, codes, offset + headerSize))
    ensures CorrectedRecordAt(parse, raw, offset) == WithValues(headerSize, codes, ValueWalk(parse, raw, codes, offset + headerSize))
  {
    HeaderWalkReadsHeader(raw, offset, headerSize, k, codes);
    CorrectedHeadAtFromParts(raw, offset, headerSize, k, codes);
    CorrectedRecordAtFromHead(parse, raw, offset, RecordHead(headerSize, codes, offset + headerSize));
  }
}
