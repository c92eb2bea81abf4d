/**
 * Table-leaf cell decoding (`Cell::new`): a payload-size varint, then a rowid
 * varint, then the record, all read from the page bytes the cell's context
 * carries. The record type and its decoder (`Record::new`) are not part of
 * this model: the cell decoder takes the record decoder as a parameter, and
 * `Record.RecordAt` is one such decoder.
 */
module Cell {
  import opened Wrappers
  import opened Bytes
  import VarInt
  import opened Helpers
  import Record

  /** Decodes a record that starts at the given offset of the page bytes. */
  type RecordDecoder<R> = (seq<Byte>, nat) -> Result<R, DecodeError>

  /** `CellSuper`: the database handle and page kind are carried along
      untouched, so they are type parameters here. */
  datatype CellSuper<D, P> = CellSuper(db: D, page: P, rawData: seq<Byte>)

  datatype Cell<R, D, P> = Cell(recordSize: U64, rowId: U64, record: R, superStruct: CellSuper<D, P>)

  /** The cell built from its two varints and the outcome of decoding the record. */
  function WithRecord<R, D, P>(recordSize: U64, rowId: U64, record: Result<R, DecodeError>, s: CellSuper<D, P>)
    : Result<Cell<R, D, P>, DecodeError>
  {
    match record
    case Ok(rec) => Ok(Cell(recordSize, rowId, rec, s))
    case Err(e) => Err(e)
  }

  /** What `Cell::new` returns: the payload-size varint at the cell offset,
      the rowid varint right after it, and the record after both. Each varint
      read slices nine bytes. */
  function CellAt<R, D, P>(decode: RecordDecoder<R>, offset: nat, s: CellSuper<D, P>): Result<Cell<R, D, P>, DecodeError>
  {
    match VarintAt(s.rawData, offset)
    case Err(e) => Err(e)
    case Ok((recordSize, k1)) =>
      match VarintAt(s.rawData, offset + k1)
      case Err(e) => Err(e)
      case Ok((rowId, k2)) => WithRecord(recordSize, rowId, decode(s.rawData, offset + k1 + k2), s)
  }

  /** `Cell::new`: `varint_offset` grows by the width of each varint read. */
  method CellNew<R, D, P>(decode: RecordDecoder<R>, cellHeaderOffset: nat, superStruct: CellSuper<D, P>)
    returns (r: Result<Cell<R, D, P>, DecodeError>)
    ensures r == CellAt(decode, cellHeaderOffset, superStruct)
  {
    var varintOffset: nat := 0;
    var size := ReadVarintAt(superStruct.rawData, cellHeaderOffset);
    if size.Err? {
      return Err(size.error);
    }
    var (recordSize, recordOffset) := size.value;
    varintOffset := varintOffset + recordOffset;
    var id := ReadVarintAt(superStruct.rawData, cellHeaderOffset + varintOffset);
    if id.Err? {
      return Err(id.error);
    }
    var (rowId, rowIdOffset) := id.value;
    varintOffset := varintOffset + rowIdOffset;
    var record := decode(superStruct.rawData, cellHeaderOffset + varintOffset);
    if record.Err? {
      return Err(record.error);
    }
    return Ok(Cell(recordSize, rowId, record.value, superStruct));
  }

  /** A cell laid out as section 1.6 of the SQLite file format describes, a
      payload-size varint followed by a rowid varint, is read back field by
      field, the record is decoded right after the two varints, and the
      context is kept as it was. */
  lemma CellReadsEncodedPrefix<R, D, P>(decode: RecordDecoder<R>, offset: nat, s: CellSuper<D, P>, recordSize: U64, rowId: U64)
    requires recordSize < VarInt.TWO_56 && rowId < VarInt.TWO_56
    requires offset + |VarInt.SqliteEncoding(recordSize)| + 9 <= |s.rawData|
    requires offset + |VarInt.SqliteEncoding(recordSize)| + |VarInt.SqliteEncoding(rowId)| <= |s.rawData|
    requires s.rawData[offset..offset + |VarInt.SqliteEncoding(recordSize)| + |VarInt.SqliteEncoding(rowId)|]
      == VarInt.SqliteEncoding(recordSize) + VarInt.SqliteEncoding(rowId)
    ensures CellAt(decode, offset, s) == WithRecord(recordSize, rowId,
      decode(s.rawData, offset + VarInt.EncodedSize(recordSize) + VarInt.EncodedSize(rowId)), s)
  {
    var e1 := VarInt.SqliteEncoding(recordSize);
    var e2 := VarInt.SqliteEncoding(rowId);
    VarInt.ShortEncodingShape(recordSize);
    VarInt.ShortEncodingShape(rowId);
    TwoVarintsAt(s.rawData, offset, recordSize, rowId, e1, e2);
  }

  lemma TwoVarintsAt(raw: seq<Byte>, offset: nat, a: U64, b: U64, e1: seq<Byte>, e2: seq<Byte>)
    requires a < VarInt.TWO_56 && b < VarInt.TWO_56
    requires e1 == VarInt.SqliteEncoding(a) && e2 == VarInt.SqliteEncoding(b)
    requires offset + |e1| + 9 <= |raw| && offset + |e1| + |e2| <= |raw|
    requires raw[offset..offset + |e1| + |e2|] == e1 + e2
    ensures VarintAt(raw, offset) == Ok((a, |e1|)) && VarintAt(raw, offset + |e1|) == Ok((b, |e2|))
  {
    Record.SliceOfConcat(raw, offset, e1, e2);
    Record.VarintAtEncoding(raw, offset, a, e1);
    Record.VarintAtEncoding(raw, offset + |e1|, b, e2);
  }

  /** Fewer than nine bytes at the cell offset: the first slice panics. */
  lemma CellNeedsNineBytes<R, D, P>(decode: RecordDecoder<R>, offset: nat, s: CellSuper<D, P>)
    requires offset + 9 > |s.rawData|
    ensures CellAt(decode, offset, s) == Err(SliceOutOfRange)
  {
  }

  /** Fewer than nine bytes after the payload-size varint: the second slice panics. */
  lemma CellNeedsNineBytesForRowId<R, D, P>(decode: RecordDecoder<R>, offset: nat, s: CellSuper<D, P>, recordSize: U64, k: nat)
    requires VarintAt(s.rawData, offset) == Ok((recordSize, k))
    requires offset + k + 9 > |s.rawData|
    ensures CellAt(decode, offset, s) == Err(SliceOutOfRange)
  {
  }

  /** A record decoding error comes out of `Cell::new` unchanged, and no
      other error does unless a varint read failed. */
  lemma CellErrorSources<R, D, P>(decode: RecordDecoder<R>, offset: nat, s: CellSuper<D, P>)
    requires CellAt(decode, offset, s).Err?
    ensures VarintAt(s.rawData, offset).Err?
      || VarintAt(s.rawData, offset + VarintAt(s.rawData, offset).value.1).Err?
      || (var k := VarintAt(s.rawData, offset).value.1 + VarintAt(s.rawData, offset + VarintAt(s.rawData, offset).value.1).value.1;
          decode(s.rawData, offset + k) == Err(CellAt(decode, offset, s).error))
  {
  }

  /** On success the cell keeps its context and its record is what the
      decoder gave at the end of the two varints. */
  lemma CellKeepsContext<R, D, P>(decode: RecordDecoder<R>, offset: nat, s: CellSuper<D, P>)
    requires CellAt(decode, offset, s).Ok?
    ensures CellAt(decode, offset, s).value.superStruct == s
    ensures exists k :: offset < k <= offset + 18 && decode(s.rawData, k) == Ok(CellAt(decode, offset, s).value.record)
  {
    var (_, k1) := VarintAt(s.rawData, offset).value;
    var (_, k2) := VarintAt(s.rawData, offset + k1).value;
    assert decode(s.rawData, offset + k1 + k2) == Ok(CellAt(decode, offset, s).value.record);
  }
}
